/** The order in which the main window lists selected edges
    (compareEdgePointers and getSelectedEdgeListText in ui/mainwindow.cpp).
    An edge is known here only by the names of its starting and ending
    nodes, which is all the comparison and the list text read. */
module EdgeOrder {
  import opened Wrappers
  import opened Strings

  datatype Edge = Edge(startName: string, endName: string)

  /** A node name read as a number once its sign character is dropped:
      chop(1) followed by toLongLong. */
  function NameNumber(name: string): Option<int>
  {
    ParseLongLong(ChopLast(name))
  }

  /** Both of the edge's node names are numbers once the sign is dropped. */
  predicate IsNumeric(e: Edge)
  {
    NameNumber(e.startName).Some? && NameNumber(e.endName).Some?
  }

  /** compareEdgePointers as written: when all four names are numeric, by
      start number and then end number; otherwise by the full start names
      as strings, whatever the other names are. */
  predicate CompareEdgePointers(a: Edge, b: Edge)
  {
    if IsNumeric(a) && IsNumeric(b) then
      var aStart := NameNumber(a.startName).value;
      var bStart := NameNumber(b.startName).value;
      if aStart != bStart then aStart < bStart
      else NameNumber(a.endName).value < NameNumber(b.endName).value
    else StrLess(a.startName, b.startName)
  }

  /** No edge sorts before itself. */
  lemma CompareEdgePointersIrreflexive(a: Edge)
    ensures !CompareEdgePointers(a, a)
  {
    StrLessIrreflexive(a.startName);
  }

  /** Among edges whose names are all numeric the comparison is transitive. */
  lemma CompareEdgePointersTransitiveOnNumeric(a: Edge, b: Edge, c: Edge)
    requires IsNumeric(a) && IsNumeric(b) && IsNumeric(c)
    requires CompareEdgePointers(a, b) && CompareEdgePointers(b, c)
    ensures CompareEdgePointers(a, c)
  {
  }

  /** Among edges whose start names are not all numeric the comparison is
      transitive as well: it is the string order on start names. */
  lemma CompareEdgePointersTransitiveOnNames(a: Edge, b: Edge, c: Edge)
    requires !IsNumeric(a) && !IsNumeric(b) && !IsNumeric(c)
    requires CompareEdgePointers(a, b) && CompareEdgePointers(b, c)
    ensures CompareEdgePointers(a, c)
  {
    StrLessTransitive(a.startName, b.startName, c.startName);
  }

  /** Mixing numeric and non-numeric names breaks transitivity: the edges
      10+ to 1+, 9+ to 1+ and 5x+ to 1+ each sort before another in a cycle,
      so the comparison is not the strict weak order std::sort needs. */
  lemma CompareEdgePointersCycle()
    ensures var a := Edge("10+", "1+");
            var b := Edge("9+", "1+");
            var c := Edge("5x+", "1+");
            CompareEdgePointers(b, a) && CompareEdgePointers(a, c) && CompareEdgePointers(c, b)
  {
    var a := Edge("10+", "1+");
    var b := Edge("9+", "1+");
    var c := Edge("5x+", "1+");
    assert ChopLast("10+") == "10" && ChopLast("9+") == "9" && ChopLast("1+") == "1";
    assert ChopLast("5x+") == "5x";
    assert DigitsValue("1") == 1;
    assert DigitsValue("10") == 10 by {
      assert "10"[..1] == "1";
    }
    assert DigitsValue("9") == 9;
    assert NameNumber("10+") == Some(10);
    assert NameNumber("9+") == Some(9);
    assert NameNumber("1+") == Some(1);
    assert !IsDigit("5x"[1]);
    assert NameNumber("5x+") == None;
    assert !IsNumeric(c);
    assert StrLess("10+", "5x+");
    assert StrLess("5x+", "9+");
  }

  // ---------------------------------------------------------------------------
  // The order the comparison evidently intends: numeric edges by their
  // numbers, other edges by start name, and every numeric edge before every
  // other edge, so that the two groups never mix.

  datatype EdgeKey = NumericKey(startNumber: int, endNumber: int) | NameKey(startName: string)

  function KeyOf(e: Edge): (k: EdgeKey)
    ensures k.NumericKey? <==> IsNumeric(e)
    ensures k.NameKey? ==> k.startName == e.startName
  {
    if IsNumeric(e) then NumericKey(NameNumber(e.startName).value, NameNumber(e.endName).value)
    else NameKey(e.startName)
  }

  predicate KeyLess(k1: EdgeKey, k2: EdgeKey)
  {
    match (k1, k2)
    case (NumericKey(s1, e1), NumericKey(s2, e2)) => s1 < s2 || (s1 == s2 && e1 < e2)
    case (NumericKey(_, _), NameKey(_)) => true
    case (NameKey(_), NumericKey(_, _)) => false
    case (NameKey(n1), NameKey(n2)) => StrLess(n1, n2)
  }

  predicate EdgeLess(a: Edge, b: Edge)
  {
    KeyLess(KeyOf(a), KeyOf(b))
  }

  /** The corrected order is a strict weak order: irreflexive, transitive,
      and an edge sorting before another sorts before or after any third. */
  lemma EdgeLessStrictWeakOrder(a: Edge, b: Edge, c: Edge)
    ensures !EdgeLess(a, a)
    ensures EdgeLess(a, b) && EdgeLess(b, c) ==> EdgeLess(a, c)
    ensures EdgeLess(a, c) ==> EdgeLess(a, b) || EdgeLess(b, c)
  {
    var ka, kb, kc := KeyOf(a), KeyOf(b), KeyOf(c);
    if ka.NameKey? {
      StrLessIrreflexive(ka.startName);
    }
    if ka.NameKey? && kb.NameKey? && kc.NameKey? {
      if StrLess(ka.startName, kb.startName) && StrLess(kb.startName, kc.startName) {
        StrLessTransitive(ka.startName, kb.startName, kc.startName);
      }
      if StrLess(ka.startName, kc.startName) {
        StrLessTotal(ka.startName, kb.startName);
        if StrLess(kb.startName, ka.startName) {
          StrLessTransitive(kb.startName, ka.startName, kc.startName);
        }
      }
    }
  }

  /** Where the groups do not mix the corrected order is the comparison as
      written. */
  lemma EdgeLessAgreesWithinGroups(a: Edge, b: Edge)
    requires IsNumeric(a) == IsNumeric(b)
    ensures EdgeLess(a, b) == CompareEdgePointers(a, b)
  {
  }

  /** Where they mix, every numeric edge comes first. */
  lemma EdgeLessNumericFirst(a: Edge, b: Edge)
    requires IsNumeric(a) && !IsNumeric(b)
    ensures EdgeLess(a, b) && !EdgeLess(b, a)
  {
  }

  // ---------------------------------------------------------------------------
  // Sorting: std::sort with a comparison passed in, as the source passes
  // compareEdgePointers. std::sort leaves the order of equivalent elements
  // unspecified; the model inserts stably.

  /** No element sorts before an earlier one. */
  predicate SortedBy<T>(s: seq<T>, less: (T, T) -> bool)
  {
    forall i, j :: 0 <= i < j < |s| ==> !less(s[j], s[i])
  }

  /** `x` placed before the first element it sorts before. */
  function Insert<T>(x: T, s: seq<T>, less: (T, T) -> bool): seq<T>
  {
    if s == [] then [x]
    else if less(x, s[0]) then [x] + s
    else [s[0]] + Insert(x, s[1..], less)
  }

  function SortBy<T>(s: seq<T>, less: (T, T) -> bool): seq<T>
  {
    if s == [] then [] else Insert(s[0], SortBy(s[1..], less), less)
  }

  /** Whatever the comparison, inserting adds exactly the one element. */
  lemma {:induction false} InsertPermutes<T>(x: T, s: seq<T>, less: (T, T) -> bool)
    ensures multiset(Insert(x, s, less)) == multiset(s) + multiset{x}
  {
    if s == [] {
    } else if less(x, s[0]) {
      assert Insert(x, s, less) == [x] + s;
    } else {
      InsertPermutes(x, s[1..], less);
      assert Insert(x, s, less) == [s[0]] + Insert(x, s[1..], less);
      assert s == [s[0]] + s[1..];
    }
  }

  /** Whatever the comparison, sorting keeps the same elements. */
  lemma {:induction false} SortByPermutes<T>(s: seq<T>, less: (T, T) -> bool)
    ensures multiset(SortBy(s, less)) == multiset(s)
  {
    if s != [] {
      SortByPermutes(s[1..], less);
      InsertPermutes(s[0], SortBy(s[1..], less), less);
      assert s == [s[0]] + s[1..];
    }
  }

  /** The comparison is a strict order among the elements of `elems`:
      irreflexive and transitive. */
  ghost predicate StrictOn<T>(elems: set<T>, less: (T, T) -> bool)
  {
    && (forall a :: a in elems ==> !less(a, a))
    && (forall a, b, c :: a in elems && b in elems && c in elems && less(a, b) && less(b, c) ==> less(a, c))
  }

  /** Inserting into a sorted list keeps it sorted whenever the comparison is
      a strict order on the elements involved; nothing more is needed. */
  lemma {:induction false} InsertSorted<T>(x: T, s: seq<T>, less: (T, T) -> bool, elems: set<T>)
    requires StrictOn(elems, less)
    requires x in elems && forall i :: 0 <= i < |s| ==> s[i] in elems
    requires SortedBy(s, less)
    ensures SortedBy(Insert(x, s, less), less)
  {
    if s == [] {
    } else if less(x, s[0]) {
      var r := [x] + s;
      forall i, j | 0 <= i < j < |r|
        ensures !less(r[j], r[i])
      {
        if i == 0 {
          // r[j] is s[j - 1], which does not sort before s[0], which x precedes.
          assert r[j] == s[j - 1] && s[j - 1] in elems && s[0] in elems;
        }
      }
    } else {
      InsertSorted(x, s[1..], less, elems);
      InsertPermutes(x, s[1..], less);
      var t := Insert(x, s[1..], less);
      var r := [s[0]] + t;
      forall i, j | 0 <= i < j < |r|
        ensures !less(r[j], r[i])
      {
        if i == 0 {
          assert r[j] in multiset(t);
          assert r[j] == x || r[j] in multiset(s[1..]);
          if r[j] != x {
            var m :| 0 <= m < |s[1..]| && s[1..][m] == r[j];
            assert s[m + 1] == r[j];
          }
        }
      }
    }
  }

  /** Sorting leaves the list ordered whenever the comparison is a strict
      order on its elements. */
  lemma {:induction false} SortBySorted<T>(s: seq<T>, less: (T, T) -> bool, elems: set<T>)
    requires StrictOn(elems, less)
    requires forall i :: 0 <= i < |s| ==> s[i] in elems
    ensures SortedBy(SortBy(s, less), less)
  {
    if s != [] {
      SortBySorted(s[1..], less, elems);
      var t := SortBy(s[1..], less);
      SortByPermutes(s[1..], less);
      forall i | 0 <= i < |t|
        ensures t[i] in elems
      {
        assert t[i] in multiset(s[1..]);
        var m :| 0 <= m < |s[1..]| && s[1..][m] == t[i];
        assert s[m + 1] == t[i];
      }
      InsertSorted(s[0], t, less, elems);
    }
  }

  /** Two comparisons that agree on every pair from `elems` insert alike. */
  lemma {:induction false} InsertAgrees<T>(x: T, s: seq<T>, less1: (T, T) -> bool, less2: (T, T) -> bool,
                                               elems: set<T>)
    requires forall a, b :: a in elems && b in elems ==> less1(a, b) == less2(a, b)
    requires x in elems && forall i :: 0 <= i < |s| ==> s[i] in elems
    ensures Insert(x, s, less1) == Insert(x, s, less2)
  {
    if s != [] {
      InsertAgrees(x, s[1..], less1, less2, elems);
    }
  }

  /** Two comparisons that agree on every pair from `elems` sort alike. */
  lemma {:induction false} SortByAgrees<T>(s: seq<T>, less1: (T, T) -> bool, less2: (T, T) -> bool, elems: set<T>)
    requires forall a, b :: a in elems && b in elems ==> less1(a, b) == less2(a, b)
    requires forall i :: 0 <= i < |s| ==> s[i] in elems
    ensures SortBy(s, less1) == SortBy(s, less2)
  {
    if s != [] {
      SortByAgrees(s[1..], less1, less2, elems);
      var t := SortBy(s[1..], less1);
      SortByPermutes(s[1..], less1);
      forall i | 0 <= i < |t|
        ensures t[i] in elems
      {
        assert t[i] in multiset(s[1..]);
        var m :| 0 <= m < |s[1..]| && s[1..][m] == t[i];
        assert s[m + 1] == t[i];
      }
      InsertAgrees(s[0], t, less1, less2, elems);
    }
  }

  /** The edges of `s`. */
  function EdgesOf(s: seq<Edge>): (elems: set<Edge>)
    ensures forall i :: 0 <= i < |s| ==> s[i] in elems
  {
    set e | e in s
  }

  /** All edges numeric, or none: the comparison then never mixes its two
      rules. */
  predicate SingleGroup(s: seq<Edge>)
  {
    (forall i :: 0 <= i < |s| ==> IsNumeric(s[i])) || (forall i :: 0 <= i < |s| ==> !IsNumeric(s[i]))
  }

  /** Within one group compareEdgePointers is a strict order. */
  lemma SingleGroupStrict(s: seq<Edge>)
    requires SingleGroup(s)
    ensures StrictOn(EdgesOf(s), CompareEdgePointers)
  {
    forall a | a in EdgesOf(s)
      ensures !CompareEdgePointers(a, a)
    {
      CompareEdgePointersIrreflexive(a);
    }
    forall a, b, c | a in EdgesOf(s) && b in EdgesOf(s) && c in EdgesOf(s)
      && CompareEdgePointers(a, b) && CompareEdgePointers(b, c)
      ensures CompareEdgePointers(a, c)
    {
      if IsNumeric(a) {
        CompareEdgePointersTransitiveOnNumeric(a, b, c);
      } else {
        CompareEdgePointersTransitiveOnNames(a, b, c);
      }
    }
  }

  /** std::sort of the selected edges with compareEdgePointers, as at the
      call site. */
  function SortEdges(s: seq<Edge>): seq<Edge>
  {
    SortBy(s, CompareEdgePointers)
  }

  /** SortEdges returns the same edges. They come out ordered by
      compareEdgePointers whenever that comparison is a strict order on them, in
      particular when the edges are all numeric or all not. */
  lemma {:induction false} SortEdgesCorrect(s: seq<Edge>)
    ensures multiset(SortEdges(s)) == multiset(s)
    ensures StrictOn(EdgesOf(s), CompareEdgePointers) ==> SortedBy(SortEdges(s), CompareEdgePointers)
    ensures SingleGroup(s) ==> SortedBy(SortEdges(s), CompareEdgePointers)
  {
    SortByPermutes(s, CompareEdgePointers);
    if SingleGroup(s) {
      SingleGroupStrict(s);
    }
    if StrictOn(EdgesOf(s), CompareEdgePointers) {
      SortBySorted(s, CompareEdgePointers, EdgesOf(s));
    }
  }

  /** The sort with the corrected order. */
  function SortEdgesCorrected(s: seq<Edge>): seq<Edge>
  {
    SortBy(s, EdgeLess)
  }

  /** The corrected sort returns the same edges, always in the corrected
      order, and agrees with SortEdges whenever the edges are all numeric or
      all not. */
  lemma {:induction false} SortEdgesCorrectedCorrect(s: seq<Edge>)
    ensures multiset(SortEdgesCorrected(s)) == multiset(s)
    ensures SortedBy(SortEdgesCorrected(s), EdgeLess)
    ensures SingleGroup(s) ==> SortEdgesCorrected(s) == SortEdges(s)
  {
    SortByPermutes(s, EdgeLess);
    forall a, b, c | a in EdgesOf(s) && b in EdgesOf(s) && c in EdgesOf(s)
      ensures !EdgeLess(a, a)
      ensures EdgeLess(a, b) && EdgeLess(b, c) ==> EdgeLess(a, c)
    {
      EdgeLessStrictWeakOrder(a, b, c);
    }
    SortBySorted(s, EdgeLess, EdgesOf(s));
    if SingleGroup(s) {
      forall a, b | a in EdgesOf(s) && b in EdgesOf(s)
        ensures EdgeLess(a, b) == CompareEdgePointers(a, b)
      {
        EdgeLessAgreesWithinGroups(a, b);
      }
      SortByAgrees(s, EdgeLess, CompareEdgePointers, EdgesOf(s));
    }
  }

  // ---------------------------------------------------------------------------
  // The list text.

  function EdgeItem(e: Edge): string
  {
    e.startName + " to " + e.endName
  }

  function EdgeItems(s: seq<Edge>): (items: seq<string>)
    ensures |items| == |s|
    ensures forall i :: 0 <= i < |s| ==> items[i] == EdgeItem(s[i])
  {
    if s == [] then [] else [EdgeItem(s[0])] + EdgeItems(s[1..])
  }

  /** The loop of getSelectedEdgeListText: each edge as "start to end", in
      the order given, separated by ", ". */
  method JoinEdgeItems(edges: seq<Edge>) returns (edgeText: string)
    ensures edgeText == Join(EdgeItems(edges), ", ")
  {
    ghost var items := EdgeItems(edges);
    edgeText := "";
    var i := 0;
    while i < |edges|
      invariant 0 <= i <= |edges|
      invariant JoinedUpTo(edgeText, items, i, ", ")
    {
      ghost var prefix := edgeText;
      edgeText := edgeText + edges[i].startName;
      edgeText := edgeText + " to ";
      edgeText := edgeText + edges[i].endName;
      assert edgeText == prefix + EdgeItem(edges[i]);
      if i != |edges| - 1 {
        edgeText := edgeText + ", ";
      }
      JoinedUpToStep(prefix, items, i, ", ");
      i := i + 1;
    }
    JoinedUpToAll(edgeText, items, ", ");
  }

  /** getSelectedEdgeListText: the selected edges sorted with
      compareEdgePointers, then listed. */
  method GetSelectedEdgeListText(selectedEdges: seq<Edge>) returns (edgeText: string)
    ensures edgeText == Join(EdgeItems(SortEdges(selectedEdges)), ", ")
  {
    var sorted := SortEdges(selectedEdges);
    edgeText := JoinEdgeItems(sorted);
  }

  /** getSelectedEdgeListText with the corrected order. */
  method GetSelectedEdgeListTextCorrected(selectedEdges: seq<Edge>) returns (edgeText: string)
    ensures edgeText == Join(EdgeItems(SortEdgesCorrected(selectedEdges)), ", ")
  {
    var sorted := SortEdgesCorrected(selectedEdges);
    edgeText := JoinEdgeItems(sorted);
  }

  /** 9+ to 1+ is numeric, 5x+ to 1+ is not, and "5x+" comes before "9+"
      as a string. */
  lemma MixedPairFacts()
    ensures IsNumeric(Edge("9+", "1+")) && !IsNumeric(Edge("5x+", "1+"))
    ensures StrLess("5x+", "9+") && !StrLess("9+", "5x+")
  {
    assert ChopLast("9+") == "9" && ChopLast("1+") == "1" && ChopLast("5x+") == "5x";
    assert !IsDigit("5x"[1]);
    assert NameNumber("9+") == Some(9) && NameNumber("1+") == Some(1);
    assert StrLess("5x+", "9+");
  }

  /** The two orders list the same selection differently: 5x+ to 1+ and
      9+ to 1+ are compared by start name as written, and the numeric edge
      goes first in the corrected order. */
  lemma MixedSelectionListedDifferently()
    ensures var s := [Edge("9+", "1+"), Edge("5x+", "1+")];
      && SortEdges(s) == [Edge("5x+", "1+"), Edge("9+", "1+")]
      && SortEdgesCorrected(s) == s
  {
    var a := Edge("9+", "1+");
    var c := Edge("5x+", "1+");
    MixedPairFacts();
    EdgeLessNumericFirst(a, c);
    assert !CompareEdgePointers(a, c);
    assert [a, c][1..] == [c];
    assert SortBy([c], CompareEdgePointers) == [c];
    assert SortBy([c], EdgeLess) == [c];
  }
}
