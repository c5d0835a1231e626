/** The barcode side of the main window: the guards on a barcode typed by
    the user (selectUserSpecifiedBarcodes), the node a barcode record belongs
    to, and refreshDisplay, which attaches the records of every selected
    barcode to their nodes and colours them. The manager's state is the
    fields of graph/barcodemanager.h that this code reads and writes. */
module BarcodeDisplay {
  import opened Wrappers
  import opened Colours
  import opened Strings
  import opened Barcodes
  import opened BarcodeSettings
  import opened Nodes
  import opened AssemblyGraphs

  // ---------------------------------------------------------------------------
  // The barcode input guards

  datatype InputVerdict =
    | AlreadySet              // "Barcode already set!"
    | NotInData               // "Barcode don't exist in data!"
    | Accepted(barcode: string)

  /** selectUserSpecifiedBarcodes up to the call that adds the barcode: the
      input is simplified, refused when already selected or unknown, and
      otherwise accepted as its simplified form. The input box is cleared in
      every case; the refusals change nothing else. */
  function CheckBarcodeInput(selected: seq<string>, known: set<string>, input: string): (v: InputVerdict)
  {
    if Simplified(input) in selected then AlreadySet
    else if Simplified(input) !in known then NotInData
    else Accepted(Simplified(input))
  }

  /** An accepted barcode is known, not yet selected, and already in
      simplified form; the two refusals happen exactly when their conditions
      hold, the first taking precedence. */
  lemma CheckBarcodeInputMeaning(selected: seq<string>, known: set<string>, input: string)
    ensures CheckBarcodeInput(selected, known, input).Accepted? ==>
      var b := CheckBarcodeInput(selected, known, input).barcode;
      b in known && b !in selected && Simplified(b) == b
    ensures CheckBarcodeInput(selected, known, input) == AlreadySet <==> Simplified(input) in selected
    ensures CheckBarcodeInput(selected, known, input) == NotInData <==>
      Simplified(input) !in selected && Simplified(input) !in known
  {
    SimplifiedIdempotent(input);
  }

  /** Extra white space around or inside the typed text does not change the
      verdict. */
  lemma CheckBarcodeInputIgnoresSpacing(selected: seq<string>, known: set<string>, input: string)
    ensures CheckBarcodeInput(selected, known, Simplified(input)) == CheckBarcodeInput(selected, known, input)
  {
    SimplifiedIdempotent(input);
  }

  // ---------------------------------------------------------------------------
  // The node a record belongs to

  /** refreshDisplay: the contig's '+' node for strand 0, its '-' node for
      any other strand. */
  function AttachName(rec: Barcode): string
  {
    rec.contig + (if rec.strand == 0 then "+" else "-")
  }

  /** setBarcodeSelectionNode: the contig's '-' node for strand 1, its '+'
      node for any other strand. */
  function SelectionNodeName(rec: Barcode): string
  {
    rec.contig + (if rec.strand == 1 then "-" else "+")
  }

  /** The two rules name the same node exactly for strands 0 and 1; a record
      with any other strand is attached to one node but selects the other. */
  lemma StrandNamesAgree(rec: Barcode)
    ensures AttachName(rec) == SelectionNodeName(rec) <==> rec.strand == 0 || rec.strand == 1
  {
    if rec.strand != 0 && rec.strand != 1 {
      assert AttachName(rec)[|rec.contig|] == '-';
      assert SelectionNodeName(rec)[|rec.contig|] == '+';
    }
  }

  // ---------------------------------------------------------------------------
  // What refreshDisplay does, on values

  /** What refreshDisplay reads: the selected barcodes in order, the records
      of each barcode, the colours of the barcodes that have a setting, and
      the preset colours indexed by position in the selection. */
  datatype RefreshInput = RefreshInput(
    selected: seq<string>,
    barcodeMap: map<string, seq<Barcode>>,
    settingColours: map<string, Colour>,
    presets: seq<Colour>)

  /** What it writes: the records attached to each node (by node name), the
      colour given to each record (by barcode and position among its
      records), and whether it ran to the end rather than stopping at a
      missing preset colour. */
  datatype RefreshState = RefreshState(
    attached: map<string, seq<Barcode>>,
    colours: map<(string, int), Colour>,
    completed: bool)

  /** The colour for the records of the i-th selected barcode: its setting's
      colour when it has one, otherwise the preset colour at position i, and
      none when there is no such preset (presetColours.at(i) throws). */
  function ColourFor(inp: RefreshInput, i: int): (c: Option<Colour>)
    requires 0 <= i < |inp.selected|
    ensures c.None? <==> inp.selected[i] !in inp.settingColours && i >= |inp.presets|
  {
    var b := inp.selected[i];
    if b in inp.settingColours then Some(inp.settingColours[b])
    else if i < |inp.presets| then Some(inp.presets[i])
    else None
  }

  predicate RecordIndex(inp: RefreshInput, i: int, j: int)
  {
    0 <= i < |inp.selected| && inp.selected[i] in inp.barcodeMap && 0 <= j < |inp.barcodeMap[inp.selected[i]]|
  }

  /** One record: when its node exists the record is appended to the node's
      list and then coloured; a missing colour stops the run with the record
      already appended. After a stop nothing further happens. */
  function AttachRecord(inp: RefreshInput, st: RefreshState, i: int, j: int): RefreshState
    requires RecordIndex(inp, i, j)
  {
    var b := inp.selected[i];
    var rec := inp.barcodeMap[b][j];
    var name := AttachName(rec);
    if !st.completed || name !in st.attached then st
    else
      var withRecord := st.(attached := st.attached[name := st.attached[name] + [rec]]);
      match ColourFor(inp, i)
      case None => withRecord.(completed := false)
      case Some(c) => withRecord.(colours := withRecord.colours[(b, j) := c])
  }

  /** The first n records of the i-th selected barcode, in order. */
  function AttachRecords(inp: RefreshInput, st: RefreshState, i: int, n: int): RefreshState
    requires 0 <= i < |inp.selected| && inp.selected[i] in inp.barcodeMap
    requires 0 <= n <= |inp.barcodeMap[inp.selected[i]]|
  {
    if n == 0 then st else AttachRecord(inp, AttachRecords(inp, st, i, n - 1), i, n - 1)
  }

  /** All records of the first n selected barcodes, in order; a selected
      barcode with no records is skipped. */
  function AttachBarcodes(inp: RefreshInput, st: RefreshState, n: int): RefreshState
    requires 0 <= n <= |inp.selected|
  {
    if n == 0 then st
    else
      var before := AttachBarcodes(inp, st, n - 1);
      if inp.selected[n - 1] in inp.barcodeMap then
        AttachRecords(inp, before, n - 1, |inp.barcodeMap[inp.selected[n - 1]]|)
      else before
  }

  function Refresh(inp: RefreshInput, st: RefreshState): RefreshState
  {
    AttachBarcodes(inp, st, |inp.selected|)
  }

  lemma {:induction false} AttachRecordsAfterStop(inp: RefreshInput, st: RefreshState, i: int, m: int, n: int)
    requires 0 <= i < |inp.selected| && inp.selected[i] in inp.barcodeMap
    requires 0 <= m <= n <= |inp.barcodeMap[inp.selected[i]]|
    requires !AttachRecords(inp, st, i, m).completed
    ensures AttachRecords(inp, st, i, n) == AttachRecords(inp, st, i, m)
  {
    if n > m {
      AttachRecordsAfterStop(inp, st, i, m, n - 1);
    }
  }

  lemma {:induction false} AttachRecordsOfStopped(inp: RefreshInput, st: RefreshState, i: int, n: int)
    requires 0 <= i < |inp.selected| && inp.selected[i] in inp.barcodeMap
    requires 0 <= n <= |inp.barcodeMap[inp.selected[i]]|
    requires !st.completed
    ensures AttachRecords(inp, st, i, n) == st
  {
    if n > 0 {
      AttachRecordsOfStopped(inp, st, i, n - 1);
    }
  }

  lemma {:induction false} AttachBarcodesAfterStop(inp: RefreshInput, st: RefreshState, m: int, n: int)
    requires 0 <= m <= n <= |inp.selected|
    requires !AttachBarcodes(inp, st, m).completed
    ensures AttachBarcodes(inp, st, n) == AttachBarcodes(inp, st, m)
  {
    if n > m {
      AttachBarcodesAfterStop(inp, st, m, n - 1);
      var before := AttachBarcodes(inp, st, n - 1);
      if inp.selected[n - 1] in inp.barcodeMap {
        AttachRecordsOfStopped(inp, before, n - 1, |inp.barcodeMap[inp.selected[n - 1]]|);
      }
    }
  }

  // ---------------------------------------------------------------------------
  // Properties of refreshDisplay

  /** `after` is `before` followed by records that all belong to node k. */
  predicate Extends(before: seq<Barcode>, after: seq<Barcode>, k: string)
  {
    before <= after && forall idx :: |before| <= idx < |after| ==> AttachName(after[idx]) == k
  }

  /** From s to t every node keeps its earlier records in order and gains
      only records that belong to it; no node appears or disappears. */
  predicate Grows(s: RefreshState, t: RefreshState)
  {
    && s.attached.Keys == t.attached.Keys
    && (forall k :: k in s.attached ==> Extends(s.attached[k], t.attached[k], k))
  }

  lemma GrowsReflexive(s: RefreshState)
    ensures Grows(s, s)
  {
  }

  lemma ExtendsTransitive(a: seq<Barcode>, b: seq<Barcode>, c: seq<Barcode>, k: string)
    requires Extends(a, b, k) && Extends(b, c, k)
    ensures Extends(a, c, k)
  {
    forall idx | |a| <= idx < |c|
      ensures AttachName(c[idx]) == k
    {
      if idx < |b| {
        assert c[idx] == b[idx];
      }
    }
  }

  lemma GrowsTransitive(r: RefreshState, s: RefreshState, t: RefreshState)
    requires Grows(r, s) && Grows(s, t)
    ensures Grows(r, t)
  {
    forall k | k in r.attached
      ensures Extends(r.attached[k], t.attached[k], k)
    {
      ExtendsTransitive(r.attached[k], s.attached[k], t.attached[k], k);
    }
  }

  lemma AttachRecordGrows(inp: RefreshInput, st: RefreshState, i: int, j: int)
    requires RecordIndex(inp, i, j)
    ensures Grows(st, AttachRecord(inp, st, i, j))
  {
    var t := AttachRecord(inp, st, i, j);
    var rec := inp.barcodeMap[inp.selected[i]][j];
    var name := AttachName(rec);
    if st.completed && name in st.attached {
      assert t.attached[name] == st.attached[name] + [rec];
    }
  }

  lemma {:induction false} AttachRecordsGrows(inp: RefreshInput, st: RefreshState, i: int, n: int)
    requires 0 <= i < |inp.selected| && inp.selected[i] in inp.barcodeMap
    requires 0 <= n <= |inp.barcodeMap[inp.selected[i]]|
    ensures Grows(st, AttachRecords(inp, st, i, n))
  {
    if n == 0 {
      GrowsReflexive(st);
    } else {
      AttachRecordsGrows(inp, st, i, n - 1);
      AttachRecordGrows(inp, AttachRecords(inp, st, i, n - 1), i, n - 1);
      GrowsTransitive(st, AttachRecords(inp, st, i, n - 1), AttachRecords(inp, st, i, n));
    }
  }

  lemma {:induction false} AttachBarcodesGrows(inp: RefreshInput, st: RefreshState, n: int)
    requires 0 <= n <= |inp.selected|
    ensures Grows(st, AttachBarcodes(inp, st, n))
  {
    if n == 0 {
      GrowsReflexive(st);
    } else {
      AttachBarcodesGrows(inp, st, n - 1);
      var before := AttachBarcodes(inp, st, n - 1);
      if inp.selected[n - 1] in inp.barcodeMap {
        AttachRecordsGrows(inp, before, n - 1, |inp.barcodeMap[inp.selected[n - 1]]|);
        GrowsTransitive(st, before, AttachBarcodes(inp, st, n));
      }
    }
  }

  /** A refresh only ever appends: every node keeps the records it had, in
      order, and each record added to a node is one whose contig and strand
      name that node. */
  lemma RefreshGrows(inp: RefreshInput, st: RefreshState)
    ensures Grows(st, Refresh(inp, st))
  {
    AttachBarcodesGrows(inp, st, |inp.selected|);
  }

  /** Every selected barcode has a colour to give (a setting, or a preset at
      its position) among the first n. */
  predicate ColoursAvailable(inp: RefreshInput, n: int)
    requires 0 <= n <= |inp.selected|
  {
    forall i :: 0 <= i < n ==> inp.selected[i] in inp.settingColours || i < |inp.presets|
  }

  lemma {:induction false} AttachRecordsCompletes(inp: RefreshInput, st: RefreshState, i: int, n: int)
    requires 0 <= i < |inp.selected| && inp.selected[i] in inp.barcodeMap
    requires 0 <= n <= |inp.barcodeMap[inp.selected[i]]|
    requires st.completed && ColourFor(inp, i).Some?
    ensures AttachRecords(inp, st, i, n).completed
  {
    if n > 0 {
      AttachRecordsCompletes(inp, st, i, n - 1);
    }
  }

  lemma {:induction false} AttachBarcodesCompletes(inp: RefreshInput, st: RefreshState, n: int)
    requires 0 <= n <= |inp.selected|
    requires st.completed && ColoursAvailable(inp, n)
    ensures AttachBarcodes(inp, st, n).completed
  {
    if n > 0 {
      assert ColoursAvailable(inp, n - 1);
      AttachBarcodesCompletes(inp, st, n - 1);
      if inp.selected[n - 1] in inp.barcodeMap {
        AttachRecordsCompletes(inp, AttachBarcodes(inp, st, n - 1), n - 1, |inp.barcodeMap[inp.selected[n - 1]]|);
      }
    }
  }

  /** A refresh runs to the end when every selected barcode has a setting or
      a preset colour at its position. */
  lemma RefreshCompletes(inp: RefreshInput, st: RefreshState)
    requires st.completed && ColoursAvailable(inp, |inp.selected|)
    ensures Refresh(inp, st).completed
  {
    AttachBarcodesCompletes(inp, st, |inp.selected|);
  }

  // ---------------------------------------------------------------------------
  // What a refresh that runs to the end does, stated without the loops

  /** The records of `recs` whose contig and strand name node k, in order. */
  function Matching(recs: seq<Barcode>, k: string): seq<Barcode>
  {
    if recs == [] then []
    else
      var last := recs[|recs| - 1];
      Matching(recs[..|recs| - 1], k) + (if AttachName(last) == k then [last] else [])
  }

  lemma {:induction false} MatchingAppend(a: seq<Barcode>, b: seq<Barcode>, k: string)
    ensures Matching(a + b, k) == Matching(a, k) + Matching(b, k)
  {
    if b == [] {
      assert a + b == a;
    } else {
      assert (a + b)[..|a + b| - 1] == a + b[..|b| - 1];
      MatchingAppend(a, b[..|b| - 1], k);
    }
  }

  lemma MatchingPrefixStep(recs: seq<Barcode>, n: int, k: string)
    requires 0 < n <= |recs|
    ensures Matching(recs[..n], k)
      == Matching(recs[..n - 1], k) + (if AttachName(recs[n - 1]) == k then [recs[n - 1]] else [])
  {
    assert recs[..n][..n - 1] == recs[..n - 1];
  }

  /** The records of the first n selected barcodes, in selection order and
      then record order; a selected barcode with no records gives none. */
  function SelectedRecords(inp: RefreshInput, n: int): seq<Barcode>
    requires 0 <= n <= |inp.selected|
  {
    if n == 0 then []
    else
      var b := inp.selected[n - 1];
      SelectedRecords(inp, n - 1) + (if b in inp.barcodeMap then inp.barcodeMap[b] else [])
  }

  /** No barcode is selected twice. */
  predicate Distinct(selected: seq<string>)
  {
    forall i, j :: 0 <= i < j < |selected| ==> selected[i] != selected[j]
  }

  /** One record step of a run that is still going: the record is appended
      to its node, if that node exists, and to no other. */
  lemma AttachRecordAppends(inp: RefreshInput, st: RefreshState, i: int, j: int)
    requires RecordIndex(inp, i, j)
    requires AttachRecord(inp, st, i, j).completed
    ensures st.completed
    ensures AttachRecord(inp, st, i, j).attached.Keys == st.attached.Keys
    ensures forall k :: k in st.attached ==>
      var rec := inp.barcodeMap[inp.selected[i]][j];
      AttachRecord(inp, st, i, j).attached[k] == st.attached[k] + (if AttachName(rec) == k then [rec] else [])
  {
  }

  lemma AttachRecordsStep(inp: RefreshInput, st: RefreshState, i: int, n: int)
    requires 0 <= i < |inp.selected| && inp.selected[i] in inp.barcodeMap
    requires 0 < n <= |inp.barcodeMap[inp.selected[i]]|
    requires AttachRecords(inp, st, i, n).completed
    ensures AttachRecords(inp, st, i, n - 1).completed
    ensures AttachRecords(inp, st, i, n).attached.Keys == AttachRecords(inp, st, i, n - 1).attached.Keys
    ensures forall k :: k in AttachRecords(inp, st, i, n - 1).attached ==>
      var rec := inp.barcodeMap[inp.selected[i]][n - 1];
      AttachRecords(inp, st, i, n).attached[k]
        == AttachRecords(inp, st, i, n - 1).attached[k] + (if AttachName(rec) == k then [rec] else [])
  {
    AttachRecordAppends(inp, AttachRecords(inp, st, i, n - 1), i, n - 1);
  }

  lemma {:induction false} AttachRecordsAppends(inp: RefreshInput, st: RefreshState, i: int, n: int)
    requires 0 <= i < |inp.selected| && inp.selected[i] in inp.barcodeMap
    requires 0 <= n <= |inp.barcodeMap[inp.selected[i]]|
    requires AttachRecords(inp, st, i, n).completed
    ensures st.completed
    ensures AttachRecords(inp, st, i, n).attached.Keys == st.attached.Keys
    ensures forall k :: k in st.attached ==>
      AttachRecords(inp, st, i, n).attached[k] == st.attached[k] + Matching(inp.barcodeMap[inp.selected[i]][..n], k)
  {
    var recs := inp.barcodeMap[inp.selected[i]];
    if n == 0 {
      assert recs[..0] == [];
    } else {
      AttachRecordsStep(inp, st, i, n);
      AttachRecordsAppends(inp, st, i, n - 1);
      forall k | k in st.attached
        ensures AttachRecords(inp, st, i, n).attached[k] == st.attached[k] + Matching(recs[..n], k)
      {
        MatchingPrefixStep(recs, n, k);
      }
    }
  }

  lemma {:induction false} AttachRecordsColours(inp: RefreshInput, st: RefreshState, i: int, n: int)
    requires 0 <= i < |inp.selected| && inp.selected[i] in inp.barcodeMap
    requires 0 <= n <= |inp.barcodeMap[inp.selected[i]]|
    requires AttachRecords(inp, st, i, n).completed
    ensures forall j :: 0 <= j < n && AttachName(inp.barcodeMap[inp.selected[i]][j]) in st.attached ==>
      (inp.selected[i], j) in AttachRecords(inp, st, i, n).colours
      && ColourFor(inp, i) == Some(AttachRecords(inp, st, i, n).colours[(inp.selected[i], j)])
    ensures forall key: (string, int) :: key.0 != inp.selected[i] ==>
      && (key in AttachRecords(inp, st, i, n).colours <==> key in st.colours)
      && (key in st.colours ==> AttachRecords(inp, st, i, n).colours[key] == st.colours[key])
  {
    if n > 0 {
      var prev := AttachRecords(inp, st, i, n - 1);
      assert prev.completed;
      AttachRecordsColours(inp, st, i, n - 1);
      AttachRecordsAppends(inp, st, i, n - 1);
    }
  }

  lemma {:induction false} AttachBarcodesAppends(inp: RefreshInput, st: RefreshState, n: int)
    requires 0 <= n <= |inp.selected|
    requires AttachBarcodes(inp, st, n).completed
    ensures st.completed
    ensures AttachBarcodes(inp, st, n).attached.Keys == st.attached.Keys
    ensures forall k :: k in st.attached ==>
      AttachBarcodes(inp, st, n).attached[k] == st.attached[k] + Matching(SelectedRecords(inp, n), k)
  {
    if n > 0 {
      var before := AttachBarcodes(inp, st, n - 1);
      var b := inp.selected[n - 1];
      if b in inp.barcodeMap {
        var recs := inp.barcodeMap[b];
        AttachRecordsAppends(inp, before, n - 1, |recs|);
        AttachBarcodesAppends(inp, st, n - 1);
        assert recs[..|recs|] == recs;
        forall k | k in st.attached
          ensures AttachBarcodes(inp, st, n).attached[k] == st.attached[k] + Matching(SelectedRecords(inp, n), k)
        {
          MatchingAppend(SelectedRecords(inp, n - 1), recs, k);
        }
      } else {
        AttachBarcodesAppends(inp, st, n - 1);
        assert SelectedRecords(inp, n) == SelectedRecords(inp, n - 1);
      }
    }
  }

  lemma {:induction false} AttachBarcodesColours(inp: RefreshInput, st: RefreshState, n: int)
    requires 0 <= n <= |inp.selected| && Distinct(inp.selected)
    requires AttachBarcodes(inp, st, n).completed
    ensures forall i, j ::
      (0 <= i < n && RecordIndex(inp, i, j) && AttachName(inp.barcodeMap[inp.selected[i]][j]) in st.attached) ==>
      (inp.selected[i], j) in AttachBarcodes(inp, st, n).colours
      && ColourFor(inp, i) == Some(AttachBarcodes(inp, st, n).colours[(inp.selected[i], j)])
    ensures forall key: (string, int) :: key.0 !in inp.selected[..n] ==>
      && (key in AttachBarcodes(inp, st, n).colours <==> key in st.colours)
      && (key in st.colours ==> AttachBarcodes(inp, st, n).colours[key] == st.colours[key])
  {
    if n > 0 {
      var before := AttachBarcodes(inp, st, n - 1);
      var b := inp.selected[n - 1];
      if b in inp.barcodeMap {
        AttachRecordsAppends(inp, before, n - 1, |inp.barcodeMap[b]|);
      }
      AttachBarcodesAppends(inp, st, n - 1);
      AttachBarcodesColours(inp, st, n - 1);
      assert inp.selected[..n] == inp.selected[..n - 1] + [b];
      if b in inp.barcodeMap {
        AttachRecordsColours(inp, before, n - 1, |inp.barcodeMap[b]|);
        forall i, j | 0 <= i < n - 1 && RecordIndex(inp, i, j)
          && AttachName(inp.barcodeMap[inp.selected[i]][j]) in st.attached
          ensures (inp.selected[i], j) in AttachBarcodes(inp, st, n).colours
          ensures ColourFor(inp, i) == Some(AttachBarcodes(inp, st, n).colours[(inp.selected[i], j)])
        {
          assert inp.selected[i] != b;
        }
      }
    }
  }

  /** What a refresh that runs to the end promises about the nodes: no node
      appears or disappears, and each keeps its records and then gains
      exactly the records of the selected barcodes whose contig and strand
      name it, in selection order and then record order. */
  lemma RefreshAttachesAll(inp: RefreshInput, st: RefreshState)
    requires Refresh(inp, st).completed
    ensures st.completed
    ensures Refresh(inp, st).attached.Keys == st.attached.Keys
    ensures forall k :: k in st.attached ==>
      Refresh(inp, st).attached[k] == st.attached[k] + Matching(SelectedRecords(inp, |inp.selected|), k)
  {
    AttachBarcodesAppends(inp, st, |inp.selected|);
  }

  /** What it promises about the colours, when no barcode is selected twice:
      every record attached to a node is coloured with its barcode's setting
      colour when the barcode has a setting, and otherwise with the preset
      colour at the barcode's position in the selection; the colours of
      barcodes that are not selected are left alone. */
  lemma RefreshColoursAll(inp: RefreshInput, st: RefreshState)
    requires Refresh(inp, st).completed && Distinct(inp.selected)
    ensures forall i, j :: RecordIndex(inp, i, j) && AttachName(inp.barcodeMap[inp.selected[i]][j]) in st.attached ==>
      var b := inp.selected[i];
      && (b in inp.settingColours || i < |inp.presets|)
      && (b, j) in Refresh(inp, st).colours
      && Refresh(inp, st).colours[(b, j)] == if b in inp.settingColours then inp.settingColours[b] else inp.presets[i]
    ensures forall key: (string, int) :: key.0 !in inp.selected ==>
      && (key in Refresh(inp, st).colours <==> key in st.colours)
      && (key in st.colours ==> Refresh(inp, st).colours[key] == st.colours[key])
  {
    AttachBarcodesColours(inp, st, |inp.selected|);
    assert inp.selected[..|inp.selected|] == inp.selected;
  }

  /** Refreshing is not idempotent: once some selected record names an
      existing node, a second refresh attaches every such record to that
      node again. */
  lemma RefreshNotIdempotent(inp: RefreshInput, st: RefreshState, k: string)
    requires st.completed && ColoursAvailable(inp, |inp.selected|)
    requires k in st.attached && Matching(SelectedRecords(inp, |inp.selected|), k) != []
    ensures var once := Refresh(inp, st);
      var twice := Refresh(inp, once);
      && k in once.attached && k in twice.attached
      && twice.attached[k] == once.attached[k] + Matching(SelectedRecords(inp, |inp.selected|), k)
      && twice != once
  {
    var once := Refresh(inp, st);
    RefreshCompletes(inp, st);
    RefreshAttachesAll(inp, st);
    RefreshCompletes(inp, once);
    RefreshAttachesAll(inp, once);
    assert |Refresh(inp, once).attached[k]| > |once.attached[k]|;
  }

  // ---------------------------------------------------------------------------
  // The manager and refreshDisplay in place

  class BarcodeManager {
    var barcodeSelected: seq<string>
    var barcodeSettings: map<string, BarcodeSetting>
    var barcodeMap: map<string, seq<Barcode>>
    var presetColours: seq<Colour>
    /** The colour each record was last given, by barcode and position among
        the barcode's records. */
    var recordColours: map<(string, int), Colour>

    /** Everything refreshDisplay reads from the manager. */
    ghost function Input(): (inp: RefreshInput)
      reads this`barcodeSelected, this`barcodeMap, this`barcodeSettings, this`presetColours
      reads barcodeSettings.Values
      ensures Supplies(inp)
    {
      RefreshInput(barcodeSelected, barcodeMap, map b | b in barcodeSettings :: barcodeSettings[b].color, presetColours)
    }

    /** The manager holds what inp describes. */
    ghost predicate Supplies(inp: RefreshInput)
      reads this`barcodeSelected, this`barcodeMap, this`barcodeSettings, this`presetColours
      reads barcodeSettings.Values
    {
      && barcodeSelected == inp.selected
      && barcodeMap == inp.barcodeMap
      && presetColours == inp.presets
      && (forall b :: b in barcodeSettings <==> b in inp.settingColours)
      && (forall b :: b in barcodeSettings ==> barcodeSettings[b].color == inp.settingColours[b])
    }
  }

  /** The nodes hold the attached lists `attached` describes. */
  ghost predicate Holds(graph: AssemblyGraph, attached: map<string, seq<Barcode>>)
    reads graph, graph.nodes.Values
  {
    && (forall k :: k in graph.nodes <==> k in attached)
    && (forall k :: k in graph.nodes ==> graph.nodes[k].barcodes == attached[k])
  }

  lemma HoldsAttached(graph: AssemblyGraph, attached: map<string, seq<Barcode>>)
    ensures Holds(graph, attached) <==> graph.Attached() == attached
  {
    if Holds(graph, attached) {
      assert graph.Attached().Keys == attached.Keys;
    }
  }

  /** The graph and the manager are in the state `st` describes, part way
      through a run reading `inp`. */
  ghost predicate InStep(graph: AssemblyGraph, manager: BarcodeManager, inp: RefreshInput, st: RefreshState)
    reads graph, graph.nodes.Values, manager, manager.barcodeSettings.Values
  {
    && graph.NodesDistinct() && manager.Supplies(inp)
    && Holds(graph, st.attached) && manager.recordColours == st.colours
  }

  /** One pass of the inner loop of refreshDisplay: record j of the i-th
      selected barcode. Returns false where presetColours.at(i) would throw,
      after the record has been attached. */
  method AttachOneRecord(graph: AssemblyGraph, manager: BarcodeManager, i: int, j: int,
                         ghost inp: RefreshInput, ghost st: RefreshState)
    returns (ok: bool, ghost st': RefreshState)
    requires InStep(graph, manager, inp, st) && st.completed && RecordIndex(inp, i, j)
    modifies graph.nodes.Values`barcodes, manager`recordColours
    ensures st' == AttachRecord(inp, st, i, j) && ok == st'.completed
    ensures InStep(graph, manager, inp, st')
  {
    var b := manager.barcodeSelected[i];
    var current := manager.barcodeMap[b][j];
    var name := if current.strand == 0 then current.contig + "+" else current.contig + "-";
    assert name == AttachName(current);
    st' := AttachRecord(inp, st, i, j);
    ok := true;
    if name in graph.nodes {
      var colour: Option<Colour> :=
        if b in manager.barcodeSettings then Some(manager.barcodeSettings[b].color)
        else if i < |manager.presetColours| then Some(manager.presetColours[i])
        else None;
      assert colour == ColourFor(inp, i);
      AttachToNode(graph, graph.nodes[name], name, current, st.attached);
      if colour.Some? {
        manager.recordColours := manager.recordColours[(b, j) := colour.value];
      } else {
        // presetColours.at(i) throws: the record stays attached.
        ok := false;
      }
    }
  }

  /** add_barcode on the node called `name`: its list gains the record and no
      other node's list changes. */
  method AttachToNode(graph: AssemblyGraph, node: DeBruijnNode, name: string, rec: Barcode,
                      ghost attached: map<string, seq<Barcode>>)
    requires graph.NodesDistinct() && name in graph.nodes && graph.nodes[name] == node
    requires Holds(graph, attached)
    modifies node`barcodes
    ensures Holds(graph, attached[name := attached[name] + [rec]])
  {
    node.AddBarcode(rec);
    assert forall k :: k in graph.nodes && k != name ==> graph.nodes[k] != node;
  }

  /** The inner loop of refreshDisplay: the records of the i-th selected
      barcode, in order, stopping where presetColours.at(i) would throw. */
  method AttachBarcodeRecords(graph: AssemblyGraph, manager: BarcodeManager, i: int,
                              ghost inp: RefreshInput, ghost stRow: RefreshState)
    returns (completed: bool, ghost st: RefreshState)
    requires InStep(graph, manager, inp, stRow) && stRow.completed
    requires 0 <= i < |inp.selected| && inp.selected[i] in inp.barcodeMap
    modifies graph.nodes.Values`barcodes, manager`recordColours
    ensures st == AttachRecords(inp, stRow, i, |inp.barcodeMap[inp.selected[i]]|) && completed == st.completed
    ensures InStep(graph, manager, inp, st)
  {
    var records := manager.barcodeMap[manager.barcodeSelected[i]];
    st := stRow;
    completed := true;
    var j := 0;
    while j < |records| && completed
      invariant 0 <= j <= |records|
      invariant st == AttachRecords(inp, stRow, i, j) && completed == st.completed
      invariant InStep(graph, manager, inp, st)
    {
      completed, st := AttachOneRecord(graph, manager, i, j, inp, st);
      j := j + 1;
    }
    if !completed {
      // presetColours.at(i) threw: the remaining records are not reached.
      AttachRecordsAfterStop(inp, stRow, i, j, |records|);
    }
  }

  /** refreshDisplay: the state afterwards is the one the value-level rules
      give; no node field but the barcode list changes. */
  method RefreshDisplay(graph: AssemblyGraph, manager: BarcodeManager) returns (completed: bool)
    requires graph.NodesDistinct()
    modifies graph.nodes.Values`barcodes, manager`recordColours
    ensures var result := Refresh(old(manager.Input()), RefreshState(old(graph.Attached()), old(manager.recordColours), true));
      graph.Attached() == result.attached && manager.recordColours == result.colours && completed == result.completed
  {
    ghost var inp := manager.Input();
    ghost var st0 := RefreshState(graph.Attached(), manager.recordColours, true);
    HoldsAttached(graph, st0.attached);
    ghost var st := st0;
    completed := true;
    var i := 0;
    while i < |manager.barcodeSelected| && completed
      invariant 0 <= i <= |inp.selected| == |manager.barcodeSelected|
      invariant st == AttachBarcodes(inp, st0, i) && completed == st.completed
      invariant InStep(graph, manager, inp, st)
    {
      if manager.barcodeSelected[i] in manager.barcodeMap {
        completed, st := AttachBarcodeRecords(graph, manager, i, inp, st);
      }
      i := i + 1;
    }
    if !completed {
      AttachBarcodesAfterStop(inp, st0, i, |inp.selected|);
    }
    HoldsAttached(graph, st.attached);
  }
}
