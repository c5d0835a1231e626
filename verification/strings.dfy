/** The QString operations the modelled code relies on: `chop`, joining with a
    separator, `operator<`, `toLongLong` and `simplified`. */
module Strings {
  import opened Wrappers

  /** QString::chop(1): drops the last character; an empty string stays empty.
      A character outside the Basic Multilingual Plane counts as one here,
      where a QString holds it as two UTF-16 code units. */
  function ChopLast(s: string): (r: string)
    ensures s != [] ==> |r| == |s| - 1 && s == r + [s[|s| - 1]]
    ensures s == [] ==> r == []
  {
    if s == [] then s else s[..|s| - 1]
  }

  /** The text built by appending each item and, between items, the separator. */
  function Join(items: seq<string>, sep: string): string
  {
    if |items| == 0 then ""
    else if |items| == 1 then items[0]
    else items[0] + sep + Join(items[1..], sep)
  }

  /** Appending one more item to a joined text: the step a loop that builds
      the text item by item takes. */
  lemma {:induction false} JoinSnoc(items: seq<string>, x: string, sep: string)
    ensures Join(items + [x], sep) == if items == [] then x else Join(items, sep) + sep + x
  {
    if |items| >= 2 {
      assert (items + [x])[1..] == items[1..] + [x];
      JoinSnoc(items[1..], x, sep);
    } else if |items| == 1 {
      assert (items + [x])[1..] == [x];
    }
  }

  /** The text a loop has built after the first i items: those items joined,
      followed by the separator when more items are to come. */
  predicate JoinedUpTo(text: string, items: seq<string>, i: nat, sep: string)
  {
    i <= |items| && text == Join(items[..i], sep) + (if 0 < i < |items| then sep else "")
  }

  /** Appending the next item, and the separator unless it is the last,
      extends the joined prefix by one item; once every item is in, the text
      is the whole join. */
  lemma JoinedUpToStep(text: string, items: seq<string>, i: nat, sep: string)
    requires i < |items| && JoinedUpTo(text, items, i, sep)
    ensures JoinedUpTo(text + items[i] + (if i != |items| - 1 then sep else ""), items, i + 1, sep)
  {
    JoinSnoc(items[..i], items[i], sep);
    assert items[..i + 1] == items[..i] + [items[i]];
  }

  lemma JoinedUpToAll(text: string, items: seq<string>, sep: string)
    requires JoinedUpTo(text, items, |items|, sep)
    ensures text == Join(items, sep)
  {
    assert items[..|items|] == items;
  }

  function SumLengths(items: seq<string>): nat
  {
    if items == [] then 0 else |items[0]| + SumLengths(items[1..])
  }

  /** The joined text holds every character of every item plus one separator
      between each two neighbours. */
  lemma {:induction false} JoinLength(items: seq<string>, sep: string)
    ensures |Join(items, sep)| == SumLengths(items) + (if items == [] then 0 else (|items| - 1) * |sep|)
  {
    if |items| >= 2 {
      JoinLength(items[1..], sep);
    } else if |items| == 1 {
      assert items[1..] == [];
    }
  }

  // ---------------------------------------------------------------------------
  // QString::operator<: lexicographic, a proper prefix being less. A Dafny
  // string is a sequence of code points while a QString holds UTF-16 code
  // units; the two orders agree on characters of the Basic Multilingual Plane.

  predicate StrLess(a: string, b: string)
  {
    if b == [] then false
    else if a == [] then true
    else if a[0] != b[0] then a[0] < b[0]
    else StrLess(a[1..], b[1..])
  }

  lemma {:induction false} StrLessIrreflexive(a: string)
    ensures !StrLess(a, a)
  {
    if a != [] {
      StrLessIrreflexive(a[1..]);
    }
  }

  lemma {:induction false} StrLessTransitive(a: string, b: string, c: string)
    requires StrLess(a, b) && StrLess(b, c)
    ensures StrLess(a, c)
  {
    if a != [] && a[0] == b[0] && b[0] == c[0] {
      StrLessTransitive(a[1..], b[1..], c[1..]);
    }
  }

  /** Any two different strings are ordered one way or the other. */
  lemma {:induction false} StrLessTotal(a: string, b: string)
    ensures a == b || StrLess(a, b) || StrLess(b, a)
  {
    if a != [] && b != [] && a[0] == b[0] {
      StrLessTotal(a[1..], b[1..]);
      if a[1..] == b[1..] {
        assert a == [a[0]] + a[1..] && b == [b[0]] + b[1..];
      }
    }
  }

  // ---------------------------------------------------------------------------
  // QString::toLongLong(&ok) in base 10.

  const MinLongLong: int := -0x8000_0000_0000_0000
  const MaxLongLong: int := 0x7FFF_FFFF_FFFF_FFFF

  predicate IsDigit(c: char)
  {
    '0' <= c <= '9'
  }

  predicate AllDigits(s: string)
  {
    forall i :: 0 <= i < |s| ==> IsDigit(s[i])
  }

  function DigitsValue(s: string): nat
    requires AllDigits(s)
  {
    if s == [] then 0 else 10 * DigitsValue(s[..|s| - 1]) + (s[|s| - 1] as int - '0' as int)
  }

  /** `Some(n)` when the whole text is an optional sign followed by one or
      more decimal digits whose value n fits in a 64-bit signed integer; `None`
      when conversion fails (`ok` false). */
  function ParseLongLong(s: string): (r: Option<int>)
    ensures r.Some? ==> MinLongLong <= r.value <= MaxLongLong
    ensures r.Some? ==> exists k :: 0 <= k < |s| && IsDigit(s[k])
  {
    var negative := s != [] && s[0] == '-';
    var digits := if s != [] && (s[0] == '-' || s[0] == '+') then s[1..] else s;
    if digits == [] || !AllDigits(digits) then None
    else
      var n: int := if negative then 0 - (DigitsValue(digits) as int) else DigitsValue(digits) as int;
      if MinLongLong <= n <= MaxLongLong then Some(n) else None
  }

  /** Decimal rendering of a natural number, a reference against which the
      parser is checked. */
  function DecimalDigits(n: nat): (r: string)
    ensures r != [] && AllDigits(r)
  {
    if n < 10 then [('0' as int + n) as char]
    else DecimalDigits(n / 10) + [('0' as int + n % 10) as char]
  }

  lemma {:induction false} DigitsValueOfDecimal(n: nat)
    ensures DigitsValue(DecimalDigits(n)) == n
  {
    var d := DecimalDigits(n);
    if n >= 10 {
      DigitsValueOfDecimal(n / 10);
      assert d[..|d| - 1] == DecimalDigits(n / 10);
    }
  }

  /** Every 64-bit value written in decimal converts back to itself. */
  lemma ParseDecimalRoundTrip(n: int)
    requires MinLongLong <= n <= MaxLongLong
    ensures ParseLongLong(if n < 0 then "-" + DecimalDigits(-n) else DecimalDigits(n)) == Some(n)
  {
    var d := DecimalDigits(if n < 0 then -n else n);
    DigitsValueOfDecimal(if n < 0 then -n else n);
    assert IsDigit(d[0]);
    if n < 0 {
      var s := "-" + d;
      assert s[0] == '-' && s[1..] == d;
    }
  }

  // ---------------------------------------------------------------------------
  // QString::simplified: trims whitespace and turns each internal run of
  // whitespace into one space.

  /** The whitespace characters recognised: tab, line feed, vertical tab, form
      feed, carriage return, space, next line and no-break space. */
  predicate IsSpace(c: char)
  {
    var u := c as int;
    (9 <= u <= 13) || u == 32 || u == 0x85 || u == 0xA0
  }

  predicate NoSpace(s: string)
  {
    forall i :: 0 <= i < |s| ==> !IsSpace(s[i])
  }

  /** The longest prefix of `s` that contains no whitespace. */
  function WordPrefix(s: string): (w: string)
    ensures |w| <= |s| && w == s[..|w|] && NoSpace(w)
    ensures |w| < |s| ==> IsSpace(s[|w|])
  {
    if s == [] || IsSpace(s[0]) then [] else [s[0]] + WordPrefix(s[1..])
  }

  /** The maximal whitespace-free runs of `s`, in order. */
  function Words(s: string): seq<string>
    decreases |s|
  {
    if s == [] then []
    else if IsSpace(s[0]) then Words(s[1..])
    else
      var w := WordPrefix(s);
      [w] + Words(s[|w|..])
  }

  function Simplified(s: string): string
  {
    Join(Words(s), " ")
  }

  predicate IsWord(w: string)
  {
    w != [] && NoSpace(w)
  }

  lemma {:induction false} WordsAreWords(s: string)
    ensures forall k :: 0 <= k < |Words(s)| ==> IsWord(Words(s)[k])
    decreases |s|
  {
    if s == [] {
    } else if IsSpace(s[0]) {
      WordsAreWords(s[1..]);
    } else {
      var w := WordPrefix(s);
      WordsAreWords(s[|w|..]);
    }
  }

  lemma {:induction false} WordPrefixOfWord(w: string, rest: string)
    requires NoSpace(w)
    requires rest == [] || IsSpace(rest[0])
    ensures WordPrefix(w + rest) == w
  {
    if w != [] {
      assert (w + rest)[1..] == w[1..] + rest;
      WordPrefixOfWord(w[1..], rest);
    }
  }

  /** Splitting a space-joined list of words gives the words back. */
  lemma {:induction false} WordsOfJoin(ws: seq<string>)
    requires forall k :: 0 <= k < |ws| ==> IsWord(ws[k])
    ensures Words(Join(ws, " ")) == ws
  {
    if |ws| == 1 {
      WordPrefixOfWord(ws[0], []);
      assert ws[0] + [] == ws[0];
      assert WordPrefix(ws[0]) == ws[0];
      assert ws[0][|ws[0]|..] == [];
      assert Words(ws[0]) == [ws[0]] + Words([]);
    } else if |ws| >= 2 {
      var rest := " " + Join(ws[1..], " ");
      var s := ws[0] + rest;
      assert Join(ws, " ") == s;
      WordPrefixOfWord(ws[0], rest);
      assert s[|ws[0]|..] == rest;
      assert rest[1..] == Join(ws[1..], " ");
      WordsOfJoin(ws[1..]);
      assert ws == [ws[0]] + ws[1..];
    }
  }

  /** Simplifying twice is the same as simplifying once. */
  lemma SimplifiedIdempotent(s: string)
    ensures Simplified(Simplified(s)) == Simplified(s)
  {
    WordsAreWords(s);
    WordsOfJoin(Words(s));
  }

  /** A simplified text neither starts nor ends with whitespace, and its only
      whitespace is single spaces between words. */
  lemma {:induction false} JoinedWordsShape(ws: seq<string>)
    requires forall k :: 0 <= k < |ws| ==> IsWord(ws[k])
    ensures var t := Join(ws, " ");
      && (t != [] ==> !IsSpace(t[0]) && !IsSpace(t[|t| - 1]))
      && (forall i :: 0 <= i < |t| && IsSpace(t[i]) ==> t[i] == ' ')
      && (forall i :: 0 <= i < |t| - 1 && IsSpace(t[i]) ==> !IsSpace(t[i + 1]))
  {
    if |ws| >= 2 {
      JoinedWordsShape(ws[1..]);
      var r := Join(ws[1..], " ");
      var t := ws[0] + " " + r;
      assert Join(ws, " ") == t;
      assert r != [] by { JoinLength(ws[1..], " "); assert |ws[1]| > 0; SumPositive(ws[1..]); }
      forall i | 0 <= i < |t| && IsSpace(t[i])
        ensures t[i] == ' '
      {
        if i > |ws[0]| { assert t[i] == r[i - |ws[0]| - 1]; }
      }
      forall i | 0 <= i < |t| - 1 && IsSpace(t[i])
        ensures !IsSpace(t[i + 1])
      {
        if i > |ws[0]| { assert t[i] == r[i - |ws[0]| - 1] && t[i + 1] == r[i - |ws[0]|]; }
        else if i == |ws[0]| { assert t[i + 1] == r[0]; }
      }
    }
  }

  lemma {:induction false} SumPositive(ws: seq<string>)
    requires ws != [] && |ws[0]| > 0
    ensures SumLengths(ws) > 0
  {
  }

  lemma SimplifiedShape(s: string)
    ensures var t := Simplified(s);
      && (t != [] ==> !IsSpace(t[0]) && !IsSpace(t[|t| - 1]))
      && (forall i :: 0 <= i < |t| && IsSpace(t[i]) ==> t[i] == ' ')
      && (forall i :: 0 <= i < |t| - 1 && IsSpace(t[i]) ==> !IsSpace(t[i + 1]))
  {
    WordsAreWords(s);
    JoinedWordsShape(Words(s));
  }
}
