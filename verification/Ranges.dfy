// Range headers (section 2.1 of RFC 7233): printed by a client, parsed by the server, and resolved
// against a body.

module Ranges {
  import opened Text
  import opened Splitting

  const SIZE_VALUES: int := 0x1_0000_0000_0000_0000

  type Ssize = n: int | -SSIZE_MAX - 1 <= n <= SSIZE_MAX

  // A bound of -1 is absent: (-1, k) asks for the last k bytes, (k, -1) for all from k on.
  datatype Range = Range(first: Ssize, last: Ssize)

  // ------------------------------------------------------------------------------------------
  // Printing

  function Decimal(n: nat): (r: string)
    ensures r != ""
  {
    if n < 10 then [('0' as int + n) as char] else Decimal(n / 10) + [('0' as int + n % 10) as char]
  }

  function ToString(n: int): string {
    if n < 0 then "-" + Decimal(-n) else Decimal(n)
  }

  function Bound(n: int): string { if n == -1 then "" else ToString(n) }

  function RangeText(r: Range): string {
    Bound(r.first) + "-" + Bound(r.last)
  }

  function PrintFrom(ranges: seq<Range>, first: bool): string {
    if ranges == [] then ""
    else (if first then "" else ", ") + RangeText(ranges[0]) + PrintFrom(ranges[1..], false)
  }

  function PrintRanges(ranges: seq<Range>): string {
    "bytes=" + PrintFrom(ranges, true)
  }

  method MakeRangeHeader(ranges: seq<Range>) returns (field: string)
    ensures field == PrintRanges(ranges)
  {
    field := "bytes=";
    for i := 0 to |ranges|
      invariant field + PrintFrom(ranges[i..], i == 0) == PrintRanges(ranges)
    {
      ghost var before, rest := field, PrintFrom(ranges[i + 1..], false);
      assert ranges[i..][0] == ranges[i] && ranges[i..][1..] == ranges[i + 1..];
      var r := ranges[i];
      var separator := if i != 0 then ", " else "";
      field := field + separator;
      field := field + Bound(r.first);
      field := field + "-";
      field := field + Bound(r.last);
      Regroup(before, separator, Bound(r.first), Bound(r.last), rest);
    }
  }

  lemma Regroup(a: string, b: string, c: string, d: string, e: string)
    ensures a + b + c + "-" + d + e == a + (b + (c + "-" + d) + e)
  {
    assert b + (c + "-" + d) + e == b + (c + "-" + d + e);
    assert a + b + c + "-" + d + e == a + b + (c + "-" + d + e);
  }

  // ------------------------------------------------------------------------------------------
  // Parsing

  function DigitsEnd(s: string, from: nat): (to: nat)
    requires from <= |s|
    ensures from <= to <= |s| && forall i | from <= i < to :: IsDigit(s[i])
    ensures to < |s| ==> !IsDigit(s[to])
    decreases |s| - from
  {
    if from < |s| && IsDigit(s[from]) then DigitsEnd(s, from + 1) else from
  }

  // \d*-\d* from index i: where it ends, -1 when there is no match.
  function MatchSpec(s: string, i: nat): (end: int)
    requires i <= |s|
    ensures end == -1 || i < end <= |s|
  {
    var j := DigitsEnd(s, i);
    if j < |s| && s[j] == '-' then DigitsEnd(s, j + 1) else -1
  }

  // \d*-\d*(?:,\s*\d*-\d*)* from index i to the end.
  predicate MatchSpecs(s: string, i: nat)
    requires i <= |s|
    decreases |s| - i
  {
    var j := MatchSpec(s, i);
    j >= 0 && (j == |s| || (s[j] == ',' && MatchSpecs(s, SpacesEnd(s, j + 1))))
  }

  predicate MatchHeader(s: string) {
    |s| >= 6 && s[..6] == "bytes=" && MatchSpecs(s, 6)
  }

  function DigitValue(c: char): (v: int)
    ensures IsDigit(c) ==> 0 <= v < 10
  {
    c as int - '0' as int
  }

  // The value of s[from..to] in base 10.
  function DecimalValue(s: string, from: nat, to: nat): (v: int)
    requires from <= to <= |s| && forall i | from <= i < to :: IsDigit(s[i])
    ensures v >= 0
  {
    if from == to then 0 else 10 * DecimalValue(s, from, to - 1) + DigitValue(s[to - 1])
  }

  // stoll of a run of digits throws when the value does not fit; no digits leave the bound absent.
  datatype Spec = NoMatch | OutOfRange | Spec(range: Range)

  // \s*(\d*)-(\d*) over the whole of t.
  function ReadSpec(t: string): Spec {
    var i := SpacesEnd(t, 0);
    var j := DigitsEnd(t, i);
    if j == |t| || t[j] != '-' || DigitsEnd(t, j + 1) < |t| then NoMatch
    else
      var first: int := if i == j then -1 else DecimalValue(t, i, j);
      var last: int := if j + 1 == |t| then -1 else DecimalValue(t, j + 1, |t|);
      if first > SSIZE_MAX || last > SSIZE_MAX then OutOfRange else Spec(Range(first, last))
  }

  predicate Ordered(r: Range) {
    r.first != -1 && r.last != -1 ==> r.first <= r.last
  }

  datatype Parsed = Parsed(ok: bool, ranges: seq<Range>)

  // The ranges before a bad one stay in the list.
  function ReadSpecs(texts: seq<string>, ranges: seq<Range>): Parsed {
    if texts == [] then Parsed(true, ranges)
    else match ReadSpec(texts[0])
      case NoMatch => ReadSpecs(texts[1..], ranges)
      case OutOfRange => Parsed(false, ranges)
      case Spec(r) => if Ordered(r) then ReadSpecs(texts[1..], ranges + [r]) else Parsed(false, ranges)
  }

  function ParseHeader(s: string, ranges: seq<Range>): Parsed {
    if MatchHeader(s) then ReadSpecs(Pieces(s[6..], ',', 0, 0), ranges) else Parsed(false, ranges)
  }

  method ParseRangeHeader(s: string, ranges0: seq<Range>) returns (ok: bool, ranges: seq<Range>)
    ensures Parsed(ok, ranges) == ParseHeader(s, ranges0)
  {
    hide ReadSpec, Pieces;
    ranges := ranges0;
    if !MatchHeader(s) { return false, ranges; }
    var texts := Split(s[6..], ',');
    ok := true;
    for i := 0 to |texts|
      invariant if ok then ReadSpecs(texts[i..], ranges) == ParseHeader(s, ranges0)
                else Parsed(false, ranges) == ParseHeader(s, ranges0)
    {
      assert texts[i..][0] == texts[i] && texts[i..][1..] == texts[i + 1..];
      if ok {
        match ReadSpec(texts[i])
        case NoMatch =>
        case OutOfRange => return false, ranges;
        case Spec(r) =>
          if Ordered(r) { ranges := ranges + [r]; } else { ok := false; }
      }
    }
  }

  // ------------------------------------------------------------------------------------------
  // The round trip

  lemma {:induction false} DecimalDigits(n: nat)
    ensures var d := Decimal(n);
      (forall i | 0 <= i < |d| :: IsDigit(d[i])) && DecimalValue(d, 0, |d|) == n
  {
    if n < 10 {
      assert DecimalValue(Decimal(n), 0, 0) == 0;
    } else {
      DecimalDigits(n / 10);
      SameDigits(Decimal(n / 10), Decimal(n), 0, |Decimal(n / 10)|);
    }
  }

  // The value does not depend on where in a text the digits stand.
  lemma {:induction false} SameDigits(a: string, b: string, at: nat, to: nat)
    requires to <= |a| && at + to <= |b| && forall i | 0 <= i < to :: a[i] == b[at + i] && IsDigit(a[i])
    requires forall i | at <= i < at + to :: IsDigit(b[i])
    ensures DecimalValue(b, at, at + to) == DecimalValue(a, 0, to)
  {
    if to > 0 { SameDigits(a, b, at, to - 1); }
  }

  lemma {:induction false} DigitsEndIs(s: string, from: nat, to: nat)
    requires from <= to <= |s| && (forall i | from <= i < to :: IsDigit(s[i])) && (to < |s| ==> !IsDigit(s[to]))
    ensures DigitsEnd(s, from) == to
    decreases |s| - from
  {
    if from < to { DigitsEndIs(s, from + 1, to); }
  }

  // A printed bound in its place: digits and nothing else, with its value.
  lemma BoundAt(s: string, at: nat, n: int)
    requires n >= -1
    requires var e := at + |Bound(n)|; e <= |s| && s[at..e] == Bound(n) && (e < |s| ==> !IsDigit(s[e]))
    ensures var e := at + |Bound(n)|;
      && DigitsEnd(s, at) == e
      && (n == -1 <==> e == at)
      && (n >= 0 ==> DecimalValue(s, at, e) == n)
  {
    var d := Bound(n);
    if n >= 0 {
      DecimalDigits(n);
      forall i | 0 <= i < |d| ensures s[at + i] == d[i] { assert s[at..at + |d|][i] == d[i]; }
      forall i | at <= i < at + |d| ensures IsDigit(s[i]) { assert s[i] == d[i - at]; }
      SameDigits(d, s, at, |d|);
    }
    DigitsEndIs(s, at, at + |d|);
  }

  predicate InRange(r: Range) { r.first >= -1 && r.last >= -1 }

  lemma ReadSpecOfText(r: Range)
    requires InRange(r)
    ensures ReadSpec(RangeText(r)) == Spec(r)
  {
    hide Bound;
    var t, a, b := RangeText(r), Bound(r.first), Bound(r.last);
    assert t[0..|a|] == a && t[|a|] == '-' && t[|a| + 1..|t|] == b;
    BoundAt(t, 0, r.first);
    BoundAt(t, |a| + 1, r.last);
    assert SpacesEnd(t, 0) == 0 by {
      if |a| > 0 { assert IsDigit(t[0]); }
    }
  }

  // The list as split hands it on.
  function Texts(ranges: seq<Range>): seq<string> {
    if ranges == [] then [] else [RangeText(ranges[0])] + Texts(ranges[1..])
  }

  predicate AllOrdered(ranges: seq<Range>) { forall i | 0 <= i < |ranges| :: Ordered(ranges[i]) }

  predicate AllInRange(ranges: seq<Range>) { forall i | 0 <= i < |ranges| :: InRange(ranges[i]) }

  lemma {:induction false} ReadSpecsOfTexts(ranges: seq<Range>, before: seq<Range>)
    requires AllInRange(ranges)
    ensures var p := ReadSpecs(Texts(ranges), before);
      (p.ok <==> AllOrdered(ranges)) && (p.ok ==> p.ranges == before + ranges)
    decreases |ranges|
  {
    hide ReadSpec, RangeText;
    if ranges != [] {
      var r, rest := ranges[0], ranges[1..];
      assert InRange(r) && AllInRange(rest);
      ReadSpecOfText(r);
      ReadSpecsOfTexts(rest, before + [r]);
      assert Texts(ranges)[1..] == Texts(rest);
      assert before + [r] + rest == before + ranges;
      assert AllOrdered(ranges) <==> Ordered(r) && AllOrdered(rest) by {
        assert ranges == [r] + rest;
      }
    }
  }

  // A printed list of more than one range.
  lemma PrintedTail(ranges: seq<Range>)
    requires |ranges| >= 2
    ensures PrintFrom(ranges, true) == RangeText(ranges[0]) + ", " + PrintFrom(ranges[1..], true)
  {
    hide RangeText, PrintFrom;
    PrintedFirst(ranges);
    PrintedSeparator(ranges[1..]);
    Assoc(RangeText(ranges[0]), ", ", PrintFrom(ranges[1..], true));
  }

  lemma PrintedFirst(ranges: seq<Range>)
    requires ranges != []
    ensures PrintFrom(ranges, true) == RangeText(ranges[0]) + PrintFrom(ranges[1..], false)
  {
    assert "" + RangeText(ranges[0]) == RangeText(ranges[0]);
  }

  lemma PrintedSeparator(ranges: seq<Range>)
    requires ranges != []
    ensures PrintFrom(ranges, false) == ", " + PrintFrom(ranges, true)
  {
    hide RangeText;
    Assoc(", ", RangeText(ranges[0]), PrintFrom(ranges[1..], false));
    assert "" + RangeText(ranges[0]) == RangeText(ranges[0]);
  }

  lemma Assoc(a: string, b: string, c: string)
    ensures a + b + c == a + (b + c)
  {
  }

  lemma PrintedOne(ranges: seq<Range>)
    requires |ranges| == 1
    ensures PrintFrom(ranges, true) == RangeText(ranges[0])
  {
  }

  lemma RangeTextIsSolid(r: Range)
    ensures Solid(RangeText(r), ',')
  {
    BoundChars(r.first);
    BoundChars(r.last);
  }

  lemma BoundChars(n: int)
    ensures forall i | 0 <= i < |Bound(n)| :: IsDigit(Bound(n)[i]) || Bound(n)[i] == '-'
  {
    if n < -1 { DecimalDigits(-n); } else if n >= 0 { DecimalDigits(n); }
  }

  lemma PieceAfterGap(s: string, beg: nat, from: nat, end: nat)
    requires beg <= from <= end <= |s| && Solid(s[from..end], ',')
    requires from == beg || (from == beg + 1 && s[beg] == ' ')
    ensures Piece(s, beg, end) == [s[from..end]]
    ensures Pieces(s, ',', beg, beg) == Pieces(s, ',', beg, end)
  {
    SolidPiece(s, ',', from, end);
    forall k | beg <= k < end ensures s[k] != ',' {
      if k >= from { assert s[k] == s[from..end][k - from]; }
    }
    ScanSolid(s, ',', beg, beg, end);
  }

  lemma {:induction false} PrintedPieces(pre: string, gap: string, ranges: seq<Range>)
    requires ranges != [] && (gap == "" || gap == " ")
    ensures Pieces(pre + gap + PrintFrom(ranges, true), ',', |pre|, |pre|) == Texts(ranges)
    decreases |ranges|
  {
    hide RangeText, Piece, PrintFrom, Solid;
    var t := RangeText(ranges[0]);
    RangeTextIsSolid(ranges[0]);
    var s := pre + gap + PrintFrom(ranges, true);
    var from := |pre + gap|;
    var end := from + |t|;
    if |ranges| == 1 {
      PrintedOne(ranges);
      assert s[from..end] == t;
      PieceAfterGap(s, |pre|, from, end);
      assert Texts(ranges[1..]) == [];
    } else {
      PrintedTail(ranges);
      var more := PrintFrom(ranges[1..], true);
      Regroup2(pre, gap, t, more);
      assert s[from..end] == t && s[end] == ',';
      PieceAfterGap(s, |pre|, from, end);
      PrintedPieces(pre + gap + t + ",", " ", ranges[1..]);
      hide Texts;
      assert Pieces(s, ',', |pre|, end) == [t] + Pieces(s, ',', end + 1, end + 1);
      TextsOfMore(ranges);
    }
  }

  lemma TextsOfMore(ranges: seq<Range>)
    requires ranges != []
    ensures Texts(ranges) == [RangeText(ranges[0])] + Texts(ranges[1..])
  {
  }

  lemma Regroup2(pre: string, gap: string, t: string, more: string)
    ensures pre + gap + (t + ", " + more) == pre + gap + t + "," + " " + more
  {
    assert t + ", " + more == t + "," + " " + more;
    assert pre + gap + (t + "," + " " + more) == pre + gap + t + "," + " " + more;
  }

  lemma Slices(s: string, at: nat, end: nat, a: string, b: string, c: string)
    requires at <= end <= |s| && s[at..end] == a + b + c
    ensures end == at + |a| + |b| + |c|
    ensures s[at..at + |a|] == a && s[at + |a|..at + |a| + |b|] == b && s[at + |a| + |b|..end] == c
  {
    var w := a + b + c;
    assert w[..|a|] == a && w[|a|..|a| + |b|] == b && w[|a| + |b|..] == c;
    SliceOfSlice(s, at, end, 0, |a|);
    SliceOfSlice(s, at, end, |a|, |a| + |b|);
    SliceOfSlice(s, at, end, |a| + |b|, |w|);
    assert w[|a| + |b|..|w|] == c;
  }

  // A printed range is matched to its end exactly when its bounds are digits or absent; otherwise a
  // second minus sign stands where a comma or the end is due.
  lemma MatchText(s: string, at: nat, r: Range)
    requires var e := at + |RangeText(r)|; e <= |s| && s[at..e] == RangeText(r) && (e < |s| ==> s[e] == ',')
    ensures var j := MatchSpec(s, at);
      if InRange(r) then j == at + |RangeText(r)| else at < j < |s| && s[j] == '-'
  {
    hide Bound;
    var e := at + |RangeText(r)|;
    Slices(s, at, e, Bound(r.first), "-", Bound(r.last));
    var mid := at + |Bound(r.first)|;
    assert s[mid] == s[mid..mid + 1][0];
    BoundMatched(s, at, mid, r.first);
    BoundMatched(s, mid + 1, e, r.last);
  }

  // Digits run from a bound's start to its end, or stop at its minus sign.
  lemma BoundMatched(s: string, at: nat, end: nat, n: int)
    requires at <= end <= |s| && s[at..end] == Bound(n) && (end < |s| ==> !IsDigit(s[end]))
    ensures n >= -1 ==> DigitsEnd(s, at) == end
    ensures n < -1 ==> at < end && s[at] == '-' && DigitsEnd(s, at) == at && DigitsEnd(s, at + 1) == end
  {
    if n < -1 { NegativeAt(s, at, n); } else { BoundAt(s, at, n); }
  }

  lemma NegativeAt(s: string, at: nat, n: int)
    requires n < -1
    requires var e := at + |Bound(n)|; e <= |s| && s[at..e] == Bound(n) && (e < |s| ==> !IsDigit(s[e]))
    ensures at < |s| && s[at] == '-' && DigitsEnd(s, at) == at && DigitsEnd(s, at + 1) == at + |Bound(n)|
  {
    var d := Decimal(-n);
    DecimalDigits(-n);
    assert s[at] == s[at..at + |Bound(n)|][0];
    forall i | at + 1 <= i < at + 1 + |d| ensures IsDigit(s[i]) {
      assert s[i] == s[at..at + |Bound(n)|][i - at] == d[i - at - 1];
    }
    DigitsEndIs(s, at + 1, at + 1 + |d|);
  }

  // One of several: matched when its bounds are, and then the next one is due past the blank.
  lemma MatchFirst(s: string, at: nat, r: Range, more: seq<Range>)
    requires more != [] && at <= |s| && s[at..] == RangeText(r) + ", " + PrintFrom(more, true)
    ensures var next := at + |RangeText(r)| + 2;
      next <= |s| && (MatchSpecs(s, at) <==> InRange(r) && MatchSpecs(s, next))
  {
    hide RangeText, PrintFrom, MatchSpec;
    var t := RangeText(r);
    var end := at + |t|;
    Slices(s, at, |s|, t, ", ", PrintFrom(more, true));
    assert s[end] == s[end..end + 2][0] && s[end + 1] == s[end..end + 2][1];
    MatchText(s, at, r);
    NoSpaceAhead(s, end + 2, more);
    assert SpacesEnd(s, end + 1) == SpacesEnd(s, end + 2);
  }

  lemma {:induction false} MatchPrinted(s: string, at: nat, ranges: seq<Range>)
    requires ranges != [] && at <= |s| && s[at..] == PrintFrom(ranges, true)
    ensures MatchSpecs(s, at) <==> AllInRange(ranges)
    decreases |ranges|
  {
    hide RangeText, PrintFrom, MatchSpec, MatchSpecs;
    var t := RangeText(ranges[0]);
    if |ranges| == 1 {
      PrintedOne(ranges);
      assert s[at..at + |t|] == t;
      MatchText(s, at, ranges[0]);
      MatchLast(s, at);
    } else {
      var more := PrintFrom(ranges[1..], true);
      PrintedTail(ranges);
      MatchFirst(s, at, ranges[0], ranges[1..]);
      assert s[at..][|t| + 2..] == more;
      MatchPrinted(s, at + |t| + 2, ranges[1..]);
      assert AllInRange(ranges) <==> InRange(ranges[0]) && AllInRange(ranges[1..]) by {
        assert ranges == [ranges[0]] + ranges[1..];
      }
    }
  }

  lemma MatchLast(s: string, at: nat)
    requires at <= |s|
    ensures MatchSpec(s, at) == |s| ==> MatchSpecs(s, at)
    ensures var j := MatchSpec(s, at); 0 <= j < |s| && s[j] == '-' ==> !MatchSpecs(s, at)
  {
    hide MatchSpec;
  }

  lemma NoSpaceAhead(s: string, at: nat, ranges: seq<Range>)
    requires ranges != [] && at <= |s| && s[at..] == PrintFrom(ranges, true)
    ensures SpacesEnd(s, at) == at
  {
    RangeTextIsSolid(ranges[0]);
    BoundChars(ranges[0].first);
    assert s[at] == s[at..][0] == RangeText(ranges[0])[0];
  }

  // Over every list of pairs of ssize_t: the printed header is accepted exactly when the list is not
  // empty, no bound is below -1 and no two bounds are out of order; then the list comes back.
  lemma RangeHeaderRoundTrip(ranges: seq<Range>)
    ensures var p := ParseHeader(PrintRanges(ranges), []);
      && (p.ok <==> ranges != [] && AllInRange(ranges) && AllOrdered(ranges))
      && (p.ok ==> p.ranges == ranges)
  {
    hide PrintFrom, MatchSpecs, ReadSpecs, Pieces;
    var s := PrintRanges(ranges);
    assert s[..6] == "bytes=" && s[6..] == PrintFrom(ranges, true);
    if ranges == [] {
      NothingPrinted(s);
    } else {
      MatchPrinted(s, 6, ranges);
      if AllInRange(ranges) {
        PrintedPieces("", "", ranges);
        assert "" + "" + PrintFrom(ranges, true) == s[6..];
        ReadSpecsOfTexts(ranges, []);
        assert [] + ranges == ranges;
      }
    }
  }

  lemma NothingPrinted(s: string)
    requires |s| >= 6 && s[6..] == PrintFrom([], true)
    ensures !MatchHeader(s)
  {
    assert |s| == 6;
  }

  // ------------------------------------------------------------------------------------------
  // Resolving a range against a body

  // Conversion to ssize_t and to size_t.
  function Signed(n: int): (r: Ssize) {
    var m := n % SIZE_VALUES;
    if m <= SSIZE_MAX then m else m - SIZE_VALUES
  }

  function Unsigned(n: int): nat { n % SIZE_VALUES }

  function OffsetAndLength(r: Range, size: nat): (nat, nat) {
    if r.first == -1 && r.last == -1 then (0, size)
    else
      var slen := Signed(size);
      var suffix := r.first == -1;
      var first := if suffix then (if slen - r.last > 0 then slen - r.last else 0) else r.first;
      var last0 := if suffix then slen - 1 else r.last;
      var last := if last0 == -1 then slen - 1 else last0;
      (Unsigned(first), Unsigned(Unsigned(last - first) + 1))
  }

  // The positions a range selects from size bytes (section 2.1 of RFC 7233).
  predicate Selects(r: Range, size: nat, i: nat) {
    && i < size
    && (if r.first == -1 then r.last == -1 || i >= size - r.last
        else r.first <= i && (r.last == -1 || i <= r.last))
  }

  // Whatever comes back, cut off at the end of the content, is exactly what the range selects; and it
  // stays inside the content exactly when no last position lies at or past the end and no open range
  // starts past it.
  lemma ResolvedRange(r: Range, size: nat)
    requires InRange(r) && Ordered(r) && size <= SSIZE_MAX
    ensures var (offset, length) := OffsetAndLength(r, size);
      && (forall i: nat :: i < size && offset <= i < offset + length <==> Selects(r, size, i))
      && (offset + length <= size <==>
            r.first == -1 || (r.last == -1 && r.first <= size) || 0 <= r.last < size)
      && (r.first == -1 && r.last >= 0 ==>
            length == (if r.last < size then r.last else size) && offset + length == size)
  {
    if r.first == -1 && r.last != -1 {
      SuffixRange(r, size);
    } else if r.first != -1 && r.last == -1 {
      OpenRange(r, size);
    } else if r.first != -1 {
      ClosedRange(r, size);
    }
  }

  lemma Wrap(n: int)
    ensures 0 <= n < SIZE_VALUES ==> Unsigned(n) == n
    ensures -SIZE_VALUES <= n < 0 ==> Unsigned(n) == n + SIZE_VALUES
    ensures n == SIZE_VALUES ==> Unsigned(n) == 0
    ensures 0 <= n <= SSIZE_MAX ==> Signed(n) == n
  {
  }

  lemma SuffixRange(r: Range, size: nat)
    requires InRange(r) && r.first == -1 && r.last >= 0 && size <= SSIZE_MAX
    ensures var k := if r.last < size then r.last else size; OffsetAndLength(r, size) == (size - k, k)
  {
    hide Signed, Unsigned;
    var first := if size - r.last > 0 then size - r.last else 0;
    Wrap(size);
    Wrap(first);
    Wrap(size - 1 - first);
    Wrap(Unsigned(size - 1 - first) + 1);
  }

  lemma OpenRange(r: Range, size: nat)
    requires InRange(r) && r.first >= 0 && r.last == -1 && size <= SSIZE_MAX
    ensures OffsetAndLength(r, size) ==
      (r.first as nat, if r.first <= size then size - r.first else SIZE_VALUES + size - r.first)
  {
    hide Signed, Unsigned;
    Wrap(size);
    Wrap(r.first);
    Wrap(size - 1 - r.first);
    Wrap(Unsigned(size - 1 - r.first) + 1);
  }

  lemma ClosedRange(r: Range, size: nat)
    requires InRange(r) && 0 <= r.first <= r.last && size <= SSIZE_MAX
    ensures OffsetAndLength(r, size) == (r.first as nat, r.last - r.first + 1)
  {
    hide Signed, Unsigned;
    Wrap(size);
    Wrap(r.first);
    Wrap(r.last - r.first);
    Wrap(Unsigned(r.last - r.first) + 1);
  }

  // The first thousand bytes of ten: the range is satisfiable, and the length that comes back, which
  // the Content-Range header announces, is a thousand.
  lemma LastPositionIsNotClamped()
    ensures Selects(Range(0, 999), 10, 0) && OffsetAndLength(Range(0, 999), 10) == (0, 1000)
  {
    ClosedRange(Range(0, 999), 10);
  }

  // ------------------------------------------------------------------------------------------
  // The body sent for one range

  datatype Served = Unsatisfiable | Partial(body: string)

  // substr clamps at the end; an offset at or past the end is answered with 416.
  function ServeRange(body: string, r: Range): Served {
    var (offset, length) := OffsetAndLength(r, |body|);
    if offset < |body| then
      Partial(if offset + length <= |body| then body[offset..offset + length] else body[offset..])
    else Unsatisfiable
  }

  // The bytes of body at the positions the range selects, from index i on.
  ghost function Selected(body: string, r: Range, i: nat): string
    requires i <= |body|
    decreases |body| - i
  {
    if i == |body| then ""
    else (if Selects(r, |body|, i) then [body[i]] else "") + Selected(body, r, i + 1)
  }

  lemma {:induction false} SelectedWindow(body: string, r: Range, i: nat, lo: nat, hi: nat)
    requires i <= |body| && lo <= hi <= |body|
    requires forall k: nat :: Selects(r, |body|, k) <==> lo <= k < hi
    ensures Selected(body, r, i) ==
      if hi <= i then "" else body[(if i < lo then lo else i)..hi]
    decreases |body| - i
  {
    if i < |body| {
      SelectedWindow(body, r, i + 1, lo, hi);
      if lo <= i < hi { assert body[i..hi] == [body[i]] + body[i + 1..hi]; }
    }
  }

  // The server answers 416 exactly when the range selects nothing, and otherwise sends exactly the
  // selected bytes.
  lemma ServedIsSelected(body: string, r: Range)
    requires InRange(r) && Ordered(r) && |body| <= SSIZE_MAX
    ensures var chosen := Selected(body, r, 0);
      ServeRange(body, r) == if chosen == "" then Unsatisfiable else Partial(chosen)
  {
    hide OffsetAndLength, Selects;
    var (offset, length) := OffsetAndLength(r, |body|);
    ResolvedRange(r, |body|);
    var lo := if offset < |body| then offset else |body|;
    var hi := if offset + length <= |body| then offset + length else |body|;
    var end := if hi < lo then lo else hi;
    SelectsNothingOutside(r, |body|);
    SelectedWindow(body, r, 0, lo, end);
    NonEmptyFromOffset(r, |body|);
  }

  lemma SelectsNothingOutside(r: Range, size: nat)
    ensures forall k: nat :: Selects(r, size, k) ==> k < size
  {
  }

  lemma NonEmptyFromOffset(r: Range, size: nat)
    requires InRange(r) && Ordered(r) && size <= SSIZE_MAX
    ensures var (offset, length) := OffsetAndLength(r, size); offset < size ==> length > 0
  {
    if r.first == -1 && r.last != -1 {
      SuffixRange(r, size);
    } else if r.first != -1 && r.last == -1 {
      OpenRange(r, size);
    } else if r.first != -1 {
      ClosedRange(r, size);
    }
  }
}
