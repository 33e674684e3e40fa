// Which texts are range headers, and what each of them means: lists of digits "-" digits behind "bytes=",
// separated by commas, with any white space behind a comma and any leading zeros.

module RangeHeaders {
  import opened Text
  import opened Splitting
  import opened Ranges

  // A specification as it is written, either bound possibly absent.
  datatype Bounds = Bounds(gap: string, first: string, last: string)

  predicate AllSpaces(s: string) { forall i | 0 <= i < |s| :: IsSpace(s[i]) }

  predicate AllDigits(s: string) { forall i | 0 <= i < |s| :: IsDigit(s[i]) }

  predicate GoodBounds(b: Bounds) { AllSpaces(b.gap) && AllDigits(b.first) && AllDigits(b.last) }

  predicate AllGood(bs: seq<Bounds>) { forall i | 0 <= i < |bs| :: GoodBounds(bs[i]) }

  // No white space comes before the first one.
  predicate GoodList(bs: seq<Bounds>) { bs != [] && AllGood(bs) && bs[0].gap == "" }

  function Core(b: Bounds): string { b.first + ("-" + b.last) }

  function BoundsTexts(bs: seq<Bounds>): seq<string> {
    if bs == [] then [] else [bs[0].gap + Core(bs[0])] + BoundsTexts(bs[1..])
  }

  function ListText(bs: seq<Bounds>): string { Join(BoundsTexts(bs), ',') }

  function HeaderText(bs: seq<Bounds>): string { "bytes=" + ListText(bs) }

  // The first specification and what follows it.
  lemma ListFirst(bs: seq<Bounds>)
    requires bs != []
    ensures ListText(bs) == bs[0].gap + (Core(bs[0]) + if |bs| == 1 then "" else "," + ListText(bs[1..]))
  {
    hide Core;
    var texts, t := BoundsTexts(bs), bs[0].gap + Core(bs[0]);
    assert texts == [t] + BoundsTexts(bs[1..]);
    if |bs| == 1 {
      assert bs[1..] == [] && texts == [t];
      assert t + "" == t;
    } else {
      assert BoundsTexts(bs[1..]) != [] && texts[1..] == BoundsTexts(bs[1..]);
      assert [','] == ",";
    }
  }

  // ------------------------------------------------------------------------------------------
  // The header as a whole

  lemma {:induction false} SpacesEndIs(s: string, from: nat, to: nat)
    requires from <= to <= |s| && AllSpaces(s[from..to]) && (to < |s| ==> !IsSpace(s[to]))
    ensures SpacesEnd(s, from) == to
    decreases |s| - from
  {
    if from < to {
      assert s[from..to][0] == s[from] && s[from..to][1..] == s[from + 1..to];
      SpacesEndIs(s, from + 1, to);
    }
  }

  lemma {:induction false} SpacesTo(s: string, from: nat)
    requires from <= |s|
    ensures AllSpaces(s[from..SpacesEnd(s, from)])
    decreases |s| - from
  {
    if from < |s| && IsSpace(s[from]) {
      SpacesTo(s, from + 1);
      assert s[from..SpacesEnd(s, from)] == [s[from]] + s[from + 1..SpacesEnd(s, from)];
    }
  }

  // A specification in its place.
  lemma CoreAt(s: string, at: nat, b: Bounds)
    requires GoodBounds(b)
    requires var e := at + |Core(b)|; e <= |s| && s[at..e] == Core(b) && (e < |s| ==> !IsDigit(s[e]))
    ensures var j := at + |b.first|;
      && DigitsEnd(s, at) == j && s[j] == '-' && DigitsEnd(s, j + 1) == at + |Core(b)|
      && s[at..j] == b.first && s[j + 1..at + |Core(b)|] == b.last
    ensures MatchSpec(s, at) == at + |Core(b)|
  {
    var e, j := at + |Core(b)|, at + |b.first|;
    Slices(s, at, e, b.first, "-", b.last);
    assert s[j] == s[j..j + 1][0];
    forall i | at <= i < j ensures IsDigit(s[i]) { assert s[i] == s[at..j][i - at]; }
    forall i | j + 1 <= i < e ensures IsDigit(s[i]) { assert s[i] == s[j + 1..e][i - j - 1]; }
    DigitsEndIs(s, at, j);
    DigitsEndIs(s, j + 1, e);
  }

  lemma CoreStarts(b: Bounds)
    requires GoodBounds(b)
    ensures Core(b) != "" && !IsSpace(Core(b)[0])
  {
  }

  lemma ListInPlace(s: string, at: nat, bs: seq<Bounds>)
    requires bs != [] && at <= |s| && s[at..] == ListText(bs)
    ensures var from := at + |bs[0].gap|;
      var e := from + |Core(bs[0])|;
      && e <= |s| && s[at..from] == bs[0].gap && s[from..e] == Core(bs[0])
      && (if |bs| == 1 then e == |s| else e < |s| && s[e] == ',' && s[e + 1..] == ListText(bs[1..]))
  {
    hide Core, ListText;
    var b, from := bs[0], at + |bs[0].gap|;
    var e := from + |Core(b)|;
    var more := if |bs| == 1 then "" else "," + ListText(bs[1..]);
    ListFirst(bs);
    Assoc(b.gap, Core(b), more);
    Slices(s, at, |s|, b.gap, Core(b), more);
    if |bs| > 1 { assert s[e..] == more && s[e..][1..] == s[e + 1..]; }
  }

  lemma {:induction false} ListMatches(s: string, at: nat, bs: seq<Bounds>)
    requires bs != [] && AllGood(bs)
    requires at <= |s| && s[at..] == ListText(bs)
    ensures at + |bs[0].gap| <= |s| && SpacesEnd(s, at) == at + |bs[0].gap|
    ensures MatchSpecs(s, at + |bs[0].gap|)
    decreases |bs|
  {
    hide Core, MatchSpec, ListText, AllSpaces, AllDigits, SpacesEnd, DigitsEnd;
    var b, from := bs[0], at + |bs[0].gap|;
    var e := from + |Core(b)|;
    ListInPlace(s, at, bs);
    assert GoodBounds(b);
    CoreStarts(b);
    assert s[from] == s[from..e][0];
    SpacesEndIs(s, at, from);
    CoreAt(s, from, b);
    if |bs| > 1 { ListMatches(s, e + 1, bs[1..]); }
  }

  lemma {:induction false} MatchIsList(s: string, at: nat) returns (bs: seq<Bounds>)
    requires at <= |s| && MatchSpecs(s, at)
    ensures GoodList(bs) && s[at..] == ListText(bs)
    decreases |s| - at
  {
    hide ListText, Core, GoodList, MatchSpec, SpacesEnd, AllSpaces;
    var b := MatchIsCore(s, at);
    var e := at + |Core(b)|;
    if e == |s| {
      bs := [b];
      OneIsList(b);
      assert s[at..] == s[at..e];
    } else {
      var n := SpacesEnd(s, e + 1);
      var rest := MatchIsList(s, n);
      SpacesTo(s, e + 1);
      bs := ListOfMore(b, s[e + 1..n], rest);
      CutAtComma(s, at, e, n);
    }
  }

  lemma CutAtComma(s: string, at: nat, e: nat, n: nat)
    requires at <= e < n <= |s| && s[e] == ','
    ensures s[at..] == s[at..e] + ("," + (s[e + 1..n] + s[n..]))
  {
    assert s[e..] == "," + s[e + 1..];
    assert s[e + 1..] == s[e + 1..n] + s[n..];
  }

  lemma MatchIsCore(s: string, at: nat) returns (b: Bounds)
    requires at <= |s| && MatchSpec(s, at) >= 0
    ensures GoodBounds(b) && b.gap == ""
    ensures MatchSpec(s, at) == at + |Core(b)| && s[at..at + |Core(b)|] == Core(b)
  {
    var j, e := DigitsEnd(s, at), MatchSpec(s, at);
    b := Bounds("", s[at..j], s[j + 1..e]);
    CoreOf(s, at, j, e);
  }

  lemma OneIsList(b: Bounds)
    requires GoodBounds(b) && b.gap == ""
    ensures GoodList([b]) && ListText([b]) == Core(b)
  {
    hide ListText, Core;
    ListFirst([b]);
    assert "" + (Core(b) + "") == Core(b);
  }

  lemma ListOfMore(b: Bounds, gap: string, rest: seq<Bounds>) returns (bs: seq<Bounds>)
    requires GoodBounds(b) && b.gap == "" && AllSpaces(gap) && GoodList(rest)
    ensures GoodList(bs) && ListText(bs) == Core(b) + ("," + (gap + ListText(rest)))
  {
    hide ListText, Core, AllSpaces, AllDigits;
    var next := [rest[0].(gap := gap)] + rest[1..];
    GapBefore(rest, gap);
    bs := [b] + next;
    assert bs[1..] == next;
    ListFirst(bs);
    assert "" + (Core(b) + ("," + ListText(next))) == Core(b) + ("," + ListText(next));
  }

  lemma CoreOf(s: string, at: nat, j: nat, e: nat)
    requires at <= j < e <= |s| && s[j] == '-'
    ensures s[at..e] == Core(Bounds("", s[at..j], s[j + 1..e]))
  {
  }

  lemma GapBefore(bs: seq<Bounds>, gap: string)
    requires bs != [] && bs[0].gap == ""
    ensures ListText([bs[0].(gap := gap)] + bs[1..]) == gap + ListText(bs)
  {
    hide ListText, Core;
    var with := [bs[0].(gap := gap)] + bs[1..];
    assert with[1..] == bs[1..] && Core(with[0]) == Core(bs[0]) by { SameCore(bs[0], gap); }
    ListFirst(bs);
    ListFirst(with);
    var more := Core(bs[0]) + if |bs| == 1 then "" else "," + ListText(bs[1..]);
    assert "" + more == more;
  }

  lemma SameCore(b: Bounds, gap: string)
    ensures Core(b.(gap := gap)) == Core(b)
  {
  }

  // A text is a range header exactly when it is written so.
  lemma RangeHeaderGrammar(s: string)
    ensures MatchHeader(s) <==> exists bs :: GoodList(bs) && s == HeaderText(bs)
  {
    hide ListText, MatchSpecs, GoodList;
    if MatchHeader(s) {
      var bs := MatchIsList(s, 6);
      assert s == "bytes=" + s[6..];
      assert GoodList(bs) && s == HeaderText(bs);
    }
    if bs :| GoodList(bs) && s == HeaderText(bs) { ListIsMatched(bs); }
  }

  lemma ListIsMatched(bs: seq<Bounds>)
    requires GoodList(bs)
    ensures MatchHeader(HeaderText(bs)) && HeaderText(bs)[6..] == ListText(bs)
  {
    hide ListText, MatchSpecs;
    var s := HeaderText(bs);
    assert s[6..] == ListText(bs) && s[..6] == "bytes=";
    ListMatches(s, 6, bs);
  }

  // ------------------------------------------------------------------------------------------
  // The value of a bound

  const DIGITS: string := "0123456789"

  function Ten(n: nat): nat { if n == 0 then 1 else 10 * Ten(n - 1) }

  // The index of a character in DIGITS.
  function Place(c: char, i: nat): nat
    requires i <= 10
    decreases 10 - i
  {
    if i == 10 || DIGITS[i] == c then i else Place(c, i + 1)
  }

  function Number(digits: string): nat {
    if digits == "" then 0 else Place(digits[0], 0) * Ten(|digits| - 1) + Number(digits[1..])
  }

  lemma DigitPlace(c: char)
    requires IsDigit(c)
    ensures DigitValue(c) == Place(c, 0) < 10
  {
    var v := c as int - '0' as int;
    assert DIGITS[v] == c && forall i: nat | i < v :: DIGITS[i] != c;
    PlaceIs(c, 0, v);
  }

  lemma {:induction false} PlaceIs(c: char, i: nat, v: nat)
    requires i <= v < 10 && DIGITS[v] == c && forall k | i <= k < v :: DIGITS[k] != c
    ensures Place(c, i) == v
    decreases v - i
  {
    if i < v { PlaceIs(c, i + 1, v); }
  }

  lemma {:induction false} NumberLast(digits: string, c: char)
    ensures Number(digits + [c]) == 10 * Number(digits) + Place(c, 0)
    decreases |digits|
  {
    var all := digits + [c];
    if digits == "" {
      assert all[1..] == "";
      assert Ten(0) == 1;
    } else {
      NumberLast(digits[1..], c);
      assert all[1..] == digits[1..] + [c] && all[0] == digits[0];
      assert Ten(|digits|) == 10 * Ten(|digits| - 1);
      Tenfold(Place(digits[0], 0), Ten(|digits| - 1));
    }
  }

  lemma Tenfold(a: int, b: int)
    ensures a * (10 * b) == 10 * (a * b)
  {
  }

  lemma {:induction false} DecimalIsNumber(s: string, i: nat, j: nat)
    requires i <= j <= |s| && forall k | i <= k < j :: IsDigit(s[k])
    ensures DecimalValue(s, i, j) == Number(s[i..j])
    decreases j - i
  {
    hide Number, Place;
    if i == j {
      NoDigits();
      assert s[i..j] == "";
    } else {
      DecimalIsNumber(s, i, j - 1);
      DigitPlace(s[j - 1]);
      assert s[i..j] == s[i..j - 1] + [s[j - 1]];
      NumberLast(s[i..j - 1], s[j - 1]);
    }
  }

  lemma NoDigits()
    ensures Number("") == 0
  {
  }

  function Value(digits: string): int { if digits == "" then -1 else Number(digits) }

  // Both bounds fit into a long long.
  predicate Fits(b: Bounds) { Value(b.first) <= SSIZE_MAX && Value(b.last) <= SSIZE_MAX }

  lemma BoundsAreRead(b: Bounds)
    requires GoodBounds(b)
    ensures ReadSpec(b.gap + Core(b)) ==
            if Fits(b) then Spec(Range(Value(b.first), Value(b.last))) else OutOfRange
  {
    hide DigitsEnd, Number, SpacesEnd, DecimalValue;
    var t, i := b.gap + Core(b), |b.gap|;
    var j := BoundsInPlace(b);
    DecimalIsNumber(t, i, j);
    DecimalIsNumber(t, j + 1, |t|);
  }

  lemma BoundsInPlace(b: Bounds) returns (j: nat)
    requires GoodBounds(b)
    ensures var t, i := b.gap + Core(b), |b.gap|;
      && i <= j < |t| && SpacesEnd(t, 0) == i && DigitsEnd(t, i) == j && t[j] == '-' && DigitsEnd(t, j + 1) == |t|
      && t[i..j] == b.first && t[j + 1..|t|] == b.last
  {
    hide Core, DigitsEnd, SpacesEnd;
    var t, i := b.gap + Core(b), |b.gap|;
    CoreStarts(b);
    assert t[0..i] == b.gap && t[i] == Core(b)[0] && t[i..|t|] == Core(b);
    SpacesEndIs(t, 0, i);
    CoreAt(t, i, b);
    j := i + |b.first|;
  }

  // ------------------------------------------------------------------------------------------
  // The list

  lemma CoreEnds(b: Bounds)
    requires GoodBounds(b)
    ensures Core(b) != "" && !IsSpaceOrTab(Core(b)[0]) && !IsSpaceOrTab(Core(b)[|Core(b)| - 1])
    ensures ',' !in b.gap + Core(b)
  {
    var t := b.gap + Core(b);
    forall i | 0 <= i < |t| ensures t[i] != ',' { }
  }

  // split takes blanks and tabs off the front, the pattern any other white space.
  lemma TrimmedBounds(b: Bounds) returns (c: Bounds)
    requires GoodBounds(b)
    ensures GoodBounds(c) && c.first == b.first && c.last == b.last
    ensures TrimCopy(b.gap + Core(b)) == c.gap + Core(c) != ""
  {
    hide Core;
    var t := b.gap + Core(b);
    CoreEnds(b);
    assert t[|t| - 1] == Core(b)[|Core(b)| - 1] && t[|b.gap|] == Core(b)[0];
    assert TrimCopy(t) != "" by {
      if TrimCopy(t) == "" { AllBlank(t); }
    }
    var l, r := TrimCopyIs(t);
    NoBlankEnd(t, r);
    assert l <= |b.gap|;
    c := b.(gap := b.gap[l..]);
    SameCore(b, c.gap);
    assert t[l..r] == c.gap + Core(c);
  }

  lemma NoBlankEnd(t: string, r: nat)
    requires r <= |t| && t != "" && !IsSpaceOrTab(t[|t| - 1]) && forall i | r <= i < |t| :: IsSpaceOrTab(t[i])
    ensures r == |t|
  {
  }

  // A specification that is taken into the list.
  predicate Taken(b: Bounds) {
    Fits(b) && (b.first != "" && b.last != "" ==> Value(b.first) <= Value(b.last))
  }

  // The first one that is not, or the end.
  predicate FirstBad(bs: seq<Bounds>, k: nat) {
    k <= |bs| && (forall i | 0 <= i < k :: Taken(bs[i])) && (k < |bs| ==> !Taken(bs[k]))
  }

  // The list as it was, and behind it the ranges of the first k specifications.
  predicate RangesOf(before: seq<Range>, bs: seq<Bounds>, k: nat, ranges: seq<Range>)
    requires k <= |bs|
  {
    && |ranges| == |before| + k && before <= ranges
    && forall i | 0 <= i < k ::
         var r := ranges[|before| + i]; r.first == Value(bs[i].first) && r.last == Value(bs[i].last)
  }

  lemma {:induction false} ListIsRead(bs: seq<Bounds>, before: seq<Range>, k: nat)
    requires AllGood(bs) && FirstBad(bs, k)
    ensures var p := ReadSpecs(Trims(BoundsTexts(bs)), before);
      (p.ok <==> k == |bs|) && RangesOf(before, bs, k, p.ranges)
    decreases |bs|
  {
    hide ReadSpec, Core, Value, TrimCopy, GoodBounds;
    if bs != [] {
      var b, rest := bs[0], bs[1..];
      var t := b.gap + Core(b);
      assert GoodBounds(b) && AllGood(rest);
      var c := TrimmedBounds(b);
      BoundsAreRead(c);
      AbsentValue(b);
      assert BoundsTexts(bs) == [t] + BoundsTexts(rest);
      TrimsFirst(t, BoundsTexts(rest));
      if k > 0 {
        assert Taken(b);
        var r := Range(Value(b.first), Value(b.last));
        RestFirstBad(bs, k);
        ListIsRead(rest, before + [r], k - 1);
        MoreRanges(before, bs, k, r, ReadSpecs(Trims(BoundsTexts(rest)), before + [r]).ranges);
      } else {
        assert !Taken(b);
      }
    }
  }

  lemma AbsentValue(b: Bounds)
    ensures (Value(b.first) == -1 <==> b.first == "") && (Value(b.last) == -1 <==> b.last == "")
    ensures Value(b.first) >= -1 && Value(b.last) >= -1
  {
  }

  lemma TrimsFirst(t: string, texts: seq<string>)
    requires TrimCopy(t) != ""
    ensures Trims([t] + texts) == [TrimCopy(t)] + Trims(texts)
  {
    hide TrimCopy;
  }

  lemma RestFirstBad(bs: seq<Bounds>, k: nat)
    requires FirstBad(bs, k) && k > 0
    ensures FirstBad(bs[1..], k - 1)
  {
    hide Taken;
  }

  lemma MoreRanges(before: seq<Range>, bs: seq<Bounds>, k: nat, r: Range, ranges: seq<Range>)
    requires 0 < k <= |bs| && r.first == Value(bs[0].first) && r.last == Value(bs[0].last)
    requires RangesOf(before + [r], bs[1..], k - 1, ranges)
    ensures RangesOf(before, bs, k, ranges)
  {
    hide Value;
    assert ranges[|before|] == (before + [r])[|before|];
    forall i | 0 < i < k ensures
      var q := ranges[|before| + i]; q.first == Value(bs[i].first) && q.last == Value(bs[i].last)
    {
      assert bs[i] == bs[1..][i - 1];
      assert ranges[|before| + i] == ranges[|before + [r]| + (i - 1)];
    }
  }

  lemma {:induction false} NoCommas(bs: seq<Bounds>)
    requires AllGood(bs)
    ensures |BoundsTexts(bs)| == |bs| && forall t | t in BoundsTexts(bs) :: ',' !in t
    decreases |bs|
  {
    hide Core;
    if bs != [] {
      CoreEnds(bs[0]);
      NoCommas(bs[1..]);
    }
  }

  // A range header is accepted exactly when both bounds of each specification fit and are in order.  The
  // ranges ahead of a bad specification are in the list all the same.
  lemma RangeHeaderMeans(bs: seq<Bounds>, before: seq<Range>, k: nat)
    requires GoodList(bs) && FirstBad(bs, k)
    ensures var p := ParseHeader(HeaderText(bs), before);
      (p.ok <==> k == |bs|) && RangesOf(before, bs, k, p.ranges)
  {
    hide BoundsTexts, Join, MatchHeader, ReadSpecs, Taken;
    ListIsMatched(bs);
    NoCommas(bs);
    JoinedPieces("", BoundsTexts(bs), ',');
    assert "" + ListText(bs) == ListText(bs);
    ListIsRead(bs, before, k);
  }

  // Any other text is refused and leaves the list as it was.
  lemma OtherTextsAreRefused(s: string, before: seq<Range>)
    requires forall bs | GoodList(bs) :: s != HeaderText(bs)
    ensures ParseHeader(s, before) == Parsed(false, before)
  {
    hide GoodList, HeaderText, MatchHeader;
    RangeHeaderGrammar(s);
  }
}
