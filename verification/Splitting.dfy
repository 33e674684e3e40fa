// trim, trim_copy and split.

module Splitting {
  import opened Text

  function SkipBlanks(s: string, left: nat): (r: nat)
    requires left <= |s|
    ensures left <= r <= |s|
    ensures forall i | left <= i < r :: IsSpaceOrTab(s[i])
    ensures r < |s| ==> !IsSpaceOrTab(s[r])
    decreases |s| - left
  {
    if left < |s| && IsSpaceOrTab(s[left]) then SkipBlanks(s, left + 1) else left
  }

  function DropBlanks(s: string, right: nat): (r: nat)
    requires right <= |s|
    ensures r <= right
    ensures forall i | r <= i < right :: IsSpaceOrTab(s[i])
    ensures 0 < r ==> !IsSpaceOrTab(s[r - 1])
  {
    if 0 < right && IsSpaceOrTab(s[right - 1]) then DropBlanks(s, right - 1) else right
  }

  method Trim(s: string, left0: nat, right0: nat) returns (left: nat, right: nat)
    requires left0 <= |s| && right0 <= |s|
    ensures left == SkipBlanks(s, left0) && right == DropBlanks(s, right0)
  {
    left, right := left0, right0;
    while left < |s| && IsSpaceOrTab(s[left])
      invariant left <= |s| && SkipBlanks(s, left) == SkipBlanks(s, left0)
    {
      left := left + 1;
    }
    while right > 0 && IsSpaceOrTab(s[right - 1])
      invariant right <= |s| && DropBlanks(s, right) == DropBlanks(s, right0)
    {
      right := right - 1;
    }
  }

  // substr of a string that is all blank: left runs past right and the difference wraps, so
  // substr clamps to the end, which left has reached.
  function TrimCopy(s: string): string {
    var l, r := SkipBlanks(s, 0), DropBlanks(s, |s|);
    if l <= r then s[l..r] else ""
  }

  predicate Trimmed(s: string) {
    s != "" ==> !IsSpaceOrTab(s[0]) && !IsSpaceOrTab(s[|s| - 1])
  }

  lemma TrimCopyLeadingBlank(s: string)
    requires Trimmed(s)
    ensures TrimCopy(" " + s) == s
  {
    var t := " " + s;
    assert SkipBlanks(t, 0) == SkipBlanks(t, 1);
    if s == "" {
      assert DropBlanks(t, 1) == DropBlanks(t, 0);
    } else {
      assert t[1] == s[0] && t[|t| - 1] == s[|s| - 1];
      assert t[1..|t|] == s;
    }
  }

  // The pieces handed to the callback of split: cut at every d, trimmed, empty ones dropped.
  function Piece(s: string, beg: nat, i: nat): (r: seq<string>)
    requires beg <= |s| && i <= |s|
    ensures |r| <= 1
  {
    var l, e := SkipBlanks(s, beg), DropBlanks(s, i);
    if l < e then [s[l..e]] else []
  }

  function Pieces(s: string, d: char, beg: nat, i: nat): seq<string>
    requires beg <= i <= |s|
    decreases |s| - i
  {
    if i == |s| then (if i > 0 then Piece(s, beg, i) else [])
    else if s[i] == d then Piece(s, beg, i) + Pieces(s, d, i + 1, i + 1)
    else Pieces(s, d, beg, i + 1)
  }

  method Split(s: string, d: char) returns (pieces: seq<string>)
    ensures pieces == Pieces(s, d, 0, 0)
  {
    var i, beg := 0, 0;
    pieces := [];
    while i < |s|
      invariant beg <= i <= |s|
      invariant pieces + Pieces(s, d, beg, i) == Pieces(s, d, 0, 0)
    {
      if s[i] == d {
        var l, e := Trim(s, beg, i);
        if l < e { pieces := pieces + [s[l..e]]; }
        beg := i + 1;
      }
      i := i + 1;
    }
    if i > 0 {
      var l, e := Trim(s, beg, i);
      if l < e { pieces := pieces + [s[l..e]]; }
    }
  }

  // ------------------------------------------------------------------------------------------
  // Splitting what was joined

  // A text that split hands on whole.
  predicate Solid(t: string, d: char) {
    t != "" && Trimmed(t) && forall i | 0 <= i < |t| :: t[i] != d
  }

  lemma {:induction false} ScanSolid(s: string, d: char, beg: nat, i: nat, end: nat)
    requires beg <= i <= end <= |s| && forall k | i <= k < end :: s[k] != d
    ensures Pieces(s, d, beg, i) == Pieces(s, d, beg, end)
    decreases end - i
  {
    if i < end { ScanSolid(s, d, beg, i + 1, end); }
  }

  lemma SolidPiece(s: string, d: char, beg: nat, end: nat)
    requires beg <= end <= |s| && Solid(s[beg..end], d)
    ensures Piece(s, beg, end) == [s[beg..end]]
  {
    assert s[beg..end][0] == s[beg] && s[beg..end][end - beg - 1] == s[end - 1];
  }

  lemma PieceThenMore(pre: string, t: string, d: char, rest: string)
    requires Solid(t, d)
    ensures var s := pre + t + [d] + rest;
      var n := |pre + t + [d]|;
      Pieces(s, d, |pre|, |pre|) == [t] + Pieces(s, d, n, n)
  {
    var s := pre + t + [d] + rest;
    var end := |pre| + |t|;
    assert s[|pre|..end] == t && s[end] == d;
    forall k | |pre| <= k < end ensures s[k] != d { assert s[k] == t[k - |pre|]; }
    ScanSolid(s, d, |pre|, |pre|, end);
    SolidPiece(s, d, |pre|, end);
  }

  lemma LastPiece(pre: string, t: string, d: char)
    requires Solid(t, d)
    ensures Pieces(pre + t, d, |pre|, |pre|) == [t]
  {
    var s := pre + t;
    assert s[|pre|..|s|] == t;
    forall k | |pre| <= k < |s| ensures s[k] != d { assert s[k] == t[k - |pre|]; }
    ScanSolid(s, d, |pre|, |pre|, |s|);
    SolidPiece(s, d, |pre|, |s|);
  }

  lemma NoPiece(pre: string, d: char)
    ensures Pieces(pre, d, |pre|, |pre|) == []
  {
  }

  // ------------------------------------------------------------------------------------------
  // Where a piece of a text comes from

  // Piece n is a stretch of s without d and without a blank at its edges; behind the first of several
  // pieces there is a d.
  lemma {:induction false} PieceAt(s: string, d: char, beg: nat, i: nat, n: nat) returns (x: nat, y: nat)
    requires beg <= i <= |s| && (forall k | beg <= k < i :: s[k] != d) && n < |Pieces(s, d, beg, i)|
    ensures beg <= x < y <= |s| && Pieces(s, d, beg, i)[n] == s[x..y]
    ensures !IsSpaceOrTab(s[x]) && !IsSpaceOrTab(s[y - 1]) && forall k | x <= k < y :: s[k] != d
    ensures n == 0 && |Pieces(s, d, beg, i)| > 1 ==> exists z :: y <= z < |s| && s[z] == d
    decreases |s| - i
  {
    if i < |s| && s[i] != d {
      x, y := PieceAt(s, d, beg, i + 1, n);
    } else {
      var here := Piece(s, beg, i);
      if n < |here| {
        x, y := SkipBlanks(s, beg), DropBlanks(s, i);
      } else {
        x, y := PieceAt(s, d, i + 1, i + 1, n - |here|);
      }
    }
  }

  lemma {:induction false} SkipBlanksIs(s: string, left: nat, r: nat)
    requires left <= r < |s| && (forall i | left <= i < r :: IsSpaceOrTab(s[i])) && !IsSpaceOrTab(s[r])
    ensures SkipBlanks(s, left) == r
    decreases r - left
  {
    if left < r { SkipBlanksIs(s, left + 1, r); }
  }

  lemma {:induction false} DropBlanksIs(s: string, right: nat, r: nat)
    requires 0 < r <= right <= |s| && (forall i | r <= i < right :: IsSpaceOrTab(s[i])) && !IsSpaceOrTab(s[r - 1])
    ensures DropBlanks(s, right) == r
  {
    if r < right { DropBlanksIs(s, right - 1, r); }
  }

  // Trimming a text that is not all blank.
  lemma TrimCopyIs(s: string) returns (l: nat, r: nat)
    requires TrimCopy(s) != ""
    ensures l < r <= |s| && TrimCopy(s) == s[l..r]
    ensures (forall i | 0 <= i < l :: IsSpaceOrTab(s[i])) && !IsSpaceOrTab(s[l])
    ensures (forall i | r <= i < |s| :: IsSpaceOrTab(s[i])) && !IsSpaceOrTab(s[r - 1])
  {
    l, r := SkipBlanks(s, 0), DropBlanks(s, |s|);
  }

  lemma AllBlank(s: string)
    requires TrimCopy(s) == ""
    ensures forall i | 0 <= i < |s| :: IsSpaceOrTab(s[i])
  {
    var l, r := SkipBlanks(s, 0), DropBlanks(s, |s|);
  }

  lemma TrimmedStays(s: string)
    ensures Trimmed(TrimCopy(s)) && |TrimCopy(s)| <= |s| && (TrimCopy(s) == s <==> Trimmed(s))
    ensures |TrimCopy(s)| == |s| ==> TrimCopy(s) == s
  {
    if s != "" && Trimmed(s) {
      SkipBlanksIs(s, 0, 0);
      DropBlanksIs(s, |s|, |s|);
      assert s[0..|s|] == s;
    }
    if TrimCopy(s) != "" { var l, r := TrimCopyIs(s); }
  }

  predicate BlanksAndTabs(s: string) { forall i | 0 <= i < |s| :: s[i] == ' ' || s[i] == '\t' }

  // Blanks and tabs go from both ends, and nothing else goes.
  lemma TrimMeans(left: string, t: string, right: string)
    requires BlanksAndTabs(left) && BlanksAndTabs(right)
    requires t != "" ==> t[0] !in " \t" && t[|t| - 1] !in " \t"
    ensures TrimCopy(left + t + right) == t
  {
    var s := left + t + right;
    if t == "" {
      assert forall i | 0 <= i < |s| :: IsSpaceOrTab(s[i]);
    } else {
      SkipBlanksIs(s, 0, |left|);
      DropBlanksIs(s, |s|, |left + t|);
    }
  }

  // ------------------------------------------------------------------------------------------
  // What split does with any text

  function Join(texts: seq<string>, d: char): string {
    if texts == [] then "" else if |texts| == 1 then texts[0] else texts[0] + [d] + Join(texts[1..], d)
  }

  // The texts trimmed, those that were blank dropped.
  function Trims(texts: seq<string>): seq<string> {
    if texts == [] then []
    else (if TrimCopy(texts[0]) == "" then [] else [TrimCopy(texts[0])]) + Trims(texts[1..])
  }

  lemma PieceIsTrimmed(s: string, beg: nat, end: nat)
    requires beg <= end <= |s|
    ensures Piece(s, beg, end) == if TrimCopy(s[beg..end]) == "" then [] else [TrimCopy(s[beg..end])]
  {
    hide IsSpaceOrTab, TrimCopy, Piece;
    if TrimCopy(s[beg..end]) != "" { PieceOfText(s, beg, end); } else { PieceOfBlanks(s, beg, end); }
  }

  lemma PieceOfText(s: string, beg: nat, end: nat)
    requires beg <= end <= |s| && TrimCopy(s[beg..end]) != ""
    ensures Piece(s, beg, end) == [TrimCopy(s[beg..end])]
  {
    hide IsSpaceOrTab, TrimCopy;
    var t := s[beg..end];
    var l, r := TrimCopyIs(t);
    assert t[l] == s[beg + l] && t[r - 1] == s[beg + r - 1];
    forall i | beg <= i < beg + l ensures IsSpaceOrTab(s[i]) { assert s[i] == t[i - beg]; }
    forall i | beg + r <= i < end ensures IsSpaceOrTab(s[i]) { assert s[i] == t[i - beg]; }
    SkipBlanksIs(s, beg, beg + l);
    DropBlanksIs(s, end, beg + r);
    SliceOfSlice(s, beg, end, l, r);
  }

  lemma SliceOfSlice(s: string, at: nat, end: nat, i: nat, j: nat)
    requires at <= end <= |s| && i <= j <= end - at
    ensures s[at..end][i..j] == s[at + i..at + j]
  {
    var l, r := s[at..end][i..j], s[at + i..at + j];
    forall k | 0 <= k < |l| ensures l[k] == r[k] {
      assert l[k] == s[at..end][i + k] == s[at + (i + k)];
      assert r[k] == s[(at + i) + k];
    }
  }

  lemma PieceOfBlanks(s: string, beg: nat, end: nat)
    requires beg <= end <= |s| && TrimCopy(s[beg..end]) == ""
    ensures Piece(s, beg, end) == []
  {
    hide IsSpaceOrTab, TrimCopy;
    var t := s[beg..end];
    AllBlank(t);
    forall i | beg <= i < end ensures IsSpaceOrTab(s[i]) { assert s[i] == t[i - beg]; }
  }

  // The pieces are the texts between the separators, trimmed.
  lemma {:induction false} JoinedPieces(pre: string, texts: seq<string>, d: char)
    requires texts != [] && forall t | t in texts :: d !in t
    ensures Pieces(pre + Join(texts, d), d, |pre|, |pre|) == Trims(texts)
    decreases |texts|
  {
    hide Piece, TrimCopy, Pieces, Join;
    var t, s := texts[0], pre + Join(texts, d);
    assert t in texts;
    if |texts| == 1 {
      JoinedOne(texts, d);
      LastText(pre, t, d);
    } else {
      JoinedMore(texts, d);
      var rest := Join(texts[1..], d);
      assert s == pre + t + [d] + rest;
      TextThenMore(pre, t, d, rest);
      JoinedPieces(pre + t + [d], texts[1..], d);
    }
  }

  lemma JoinedOne(texts: seq<string>, d: char)
    requires |texts| == 1
    ensures Join(texts, d) == texts[0] && texts[1..] == []
  {
  }

  lemma JoinedMore(texts: seq<string>, d: char)
    requires |texts| > 1
    ensures Join(texts, d) == texts[0] + [d] + Join(texts[1..], d)
  {
  }

  lemma LastText(pre: string, t: string, d: char)
    requires d !in t
    ensures Pieces(pre + t, d, |pre|, |pre|) == if TrimCopy(t) == "" then [] else [TrimCopy(t)]
  {
    hide Piece, TrimCopy;
    var s := pre + t;
    assert s[|pre|..|s|] == t;
    ScanTo(s, d, |pre|, |s|);
    PieceIsTrimmed(s, |pre|, |s|);
    NothingToTrim();
  }

  lemma TextThenMore(pre: string, t: string, d: char, rest: string)
    requires d !in t
    ensures var s, n := pre + t + [d] + rest, |pre + t + [d]|;
      Pieces(s, d, |pre|, |pre|) == (if TrimCopy(t) == "" then [] else [TrimCopy(t)]) + Pieces(s, d, n, n)
  {
    hide Piece, TrimCopy;
    var s, end := pre + t + [d] + rest, |pre| + |t|;
    assert s[|pre|..end] == t && s[end] == d;
    ScanTo(s, d, |pre|, end);
    PieceIsTrimmed(s, |pre|, end);
  }

  lemma NothingToTrim()
    ensures TrimCopy("") == ""
  {
  }

  lemma ScanTo(s: string, d: char, beg: nat, end: nat)
    requires beg <= end <= |s| && d !in s[beg..end]
    ensures Pieces(s, d, beg, beg) == Pieces(s, d, beg, end)
  {
    hide Pieces;
    forall k | beg <= k < end ensures s[k] != d { assert s[k] == s[beg..end][k - beg]; }
    ScanSolid(s, d, beg, beg, end);
  }
}
