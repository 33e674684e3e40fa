// Byte strings and the character classes of the C locale.  A Dafny string stands for a C++
// std::string; characters at or above 256 never arise from bytes and only widen the theorems.

module Text {

  const CRLF: string := "\r\n"

  // CPPHTTPLIB_HEADER_MAX_LENGTH, the longest header line.
  const HEADER_MAX: nat := 8192

  // The largest ssize_t.
  const SSIZE_MAX: int := 0x7FFF_FFFF_FFFF_FFFF

  function Concat(pieces: seq<string>): string {
    if pieces == [] then "" else pieces[0] + Concat(pieces[1..])
  }

  // p occurs in w at index i.
  predicate OccursAt(w: string, p: string, i: int) {
    0 <= i && i + |p| <= |w| && w[i..i + |p|] == p
  }

  // pos is the index of the first occurrence of p in w, or |w| when there is none.
  ghost predicate IsFirst(w: string, p: string, pos: nat) {
    && pos <= |w|
    && (pos < |w| ==> pos + |p| <= |w| && OccursAt(w, p, pos))
    && (forall i | 0 <= i < pos :: !OccursAt(w, p, i))
  }

  function FindFrom(w: string, p: string, i: nat): (pos: nat)
    requires i <= |w|
    ensures i <= pos <= |w|
    ensures pos < |w| ==> OccursAt(w, p, pos)
    ensures forall k | i <= k < pos :: !OccursAt(w, p, k)
    decreases |w| - i
  {
    if i == |w| then |w|
    else if OccursAt(w, p, i) then i
    else FindFrom(w, p, i + 1)
  }

  function Find(w: string, p: string): (pos: nat)
    ensures IsFirst(w, p, pos)
  {
    FindFrom(w, p, 0)
  }

  lemma FirstIsUnique(w: string, p: string, i: nat, j: nat)
    requires IsFirst(w, p, i) && IsFirst(w, p, j)
    ensures i == j
  {
  }

  // An occurrence found in w is still the first one when w is extended.
  lemma FindExtends(w: string, more: string, p: string)
    requires Find(w, p) < |w|
    ensures Find(w + more, p) == Find(w, p)
  {
    var pos := Find(w, p);
    assert (w + more)[pos..pos + |p|] == w[pos..pos + |p|];
    forall i | 0 <= i < pos ensures !OccursAt(w + more, p, i) {
      assert (w + more)[i..i + |p|] == w[i..i + |p|];
      assert !OccursAt(w, p, i);
    }
    FirstIsUnique(w + more, p, pos, Find(w + more, p));
  }

  predicate IsSpaceOrTab(c: char) { c == ' ' || c == '\t' }

  // isspace in the C locale, the \s of std::regex.
  predicate IsSpace(c: char) {
    c == ' ' || 9 <= c as int <= 13
  }

  function SpacesEnd(s: string, from: nat): (to: nat)
    requires from <= |s|
    ensures from <= to <= |s|
    decreases |s| - from
  {
    if from < |s| && IsSpace(s[from]) then SpacesEnd(s, from + 1) else from
  }

  predicate IsDigit(c: char) { '0' <= c <= '9' }

  predicate IsAlnum(c: char) {
    IsDigit(c) || 'a' <= c <= 'z' || 'A' <= c <= 'Z'
  }

  function ToLower(c: char): char {
    if 'A' <= c <= 'Z' then c + ' ' else c
  }

  const LETTERS: string := "abcdefghijklmnopqrstuvwxyz"
  const CAPITALS: string := "ABCDEFGHIJKLMNOPQRSTUVWXYZ"

  lemma LowerCase(i: nat)
    requires i < 26
    ensures ToLower(CAPITALS[i]) == LETTERS[i] && CAPITALS[i] as int == 'A' as int + i
  {
  }

  lemma OtherCharactersStay(c: char)
    requires c !in CAPITALS
    ensures ToLower(c) == c
  {
    if 'A' <= c <= 'Z' { LowerCase(c as int - 'A' as int); }
  }

  // The value of a hexadecimal digit, -1 for any other character.
  function HexDigit(c: char): (v: int)
    ensures -1 <= v < 16
  {
    if '0' <= c <= '9' then c as int - '0' as int
    else if 'a' <= c <= 'f' then c as int - 'a' as int + 10
    else if 'A' <= c <= 'F' then c as int - 'A' as int + 10
    else -1
  }

  lemma HexDigits(c: char)
    ensures HexDigit(c) >= 0 <==> c in "0123456789abcdefABCDEF"
    ensures forall d: nat | d < 16 :: c == "0123456789abcdef"[d] || c == "0123456789ABCDEF"[d] ==> HexDigit(c) == d
  {
  }

  // s has no character from bad.
  predicate Free(s: string, bad: string) {
    forall i | 0 <= i < |s| :: s[i] !in bad
  }

  // s begins with lit, letters compared without case.
  predicate StartsNoCase(s: string, lit: string) {
    |s| >= |lit| && forall i | 0 <= i < |lit| :: ToLower(s[i]) == ToLower(lit[i])
  }
}
