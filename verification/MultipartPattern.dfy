// The Content-Disposition pattern matched with its backtracking order is the pattern as it is written: which
// lines match, and which of several ways to match one counts.

module MultipartPattern {
  import opened Text
  import opened Multipart
  import opened MultipartHeaders

  // The pattern up to the opening quote of the name.
  datatype Front = Front(field: string, gap1: string, kind: string, gap2: string, nameKey: string)

  predicate GoodFront(f: Front) {
    && NoCase(f.field, "Content-Disposition:") && NoCase(f.kind, "form-data;") && NoCase(f.nameKey, "name=\"")
    && Spaces(f.gap1) && Spaces(f.gap2)
  }

  function FrontThen(f: Front, s: string): string {
    f.field + (f.gap1 + (f.kind + (f.gap2 + (f.nameKey + s))))
  }

  lemma {:induction false} SpacesSplit(s: string) returns (gap: string)
    ensures Spaces(gap) && s == gap + SkipSpaces(s)
    ensures SkipSpaces(s) != "" ==> !IsSpace(SkipSpaces(s)[0])
  {
    hide IsSpace;
    if s != "" && IsSpace(s[0]) {
      var more := SpacesSplit(s[1..]);
      gap := [s[0]] + more;
    } else {
      gap := "";
    }
  }

  lemma {:induction false} WordSplit(s: string) returns (word: string)
    ensures NoSpaces(word) && s == word + SkipWord(s) && (s != "" && !IsSpace(s[0]) ==> word != "")
  {
    hide IsSpace;
    if s != "" && !IsSpace(s[0]) {
      var more := WordSplit(s[1..]);
      word := [s[0]] + more;
    } else {
      word := "";
    }
  }

  lemma LiteralSplit(s: string, lit: string) returns (key: string)
    requires AfterNoCase(s, lit) != []
    ensures NoCase(key, lit) && s == key + AfterNoCase(s, lit)[0]
  {
    key := s[..|lit|];
  }

  // What stands behind the quoted names: blanks, or a filename* and blanks.
  lemma EndingFound(s: string) returns (e: Ending)
    requires DispositionEnd(s)
    ensures GoodEnding(e) && s == EndingText(e)
  {
    hide IsSpace, NoCase, StartsNoCase;
    var blanks := SpacesSplit(s);
    if SkipSpaces(s) == "" {
      assert blanks + "" == blanks;
      e := Blanks(blanks);
    } else {
      var gap := SpacesSplit(s[1..]);
      var rest := SkipSpaces(s[1..]);
      var key := LiteralSplit(rest, "filename*=");
      var tail := AfterNoCase(rest, "filename*=")[0];
      var word := WordSplit(tail);
      var last := SpacesSplit(SkipWord(tail));
      assert last + "" == last;
      e := Extended(gap, key, word, last);
      SemicolonSplit(s);
    }
  }

  lemma SemicolonSplit(s: string)
    requires StartsNoCase(s, ";")
    ensures s == ";" + s[1..]
  {
  }

  lemma EndingMeans(s: string)
    ensures DispositionEnd(s) <==> exists e :: GoodEnding(e) && s == EndingText(e)
  {
    hide DispositionEnd, GoodEnding, EndingText;
    if DispositionEnd(s) { var e := EndingFound(s); }
    if e :| GoodEnding(e) && s == EndingText(e) { EndingMatches(e); }
  }

  // ------------------------------------------------------------------------------------------
  // The filename

  // A quote that can close the filename: no line end before it, an ending behind it.
  predicate FileEnds(s: string, k: nat) {
    k < |s| && s[k] == '"' && Free(s[..k], "\r\n") && DispositionEnd(s[k + 1..])
  }

  lemma FreeMore(s: string, i: nat)
    requires i < |s| && Free(s[..i], "\r\n")
    ensures Free(s[..i + 1], "\r\n") <==> s[i] != '\r' && s[i] != '\n'
  {
    assert s[..i + 1] == s[..i] + [s[i]];
  }

  lemma NotFree(s: string, i: nat)
    requires i < |s| && (s[i] == '\r' || s[i] == '\n')
    ensures forall k | i < k <= |s| :: !Free(s[..k], "\r\n")
  {
    forall k | i < k <= |s| ensures !Free(s[..k], "\r\n") { assert s[..k][i] == s[i]; }
  }

  // The first quote that can close it does.
  lemma {:induction false} ShortestFilename(s: string, i: nat)
    requires i <= |s| && Free(s[..i], "\r\n") && forall j: nat | j < i :: !FileEnds(s, j)
    ensures var r := QuotedFilename(s, i);
      if r == [] then forall k: nat :: !FileEnds(s, k)
      else exists k: nat :: FileEnds(s, k) && r == [s[..k]] && forall j: nat | j < k :: !FileEnds(s, j)
    decreases |s| - i
  {
    hide DispositionEnd, Free;
    if i < |s| {
      FreeMore(s, i);
      if s[i] == '"' && DispositionEnd(s[i + 1..]) {
        assert FileEnds(s, i);
      } else if s[i] == '\r' || s[i] == '\n' {
        NotFree(s, i);
        assert forall k: nat | k > i :: !FileEnds(s, k);
      } else {
        ShortestFilename(s, i + 1);
      }
    }
  }

  // A quoted filename behind the name: it must be closed, for no other form of the tail starts so.
  lemma FileTail(gap: string, key: string, s: string)
    requires Spaces(gap) && NoCase(key, "filename=\"")
    ensures DispositionTail(";" + (gap + (key + s))) == QuotedFilename(s, 0)
  {
    hide QuotedFilename, IsSpace, StartsNoCase, SkipWord;
    var rest := key + s;
    AfterSemicolon(gap, rest);
    KeyStarts(key, "filename=\"", s);
    SkipsSpaces(gap, rest);
    AfterLiteral(key, "filename=\"", s);
    NotExtended(key, s);
    SemicolonIsNoSpace(gap + rest);
  }

  lemma NotExtended(key: string, s: string)
    requires NoCase(key, "filename=\"")
    ensures AfterNoCase(key + s, "filename*=") == []
  {
    assert (key + s)[8] == key[8] && ToLower(key[8]) == ToLower("filename=\""[8]);
    assert "filename*="[8] == '*' && "filename=\""[8] == '=';
  }

  lemma SemicolonIsNoSpace(s: string)
    ensures SkipSpaces(";" + s) != ""
  {
  }

  // A tail that matches is an ending, or a quoted filename and an ending.
  lemma TailFound(s: string) returns (gap: string, key: string, rest: string)
    requires DispositionTail(s) != []
    ensures || (DispositionTail(s) == [""] && DispositionEnd(s))
            || (Spaces(gap) && NoCase(key, "filename=\"") && s == ";" + (gap + (key + rest))
                && DispositionTail(s) == QuotedFilename(rest, 0))
  {
    hide QuotedFilename, IsSpace, NoCase, DispositionEnd;
    gap, key, rest := "", "", "";
    if StartsNoCase(s, ";") {
      gap := SpacesSplit(s[1..]);
      var u := SkipSpaces(s[1..]);
      if AfterNoCase(u, "filename=\"") != [] {
        key := LiteralSplit(u, "filename=\"");
        rest := AfterNoCase(u, "filename=\"")[0];
        SemicolonSplit(s);
      }
    }
  }

  // ------------------------------------------------------------------------------------------
  // The name

  predicate NameEnds(s: string, k: nat) {
    k < |s| && s[k] == '"' && Free(s[..k], "\r\n") && DispositionTail(s[k + 1..]) != []
  }

  lemma {:induction false} ShortestName(s: string, i: nat)
    requires i <= |s| && Free(s[..i], "\r\n") && forall j: nat | j < i :: !NameEnds(s, j)
    ensures var r := QuotedName(s, i);
      if r == [] then forall k: nat :: !NameEnds(s, k)
      else exists k: nat :: NameEnds(s, k) && r == [(s[..k], DispositionTail(s[k + 1..])[0])]
                            && forall j: nat | j < k :: !NameEnds(s, j)
    decreases |s| - i
  {
    hide DispositionTail, Free;
    if i < |s| {
      FreeMore(s, i);
      if s[i] == '"' && DispositionTail(s[i + 1..]) != [] {
        assert NameEnds(s, i);
      } else if s[i] == '\r' || s[i] == '\n' {
        NotFree(s, i);
        assert forall k: nat | k > i :: !NameEnds(s, k);
      } else {
        ShortestName(s, i + 1);
      }
    }
  }

  lemma FrontMatches(f: Front, s: string)
    requires GoodFront(f)
    ensures MatchDisposition(FrontThen(f, s)) == QuotedName(s, 0)
  {
    hide QuotedName, StartsNoCase, NoCase, IsSpace, Spaces;
    var c := f.nameKey + s;
    var b := f.kind + (f.gap2 + c);
    AfterLiteral(f.field, "Content-Disposition:", f.gap1 + b);
    KeyStarts(f.kind, "form-data;", f.gap2 + c);
    SkipsSpaces(f.gap1, b);
    AfterLiteral(f.kind, "form-data;", f.gap2 + c);
    KeyStarts(f.nameKey, "name=\"", s);
    SkipsSpaces(f.gap2, c);
    AfterLiteral(f.nameKey, "name=\"", s);
  }

  lemma FrontFound(line: string) returns (f: Front, s: string)
    requires MatchDisposition(line) != []
    ensures GoodFront(f) && line == FrontThen(f, s)
  {
    hide QuotedName, NoCase, IsSpace, Spaces, SkipSpaces, AfterNoCase;
    var a := AfterNoCase(line, "Content-Disposition:")[0];
    var b := AfterNoCase(SkipSpaces(a), "form-data;")[0];
    var field := LiteralSplit(line, "Content-Disposition:");
    var gap1 := SpacesSplit(a);
    var kind := LiteralSplit(SkipSpaces(a), "form-data;");
    var gap2 := SpacesSplit(b);
    var nameKey := LiteralSplit(SkipSpaces(b), "name=\"");
    s := AfterNoCase(SkipSpaces(b), "name=\"")[0];
    f := Front(field, gap1, kind, gap2, nameKey);
  }

  // A line matches exactly when it is the front of the pattern and has a quote that can close the name; the
  // first such quote does, and what stands behind it gives the filename.
  lemma PatternMeans(line: string)
    ensures var r := MatchDisposition(line);
      if r == [] then forall f, s, k: nat | GoodFront(f) && line == FrontThen(f, s) :: !NameEnds(s, k)
      else exists f, s, k: nat :: GoodFront(f) && line == FrontThen(f, s) && NameEnds(s, k)
             && r == [(s[..k], DispositionTail(s[k + 1..])[0])] && forall j: nat | j < k :: !NameEnds(s, j)
  {
    hide MatchDisposition, NameEnds, GoodFront, FrontThen, QuotedName;
    var r := MatchDisposition(line);
    if r == [] {
      forall f, s, k: nat | GoodFront(f) && line == FrontThen(f, s) ensures !NameEnds(s, k) {
        FrontMatches(f, s);
        ShortestName(s, 0);
      }
    } else {
      var f, s := FrontFound(line);
      FrontMatches(f, s);
      ShortestName(s, 0);
    }
  }

  // A disposition line that the pattern does not match, such as one of another kind, changes nothing.
  lemma UnmatchedLine(file: FormData, line: string)
    requires StartsNoCase(line, "content-disposition:")
    requires forall f, s, k: nat | GoodFront(f) && line == FrontThen(f, s) :: !NameEnds(s, k)
    ensures HeaderLine(file, line) == file
  {
    hide MatchDisposition, NameEnds, GoodFront, FrontThen;
    PatternMeans(line);
    NotBoth(line);
  }

  lemma NotBoth(line: string)
    requires StartsNoCase(line, "content-disposition:")
    ensures !StartsNoCase(line, "content-type:")
  {
    assert "content-disposition:"[8] == 'd' && "content-type:"[8] == 't';
  }
}
