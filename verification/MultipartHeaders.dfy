// What the parser makes of the header lines of an item, written in any way a client may write them.

module MultipartHeaders {
  import opened Text
  import opened Splitting
  import opened Multipart
  import opened MultipartLaws
  import opened MultipartRoundTrip

  // ------------------------------------------------------------------------------------------
  // Spellings of a disposition line

  // The same letters, in whatever case.
  predicate NoCase(s: string, lit: string) {
    |s| == |lit| && forall i | 0 <= i < |lit| :: ToLower(s[i]) == ToLower(lit[i])
  }

  predicate Spaces(s: string) { forall i | 0 <= i < |s| :: IsSpace(s[i]) }

  predicate NoSpaces(s: string) { forall i | 0 <= i < |s| :: !IsSpace(s[i]) }

  // What may stand behind the quoted names: blanks, and before them a filename* of any form.
  datatype Ending =
    | Blanks(blanks: string)
    | Extended(gap: string, key: string, word: string, blanks: string)

  function EndingText(e: Ending): string {
    match e
    case Blanks(blanks) => blanks
    case Extended(gap, key, word, blanks) => ";" + (gap + (key + (word + blanks)))
  }

  predicate GoodEnding(e: Ending) {
    && Spaces(e.blanks)
    && (e.Extended? ==> Spaces(e.gap) && NoCase(e.key, "filename*=") && e.word != "" && NoSpaces(e.word))
  }

  datatype Spelling = Spelling(field: string, gap1: string, kind: string, gap2: string, nameKey: string,
                               gap3: string, fileKey: string, ending: Ending)

  predicate GoodSpelling(sp: Spelling) {
    && NoCase(sp.field, "Content-Disposition:") && NoCase(sp.kind, "form-data;")
    && NoCase(sp.nameKey, "name=\"") && NoCase(sp.fileKey, "filename=\"")
    && Spaces(sp.gap1) && Spaces(sp.gap2) && Spaces(sp.gap3) && GoodEnding(sp.ending)
  }

  // What follows the closing quote of the name.
  function AfterName(item: FormData, sp: Spelling): string {
    if item.filename == "" then EndingText(sp.ending)
    else ";" + (sp.gap3 + (sp.fileKey + (item.filename + ("\"" + EndingText(sp.ending)))))
  }

  function Disposition(item: FormData, sp: Spelling): string {
    sp.field + (sp.gap1 + (sp.kind + (sp.gap2 + (sp.nameKey + (item.name + ("\"" + AfterName(item, sp)))))))
  }

  // Names without quote, CR or LF.
  predicate PlainNames(item: FormData) { Free(item.name, "\"\r\n") && Free(item.filename, "\"\r\n") }

  lemma AfterLiteral(s: string, lit: string, rest: string)
    requires NoCase(s, lit)
    ensures AfterNoCase(s + rest, lit) == [rest]
  {
    assert (s + rest)[|lit|..] == rest;
  }

  lemma {:induction false} SkipsSpaces(gap: string, rest: string)
    requires Spaces(gap) && (rest != "" ==> !IsSpace(rest[0]))
    ensures SkipSpaces(gap + rest) == rest
  {
    if gap == "" {
      assert gap + rest == rest;
    } else {
      SkipsSpaces(gap[1..], rest);
      assert (gap + rest)[1..] == gap[1..] + rest;
    }
  }

  lemma {:induction false} SkipsWord(word: string, rest: string)
    requires NoSpaces(word) && (rest != "" ==> IsSpace(rest[0]))
    ensures SkipWord(word + rest) == rest
  {
    if word == "" {
      assert word + rest == rest;
    } else {
      SkipsWord(word[1..], rest);
      assert (word + rest)[1..] == word[1..] + rest;
    }
  }

  lemma KeyStarts(s: string, lit: string, rest: string)
    requires NoCase(s, lit) && lit != "" && lit[0] in "fFnN"
    ensures s != "" && !IsSpace((s + rest)[0])
  {
    assert ToLower(s[0]) == ToLower(lit[0]);
  }

  lemma EndingMatches(e: Ending)
    requires GoodEnding(e)
    ensures DispositionEnd(EndingText(e)) && DispositionTail(EndingText(e)) == [""]
  {
    hide StartsNoCase, IsSpace, SkipWord;
    var s := EndingText(e);
    assert e.blanks + "" == e.blanks;
    SkipsSpaces(e.blanks, "");
    if e.Extended? {
      var more := e.key + (e.word + e.blanks);
      AfterSemicolon(e.gap, more);
      KeyStarts(e.key, "filename*=", e.word + e.blanks);
      SkipsSpaces(e.gap, more);
      AfterLiteral(e.key, "filename*=", e.word + e.blanks);
      assert (e.word + e.blanks)[0] == e.word[0];
      SkipsWord(e.word, e.blanks);
      assert DispositionEnd(s);
      NotTheOtherKey(e.key, e.word + e.blanks);
    } else {
      BlanksAreNoTail(s);
    }
  }

  lemma AfterSemicolon(gap: string, more: string)
    ensures var s := ";" + (gap + more); StartsNoCase(s, ";") && s[1..] == gap + more
  {
  }

  lemma NotTheOtherKey(key: string, rest: string)
    requires NoCase(key, "filename*=")
    ensures AfterNoCase(key + rest, "filename=\"") == []
  {
    assert (key + rest)[8] == key[8] && ToLower(key[8]) == ToLower("filename*="[8]);
    assert "filename*="[8] == '*' && "filename=\""[8] == '=';
  }

  lemma BlanksAreNoTail(s: string)
    requires Spaces(s)
    ensures !StartsNoCase(s, ";")
  {
    assert s != "" ==> IsSpace(s[0]) && ToLower(s[0]) != ToLower(";"[0]);
  }

  lemma {:induction false} QuotedFilenameMatches(filename: string, tail: string, i: nat)
    requires i <= |filename| && Free(filename, "\"\r\n") && DispositionEnd(tail)
    ensures QuotedFilename(filename + ("\"" + tail), i) == [filename]
    decreases |filename| - i
  {
    hide DispositionEnd;
    var s := filename + ("\"" + tail);
    if i == |filename| {
      assert s[i + 1..] == tail && s[..i] == filename;
    } else {
      assert s[i] == filename[i];
      QuotedFilenameMatches(filename, tail, i + 1);
    }
  }

  lemma FilenameTail(item: FormData, sp: Spelling)
    requires PlainNames(item) && GoodSpelling(sp)
    ensures DispositionTail(AfterName(item, sp)) == [item.filename]
  {
    hide QuotedFilename, DispositionEnd, StartsNoCase, IsSpace, NoCase, Spaces, GoodEnding;
    EndingMatches(sp.ending);
    if item.filename != "" {
      var quoted := item.filename + ("\"" + EndingText(sp.ending));
      AfterSemicolon(sp.gap3, sp.fileKey + quoted);
      KeyStarts(sp.fileKey, "filename=\"", quoted);
      SkipsSpaces(sp.gap3, sp.fileKey + quoted);
      AfterLiteral(sp.fileKey, "filename=\"", quoted);
      QuotedFilenameMatches(item.filename, EndingText(sp.ending), 0);
    }
  }

  lemma {:induction false} QuotedNameMatches(name: string, tail: string, i: nat)
    requires i <= |name| && Free(name, "\"\r\n") && DispositionTail(tail) != []
    ensures QuotedName(name + ("\"" + tail), i) == [(name, DispositionTail(tail)[0])]
    decreases |name| - i
  {
    hide DispositionTail;
    var s := name + ("\"" + tail);
    if i == |name| {
      assert s[i + 1..] == tail && s[..i] == name;
    } else {
      assert s[i] == name[i];
      QuotedNameMatches(name, tail, i + 1);
    }
  }

  // The pattern, matched with its backtracking order, captures the name and the filename, whatever the case
  // of its words, the blanks between them, and a filename* behind them.
  lemma DispositionReads(item: FormData, sp: Spelling)
    requires PlainNames(item) && GoodSpelling(sp)
    ensures MatchDisposition(Disposition(item, sp)) == [(item.name, item.filename)]
  {
    hide QuotedName, StartsNoCase, DispositionTail, NoCase, IsSpace, Spaces, AfterName, GoodEnding;
    var tail := AfterName(item, sp);
    FilenameTail(item, sp);
    var quoted := item.name + ("\"" + tail);
    QuotedNameMatches(item.name, tail, 0);
    var c := sp.nameKey + quoted;
    var b := sp.kind + (sp.gap2 + c);
    AfterLiteral(sp.field, "Content-Disposition:", sp.gap1 + b);
    KeyStarts(sp.kind, "form-data;", sp.gap2 + c);
    SkipsSpaces(sp.gap1, b);
    AfterLiteral(sp.kind, "form-data;", sp.gap2 + c);
    KeyStarts(sp.nameKey, "name=\"", quoted);
    SkipsSpaces(sp.gap2, c);
    AfterLiteral(sp.nameKey, "name=\"", quoted);
  }

  // ------------------------------------------------------------------------------------------
  // Lines

  ghost predicate IsDisposition(line: string, item: FormData) {
    exists sp :: GoodSpelling(sp) && line == Disposition(item, sp)
  }

  // Content-Type in any case, the value with any blanks around it.
  predicate IsTypeLine(line: string, item: FormData) {
    StartsNoCase(line, "content-type:") && TrimCopy(line[|"content-type:"|..]) == item.contentType
  }

  predicate OtherLine(line: string) {
    !StartsNoCase(line, "content-type:") && !StartsNoCase(line, "content-disposition:")
  }

  ghost predicate LineOf(line: string, item: FormData) {
    IsDisposition(line, item) || IsTypeLine(line, item) || OtherLine(line)
  }

  predicate WholeLines(lines: seq<string>) {
    forall i | 0 <= i < |lines| :: lines[i] != "" && Free(lines[i], "\r\n")
  }

  // The lines of an item: its disposition, its content type if it has one, any others, in any order.
  ghost predicate Describes(lines: seq<string>, item: FormData) {
    && PlainNames(item) && WholeLines(lines)
    && (forall i | 0 <= i < |lines| :: LineOf(lines[i], item))
    && (exists i | 0 <= i < |lines| :: IsDisposition(lines[i], item))
    && (item.contentType != "" ==> exists i | 0 <= i < |lines| :: IsTypeLine(lines[i], item))
  }

  lemma DispositionHeader(file: FormData, line: string, item: FormData)
    requires PlainNames(item) && IsDisposition(line, item)
    ensures HeaderLine(file, line) == file.(name := item.name, filename := item.filename)
  {
    hide MatchDisposition, TrimCopy, GoodSpelling;
    var sp :| GoodSpelling(sp) && line == Disposition(item, sp);
    DispositionReads(item, sp);
    SpelledField(sp);
    assert line == sp.field + line[|sp.field|..];
    NotAType(sp.field, line[|sp.field|..]);
  }

  lemma SpelledField(sp: Spelling)
    requires GoodSpelling(sp)
    ensures NoCase(sp.field, "Content-Disposition:")
  {
  }

  lemma NotAType(field: string, rest: string)
    requires NoCase(field, "Content-Disposition:")
    ensures !StartsNoCase(field + rest, "content-type:")
  {
    assert "Content-Disposition:"[8] == 'D' && "content-type:"[8] == 't';
    assert ToLower((field + rest)[8]) == ToLower(field[8]) == ToLower("Content-Disposition:"[8]);
  }

  lemma TypeHeader(file: FormData, line: string, item: FormData)
    requires IsTypeLine(line, item)
    ensures HeaderLine(file, line) == file.(contentType := item.contentType)
  {
    hide MatchDisposition, TrimCopy;
  }

  lemma OtherHeader(file: FormData, line: string)
    requires OtherLine(line)
    ensures HeaderLine(file, line) == file
  {
    hide QuotedName, TrimCopy;
    SameLiteral();
  }

  lemma SameLiteral()
    ensures forall line :: StartsNoCase(line, "Content-Disposition:") <==> StartsNoCase(line, "content-disposition:")
  {
    var a, b := "Content-Disposition:", "content-disposition:";
    assert forall i | 0 <= i < |a| :: ToLower(a[i]) == ToLower(b[i]);
  }

  // ------------------------------------------------------------------------------------------
  // Header sections

  function AfterLines(file: FormData, lines: seq<string>): FormData
    decreases |lines|
  {
    if lines == [] then file else AfterLines(HeaderLine(file, lines[0]), lines[1..])
  }

  lemma LineSettles(file: FormData, line: string, item: FormData)
    requires PlainNames(item) && LineOf(line, item)
    ensures var f := HeaderLine(file, line);
      && f.content == file.content
      && (IsDisposition(line, item) || (file.name == item.name && file.filename == item.filename) ==>
            f.name == item.name && f.filename == item.filename)
      && (IsTypeLine(line, item) || file.contentType == item.contentType ==> f.contentType == item.contentType)
  {
    hide HeaderLine, IsDisposition, IsTypeLine, PlainNames;
    if IsDisposition(line, item) {
      DispositionHeader(file, line, item);
      if IsTypeLine(line, item) { TypeHeader(file, line, item); }
    } else if IsTypeLine(line, item) {
      TypeHeader(file, line, item);
    } else {
      OtherHeader(file, line);
    }
  }

  lemma {:induction false} LinesSettle(file: FormData, lines: seq<string>, item: FormData)
    requires PlainNames(item) && forall i | 0 <= i < |lines| :: LineOf(lines[i], item)
    ensures var f := AfterLines(file, lines);
      && f.content == file.content
      && ((exists i | 0 <= i < |lines| :: IsDisposition(lines[i], item))
          || (file.name == item.name && file.filename == item.filename) ==>
            f.name == item.name && f.filename == item.filename)
      && ((exists i | 0 <= i < |lines| :: IsTypeLine(lines[i], item)) || file.contentType == item.contentType ==>
            f.contentType == item.contentType)
    decreases |lines|
  {
    hide HeaderLine, IsDisposition, IsTypeLine, PlainNames, LineOf;
    if lines != [] {
      LineSettles(file, lines[0], item);
      LinesSettle(HeaderLine(file, lines[0]), lines[1..], item);
      if i :| 0 <= i < |lines| && IsDisposition(lines[i], item) {
        if i > 0 { assert IsDisposition(lines[1..][i - 1], item); }
      }
      if i :| 0 <= i < |lines| && IsTypeLine(lines[i], item) {
        if i > 0 { assert IsTypeLine(lines[1..][i - 1], item); }
      }
    }
  }

  lemma DescribedItem(lines: seq<string>, item: FormData)
    requires Describes(lines, item)
    ensures lines != [] && AfterLines(NO_FILE, lines) == item.(content := "")
  {
    hide IsDisposition, IsTypeLine, PlainNames, LineOf, AfterLines;
    LinesSettle(NO_FILE, lines, item);
  }

  // Lines, each with its end.
  function Block(lines: seq<string>): string {
    if lines == [] then "" else lines[0] + (CRLF + Block(lines[1..]))
  }

  // A line without CR ends at the CRLF that follows it.
  lemma FindLineEnd(line: string, rest: string)
    requires Free(line, "\r\n")
    ensures Find(line + (CRLF + rest), CRLF) == |line|
    ensures (line + (CRLF + rest))[..|line|] == line && (line + (CRLF + rest))[|line| + 2..] == rest
  {
    hide FindFrom;
    var w := line + (CRLF + rest);
    assert w[|line|..|line| + 2] == CRLF;
    forall i | 0 <= i < |line| ensures !OccursAt(w, CRLF, i) {
      if i + 2 <= |w| { assert w[i..i + 2][0] == line[i]; }
    }
    FirstIsUnique(w, CRLF, |line|, Find(w, CRLF));
  }

  lemma BlockThen(lines: seq<string>, rest: string)
    requires lines != []
    ensures Block(lines) + rest == lines[0] + (CRLF + (Block(lines[1..]) + rest))
  {
  }

  // Every event from index n on is an erased line.
  ghost predicate OnlyDrops(log: seq<Event>, n: nat) { forall i | n <= i < |log| :: log[i].Drop? }

  lemma {:induction false} LinesAreRead(m: Machine, accept: Callbacks, log: seq<Event>, lines: seq<string>,
                                        rest: string)
    returns (log1: seq<Event>)
    requires m.state == 2 && WholeLines(lines) && m.window == Block(lines) + rest
    ensures Headers(m, accept, log) ==
            Headers(m.(file := AfterLines(m.file, lines), window := rest), accept, log1)
    ensures log <= log1 && OnlyDrops(log1, |log|) && Parts(log1) == Parts(log)
    decreases |lines|
  {
    hide HeaderLine, FindFrom, Parts;
    if lines == [] {
      assert "" + rest == rest;
      log1 := log;
    } else {
      var line, more := lines[0], Block(lines[1..]) + rest;
      assert line != "" && Free(line, "\r\n");
      BlockThen(lines, rest);
      FindLineEnd(line, more);
      var e := Drop(m.window[..|line| + 2]);
      PartsOneMore(log, e);
      var m1 := m.(file := HeaderLine(m.file, line), window := more);
      OneLine(m, accept, log, line, more);
      log1 := LinesAreRead(m1, accept, log + [e], lines[1..], rest);
    }
  }

  lemma OneLine(m: Machine, accept: Callbacks, log: seq<Event>, line: string, more: string)
    requires m.state == 2 && m.window == line + (CRLF + more) && line != "" && Free(line, "\r\n")
    ensures Headers(m, accept, log) == Headers(m.(file := HeaderLine(m.file, line), window := more), accept,
                                               log + [Drop(m.window[..|line| + 2])])
  {
    hide HeaderLine, FindFrom;
    FindLineEnd(line, more);
  }

  // The header callback gets the item the lines describe, whatever other lines stand among them, and its
  // answer decides; too long a first line is refused.
  lemma HeaderSectionReads(m: Machine, accept: Callbacks, log: seq<Event>, lines: seq<string>, item: FormData,
                           rest: string)
    returns (log1: seq<Event>)
    requires m.state == 2 && m.file == NO_FILE && Describes(lines, item)
    requires m.window == Block(lines) + (CRLF + rest)
    ensures log <= log1 && OnlyDrops(log1, |log|) && Parts(log1) == Parts(log) && lines != []
    ensures var file := item.(content := "");
      var called := log1 + [Header(file)];
      HeaderSection(m, accept, log) ==
      if |lines[0]| > HEADER_MAX then Return(Outcome(m, false, log))
      else if accept(called) then Again(m.(state := 3, file := file, window := rest), called + [Drop(CRLF)])
      else Return(Outcome(m.(valid := false, file := file, window := CRLF + rest), false, called))
  {
    hide HeaderLine, FindFrom, Parts, AfterLines, Block, Headers;
    DescribedItem(lines, item);
    log1 := LinesAreRead(m, accept, log, lines, CRLF + rest);
    BlockThen(lines, CRLF + rest);
    assert WholeLines(lines) && Free(lines[0], "\r\n");
    FindLineEnd(lines[0], Block(lines[1..]) + (CRLF + rest));
    EmptyLine(m.(file := item.(content := ""), window := CRLF + rest), accept, log1, rest);
  }

  lemma EmptyLine(m: Machine, accept: Callbacks, log: seq<Event>, rest: string)
    requires m.state == 2 && m.window == CRLF + rest
    ensures var called := log + [Header(m.file)];
      Headers(m, accept, log) ==
      if accept(called) then Outcome(m.(state := 3, window := rest), true, called + [Drop(CRLF)])
      else Outcome(m.(valid := false), false, called)
  {
    hide FindFrom;
    FindLineEnd("", rest);
    assert "" + (CRLF + rest) == CRLF + rest;
    assert m.window[2..] == rest;
  }
}
