// Parsing a body gives its items back, exactly when no content holds the delimiter: for what the client
// prints, and for items whose header lines are written in any other way.

module MultipartPrinting {
  import opened Text
  import opened Splitting
  import opened Multipart
  import opened MultipartLaws
  import opened MultipartRoundTrip
  import opened MultipartHeaders

  predicate HoldsDelimiter(boundary: string, item: FormData) {
    Find(item.content, Delimiter(boundary)) < |item.content|
  }

  // ------------------------------------------------------------------------------------------
  // Contents

  // The delimiter overlaps no shifted copy of itself, because CR occurs in it only once.
  lemma DelimiterEndsContent(boundary: string, content: string, rest: string)
    requires '\r' !in boundary
    ensures var delim := Delimiter(boundary);
      var w := content + (delim + rest);
      && Find(w, delim) == Find(content, delim)
      && Find(w, delim) + |delim| <= |w|
      && (Find(w, delim) == |content| ==> w[..|content|] == content && w[|content| + |delim|..] == rest)
  {
    hide FindFrom;
    var delim := Delimiter(boundary);
    var w := content + (delim + rest);
    var d := Find(content, delim);
    assert w[|content|..|content| + |delim|] == delim;
    if d < |content| {
      assert w[d..d + |delim|] == content[d..d + |delim|];
    }
    forall i | 0 <= i < d ensures !OccursAt(w, delim, i) {
      if i + |delim| <= |content| {
        assert w[i..i + |delim|] == content[i..i + |delim|];
        assert !OccursAt(content, delim, i);
      } else if i + |delim| <= |w| {
        var k := |content| - i;
        assert w[i..i + |delim|][k] == '\r';
        assert delim[k] != '\r';
      }
    }
    FirstIsUnique(w, delim, d, Find(w, delim));
  }

  // ------------------------------------------------------------------------------------------
  // Bodies as any client may write them

  // An item and the lines that describe it.
  datatype Written = Written(item: FormData, lines: seq<string>)

  // The first line of a section is the one that is measured when it arrives whole.
  ghost predicate PlainPart(w: Written) {
    Describes(w.lines, w.item) && w.lines != [] && |w.lines[0]| <= HEADER_MAX
  }

  function Items(parts: seq<Written>): seq<FormData> {
    if parts == [] then [] else [parts[0].item] + Items(parts[1..])
  }

  // One item, its opening delimiter line included.
  function WriteItem(boundary: string, w: Written): string {
    (DASH + boundary + CRLF) + (Block(w.lines) + (CRLF + (w.item.content + CRLF)))
  }

  function WriteItems(boundary: string, parts: seq<Written>): string {
    if parts == [] then "" else WriteItem(boundary, parts[0]) + WriteItems(boundary, parts[1..])
  }

  function WriteBody(boundary: string, parts: seq<Written>): string {
    WriteItems(boundary, parts) + ClosingLine(boundary)
  }

  // Everything after the delimiter line of the first item.
  function ItemText(boundary: string, parts: seq<Written>): string
    requires parts != []
    decreases |parts|, 0
  {
    Block(parts[0].lines) + (CRLF +
      (parts[0].item.content + (Delimiter(boundary) + AfterItem(boundary, parts[1..]))))
  }

  // What follows the delimiter that ends an item.
  function AfterItem(boundary: string, parts: seq<Written>): string
    decreases |parts|, 1
  {
    if parts == [] then DASH_CRLF else CRLF + ItemText(boundary, parts)
  }

  lemma {:induction false} BodyShape(boundary: string, parts: seq<Written>)
    requires parts != []
    ensures WriteBody(boundary, parts) == (DASH + boundary + CRLF) + ItemText(boundary, parts)
    decreases |parts|, 0
  {
    hide Block, Delimiter, AfterItem, ClosingLine;
    AfterShape(boundary, parts[1..]);
    MoveLast(DASH + boundary + CRLF, Block(parts[0].lines), CRLF, parts[0].item.content,
             WriteBody(boundary, parts[1..]));
    FirstWritten(boundary, parts);
  }

  lemma {:induction false} AfterShape(boundary: string, parts: seq<Written>)
    ensures CRLF + WriteBody(boundary, parts) == Delimiter(boundary) + AfterItem(boundary, parts)
    decreases |parts|, 1
  {
    hide Block, ItemText, WriteItem;
    if parts == [] {
      assert WriteBody(boundary, parts) == DASH + boundary + DASH_CRLF;
    } else {
      hide WriteBody, WriteItems;
      BodyShape(boundary, parts);
      NewlineOpens(boundary, ItemText(boundary, parts));
    }
  }

  lemma FirstWritten(boundary: string, parts: seq<Written>)
    requires parts != []
    ensures WriteBody(boundary, parts) == WriteItem(boundary, parts[0]) + WriteBody(boundary, parts[1..])
  {
    hide WriteItem, ClosingLine;
  }

  lemma NewlineOpens(boundary: string, text: string)
    ensures CRLF + ((DASH + boundary + CRLF) + text) == Delimiter(boundary) + (CRLF + text)
  {
  }

  lemma MoveLast(o: string, a: string, n: string, c: string, z: string)
    ensures (o + (a + (n + (c + n)))) + z == o + (a + (n + (c + (n + z))))
  {
    assert ((c + n) + z) == c + (n + z);
    assert (a + (n + (c + n))) + z == a + (n + (c + (n + z)));
  }

  ghost predicate AllItems(o: Outcome, before: seq<FormData>, items: seq<FormData>) {
    && o.ok && o.m.state == 5 && o.m.valid && o.m.window == ""
    && Parts(o.log) == before + items
  }

  // One item from state 1: a turn for its headers, then one for its body.
  lemma ItemTurns(boundary: string, m: Machine, accept: Callbacks, log: seq<Event>, parts: seq<Written>)
    returns (body: Machine, log1: seq<Event>, next: Machine, log2: seq<Event>, content: string)
    requires parts != [] && m.state == 1 && m.window == ItemText(boundary, parts)
    requires Accepting(accept) && '\r' !in boundary && PlainPart(parts[0])
    ensures m.window != "" && HeaderSection(m.(state := 2, file := NO_FILE), accept, log) == Again(body, log1)
    ensures body.state == 3 && Find(body.window, Delimiter(boundary)) < |body.window|
    ensures body.window == parts[0].item.content + (Delimiter(boundary) + AfterItem(boundary, parts[1..]))
    ensures BodyText(boundary, body, accept, log1) == Again(next, log2) && next.state == 4
    ensures Parts(log2) == Parts(log) + [parts[0].item.(content := content)]
    ensures HoldsDelimiter(boundary, parts[0].item) ==> |content| < |parts[0].item.content|
    ensures !HoldsDelimiter(boundary, parts[0].item) ==>
      content == parts[0].item.content && next.window == AfterItem(boundary, parts[1..]) && next.valid == m.valid
  {
    hide FindFrom, OccursAt, HeaderSection, BodyText, Delimiter, Parts, Describes, Block;
    var item := parts[0].item;
    var rest := item.content + (Delimiter(boundary) + AfterItem(boundary, parts[1..]));
    assert m.window != "" by { NonEmptyItem(boundary, parts); }
    var m2 := m.(state := 2, file := NO_FILE);
    ItemHeaders(m2, accept, log, parts[0], rest);
    var t2 := HeaderSection(m2, accept, log);
    DelimiterEndsContent(boundary, item.content, AfterItem(boundary, parts[1..]));
    DelimiterNonEmpty(boundary);
    BodyFound(boundary, t2.next, accept, t2.log);
    var t3 := BodyText(boundary, t2.next, accept, t2.log);
    content := rest[..Find(rest, Delimiter(boundary))];
    FillLast(Parts(log), item, content);
    return t2.next, t2.log, t3.next, t3.log, content;
  }

  // The header lines of one item and the empty line.
  lemma ItemHeaders(m: Machine, accept: Callbacks, log: seq<Event>, w: Written, rest: string)
    requires m.state == 2 && m.file == NO_FILE && Accepting(accept) && PlainPart(w)
    requires m.window == Block(w.lines) + (CRLF + rest)
    ensures var t := HeaderSection(m, accept, log);
      && t.Again? && t.next == m.(state := 3, file := w.item.(content := ""), window := rest)
      && Parts(t.log) == Parts(log) + [w.item.(content := "")]
  {
    hide HeaderSection, Parts, Block, Describes;
    var log1 := HeaderSectionReads(m, accept, log, w.lines, w.item, rest);
    var called := log1 + [Header(w.item.(content := ""))];
    PartsOneMore(log1, Header(w.item.(content := "")));
    PartsOneMore(called, Drop(CRLF));
  }

  lemma DelimiterNonEmpty(boundary: string)
    ensures |Delimiter(boundary)| >= 4
  {
  }

  lemma RunItem(boundary: string, m: Machine, accept: Callbacks, log: seq<Event>, parts: seq<Written>)
    returns (next: Machine, log2: seq<Event>, content: string)
    requires parts != [] && m.state == 1 && m.window == ItemText(boundary, parts)
    requires Accepting(accept) && '\r' !in boundary && PlainPart(parts[0])
    ensures next.state == 4 && Run(boundary, m, accept, log) == Run(boundary, next, accept, log2)
    ensures Parts(log2) == Parts(log) + [parts[0].item.(content := content)]
    ensures HoldsDelimiter(boundary, parts[0].item) ==> |content| < |parts[0].item.content|
    ensures !HoldsDelimiter(boundary, parts[0].item) ==>
      content == parts[0].item.content && next.window == AfterItem(boundary, parts[1..]) && next.valid == m.valid
  {
    hide ItemText, HeaderSection, BodyText, Parts, PlainPart, HoldsDelimiter, Find;
    var body, log1;
    body, log1, next, log2, content := ItemTurns(boundary, m, accept, log, parts);
    var m2 := m.(state := 2, file := NO_FILE);
    TwoTurns(boundary, m2, accept, log, body, log1);
    assert TakeTurn(boundary, m, accept, log) == Again(m2, log);
    assert Run(boundary, m, accept, log) == Run(boundary, m2, accept, log);
  }

  // A header turn followed by a body turn.
  lemma TwoTurns(boundary: string, m: Machine, accept: Callbacks, log: seq<Event>, body: Machine, log1: seq<Event>)
    requires m.state == 2 && m.window != "" && HeaderSection(m, accept, log) == Again(body, log1)
    requires body.state == 3 && body.window != "" && BodyText(boundary, body, accept, log1).Again?
    requires BodyText(boundary, body, accept, log1).next.state <= 5
    ensures var t := BodyText(boundary, body, accept, log1);
      Run(boundary, m, accept, log) == Run(boundary, t.next, accept, t.log)
  {
    hide HeaderSection, BodyText;
  }

  lemma FillLast(parts: seq<FormData>, item: FormData, content: string)
    ensures AddContent(parts + [item.(content := "")], content) == parts + [item.(content := content)]
  {
    assert "" + content == content;
  }

  lemma NonEmptyItem(boundary: string, parts: seq<Written>)
    requires parts != []
    ensures ItemText(boundary, parts) != ""
  {
  }

  ghost predicate AllPlainParts(parts: seq<Written>) { forall i | 0 <= i < |parts| :: PlainPart(parts[i]) }

  ghost predicate NoneHoldsDelimiter(boundary: string, parts: seq<Written>) {
    forall i | 0 <= i < |parts| :: !HoldsDelimiter(boundary, parts[i].item)
  }

  lemma FirstPart(boundary: string, parts: seq<Written>)
    requires parts != []
    ensures AllPlainParts(parts) <==> PlainPart(parts[0]) && AllPlainParts(parts[1..])
    ensures NoneHoldsDelimiter(boundary, parts) <==>
      !HoldsDelimiter(boundary, parts[0].item) && NoneHoldsDelimiter(boundary, parts[1..])
  {
    hide PlainPart, HoldsDelimiter;
    assert parts == [parts[0]] + parts[1..];
  }

  lemma {:induction false} RunItems(boundary: string, m: Machine, accept: Callbacks,
                                    log: seq<Event>, parts: seq<Written>)
    requires parts != [] && m.state == 1 && m.window == ItemText(boundary, parts)
    requires Accepting(accept) && '\r' !in boundary && AllPlainParts(parts)
    ensures AllItems(Run(boundary, m, accept, log), Parts(log), Items(parts)) <==> NoneHoldsDelimiter(boundary, parts)
    decreases |parts|, 0
  {
    hide Delimiter, Parts, PlainPart, TakeTurn, HoldsDelimiter, ItemText, AllPlainParts, NoneHoldsDelimiter, Run;
    FirstPart(boundary, parts);
    var item, rest := parts[0].item, Items(parts[1..]);
    var next, log1, content := RunItem(boundary, m, accept, log, parts);
    var o := Run(boundary, m, accept, log);
    if HoldsDelimiter(boundary, item) {
      RunParts(boundary, next, accept, log1);
      assert Parts(o.log)[|Parts(log)|].content == content;
      assert (Parts(log) + Items(parts))[|Parts(log)|] == item;
    } else {
      assert item.(content := content) == item;
      AfterFirst(boundary, next, accept, log1, parts[1..]);
      assert Parts(log) + ([item] + rest) == Parts(log) + [item] + rest;
    }
  }

  lemma {:induction false} AfterFirst(boundary: string, m: Machine, accept: Callbacks,
                                      log: seq<Event>, parts: seq<Written>)
    requires m.state == 4 && m.window == AfterItem(boundary, parts)
    requires Accepting(accept) && '\r' !in boundary && AllPlainParts(parts)
    ensures AllItems(Run(boundary, m, accept, log), Parts(log), Items(parts)) <==> NoneHoldsDelimiter(boundary, parts)
    decreases |parts|, 1
  {
    hide Delimiter, Parts, PlainPart, HoldsDelimiter, ItemText, AllPlainParts, Find;
    if parts == [] {
      ClosingParses(boundary, m, accept, log);
      assert Parts(log) + [] == Parts(log);
    } else {
      PartsOneMore(log, Drop(CRLF));
      var m1 := m.(state := 1, window := ItemText(boundary, parts));
      assert (CRLF + ItemText(boundary, parts))[2..] == ItemText(boundary, parts);
      RunItems(boundary, m1, accept, log + [Drop(CRLF)], parts);
    }
  }

  lemma ClosingParses(boundary: string, m: Machine, accept: Callbacks, log: seq<Event>)
    requires m.state == 4 && m.window == DASH_CRLF
    ensures var o := Run(boundary, m, accept, log);
      o.ok && o.m == m.(state := 5, valid := true, window := "") && Parts(o.log) == Parts(log)
  {
    hide Parts;
    PartsOneMore(log, Drop(DASH_CRLF));
    assert DASH_CRLF[0] == '-' && CRLF[0] == '\r';
    assert DASH_CRLF[|DASH_CRLF|..] == "";
  }

  // Feeding a body to a fresh parser in one call, its header lines in any spelling and order, among any
  // other lines.
  lemma WrittenBodyParses(boundary: string, parts: seq<Written>, accept: Callbacks)
    requires '\r' !in boundary && Accepting(accept) && AllPlainParts(parts)
    ensures AllItems(ParseCall(boundary, START, accept, WriteBody(boundary, parts), []), [], Items(parts))
      <==> parts != [] && NoneHoldsDelimiter(boundary, parts)
  {
    hide AllPlainParts, NoneHoldsDelimiter, ItemText, Parts;
    var body := WriteBody(boundary, parts);
    var first := DASH + boundary + CRLF;
    var m := START.(window := body);
    assert START.window + body == body;
    if parts == [] {
      assert body == DASH + boundary + DASH_CRLF;
      assert !(first <= body) by {
        assert first[|DASH + boundary|] == '\r' && body[|DASH + boundary|] == '-';
      }
    } else {
      BodyShape(boundary, parts);
      assert body[|first|..] == ItemText(boundary, parts);
      var log1 := [Drop(first)];
      PartsOneMore([], Drop(first));
      assert [] + [Drop(first)] == log1;
      assert Parts([]) == [] by { EmptyLog(); }
      RunItems(boundary, m.(state := 1, window := ItemText(boundary, parts)), accept, log1, parts);
    }
  }

  lemma EmptyLog()
    ensures Parts([]) == []
  {
  }

  // ------------------------------------------------------------------------------------------
  // What the client prints

  // The header fields of an item survive printing: names without quote, CR or LF, a trimmed
  // content type without CR or LF, a disposition line within the limit.
  predicate PlainHeaders(item: FormData) {
    && PlainNames(item)
    && Free(item.contentType, "\r\n") && Trimmed(item.contentType)
    && |DispositionLine(item)| <= HEADER_MAX
  }

  // The lines Post prints.
  function PrintedLines(item: FormData): seq<string> {
    if item.contentType == "" then [DispositionLine(item)]
    else [DispositionLine(item), "Content-Type: " + item.contentType]
  }

  function Posted(items: seq<FormData>): seq<Written> {
    if items == [] then [] else [Written(items[0], PrintedLines(items[0]))] + Posted(items[1..])
  }

  const PRINTED := Spelling("Content-Disposition:", " ", "form-data;", " ", "name=\"", " ", "filename=\"", Blanks(""))

  lemma DispositionShape(item: FormData)
    ensures DispositionLine(item) == Disposition(item, PRINTED)
  {
    hide AfterName;
    var lit := "Content-Disposition: form-data; name=\"";
    var tail := AfterName(item, PRINTED);
    assert lit == "Content-Disposition:" + (" " + ("form-data;" + (" " + "name=\"")));
    TailShape(item);
    assert DispositionLine(item) == lit + (item.name + ("\"" + tail));
    Reassociate("Content-Disposition:", " ", "form-data;", "name=\"", item.name + ("\"" + tail));
  }

  lemma TailShape(item: FormData)
    ensures AfterName(item, PRINTED) == if item.filename == "" then "" else "; filename=\"" + item.filename + "\""
  {
    if item.filename != "" {
      assert "; filename=\"" == ";" + (" " + "filename=\"") && "\"" + "" == "\"";
    }
  }

  lemma Reassociate(a: string, b: string, c: string, d: string, e: string)
    ensures (a + (b + (c + (b + d)))) + e == a + (b + (c + (b + (d + e))))
  {
  }

  lemma PrintedSpelling()
    ensures GoodSpelling(PRINTED)
  {
  }

  lemma DispositionMatches(item: FormData)
    requires PlainHeaders(item)
    ensures MatchDisposition(DispositionLine(item)) == [(item.name, item.filename)]
  {
    hide MatchDisposition, GoodSpelling;
    PrintedSpelling();
    DispositionShape(item);
    DispositionReads(item, PRINTED);
  }

  lemma DispositionLineFree(item: FormData)
    requires PlainNames(item)
    ensures Free(DispositionLine(item), "\r\n") && DispositionLine(item) != ""
  {
    FreeConcat("Content-Disposition: form-data; name=\"", item.name);
    FreeConcat("Content-Disposition: form-data; name=\"" + item.name, "\"");
    if item.filename == "" {
      assert DispositionLine(item) == "Content-Disposition: form-data; name=\"" + item.name + "\"";
    } else {
      FreeConcat("; filename=\"", item.filename);
      FreeConcat("; filename=\"" + item.filename, "\"");
      FreeConcat("Content-Disposition: form-data; name=\"" + item.name + "\"", "; filename=\"" + item.filename + "\"");
    }
  }

  lemma FreeConcat(a: string, b: string)
    requires Free(a, "\r\n") && (Free(b, "\r\n") || Free(b, "\"\r\n"))
    ensures Free(a + b, "\r\n")
  {
    assert forall c: char :: c in "\r\n" ==> c in "\"\r\n";
  }

  lemma PrintedTypeLine(item: FormData)
    requires Trimmed(item.contentType)
    ensures IsTypeLine("Content-Type: " + item.contentType, item)
  {
    hide TrimCopy;
    var line := "Content-Type: " + item.contentType;
    assert line[|"content-type:"|..] == " " + item.contentType;
    TrimCopyLeadingBlank(item.contentType);
    var a := "Content-Type:";
    assert forall i | 0 <= i < |a| :: line[i] == a[i] && ToLower(a[i]) == ToLower("content-type:"[i]);
  }

  lemma PrintedIsPlain(item: FormData)
    requires PlainHeaders(item)
    ensures PlainPart(Written(item, PrintedLines(item)))
  {
    hide DispositionLine, IsTypeLine, GoodSpelling, Disposition, PlainNames;
    var lines := PrintedLines(item);
    PrintedSpelling();
    DispositionShape(item);
    DispositionLineFree(item);
    assert IsDisposition(lines[0], item);
    assert Free("Content-Type: " + item.contentType, "\r\n");
    if item.contentType != "" {
      PrintedTypeLine(item);
      assert IsTypeLine(lines[1], item);
    }
  }

  lemma PostedIsWritten(boundary: string, items: seq<FormData>)
    ensures PrintItems(boundary, items) == WriteItems(boundary, Posted(items)) && Items(Posted(items)) == items
    ensures |Posted(items)| == |items|
    ensures forall i | 0 <= i < |items| :: Posted(items)[i] == Written(items[i], PrintedLines(items[i]))
  {
    hide *;
    PostedText(boundary, items);
    PostedAt(items);
  }

  lemma {:induction false} PostedText(boundary: string, items: seq<FormData>)
    ensures PrintItems(boundary, items) == WriteItems(boundary, Posted(items))
    decreases |items|
  {
    hide PrintItem, WriteItem, PrintedLines;
    if items != [] {
      OnePosted(boundary, items[0]);
      PostedText(boundary, items[1..]);
      assert Posted(items)[1..] == Posted(items[1..]);
    }
  }

  lemma {:induction false} PostedAt(items: seq<FormData>)
    ensures Items(Posted(items)) == items && |Posted(items)| == |items|
    ensures forall i | 0 <= i < |items| :: Posted(items)[i] == Written(items[i], PrintedLines(items[i]))
    decreases |items|
  {
    hide PrintedLines;
    if items != [] {
      PostedAt(items[1..]);
      assert Posted(items)[1..] == Posted(items[1..]);
    }
  }

  lemma OnePosted(boundary: string, item: FormData)
    ensures PrintItem(boundary, item) == WriteItem(boundary, Written(item, PrintedLines(item)))
  {
    hide DispositionLine;
    PrintedBlock(item, CRLF + (item.content + CRLF));
  }

  lemma PrintedBlock(item: FormData, rest: string)
    ensures Block(PrintedLines(item)) + rest == DispositionLine(item) + (CRLF + (ContentTypeLine(item) + rest))
  {
    hide DispositionLine;
    var line, lines := DispositionLine(item), PrintedLines(item);
    NoLines();
    BlockThen(lines, rest);
    if item.contentType == "" {
      assert lines[1..] == [] && "" + rest == rest;
    } else {
      var second := "Content-Type: " + item.contentType;
      assert lines[1..] == [second] && [second][1..] == [] && "" + rest == rest;
      BlockThen([second], rest);
      assert second + (CRLF + rest) == (second + CRLF) + rest;
    }
  }

  lemma NoLines()
    ensures Block([]) == ""
  {
  }

  lemma PostedIsPlain(boundary: string, items: seq<FormData>)
    requires forall item | item in items :: PlainHeaders(item)
    ensures AllPlainParts(Posted(items))
    ensures NoneHoldsDelimiter(boundary, Posted(items)) <==>
      forall item | item in items :: !HoldsDelimiter(boundary, item)
  {
    hide PlainHeaders, PlainPart, HoldsDelimiter, PrintedLines;
    PostedIsWritten(boundary, items);
    forall i | 0 <= i < |items| ensures PlainPart(Posted(items)[i]) {
      assert items[i] in items;
      PrintedIsPlain(items[i]);
    }
    assert forall i | 0 <= i < |items| :: Posted(items)[i].item == items[i];
  }

  // Feeding a printed body to a fresh parser in one call.
  lemma PrintedBodyParses(boundary: string, items: seq<FormData>, accept: Callbacks)
    requires BoundaryChars(boundary) && Accepting(accept) && forall item | item in items :: PlainHeaders(item)
    ensures AllItems(ParseCall(boundary, START, accept, PrintBody(boundary, items), []), [], items)
      <==> items != [] && forall item | item in items :: !HoldsDelimiter(boundary, item)
  {
    hide PlainHeaders, HoldsDelimiter, AllPlainParts, NoneHoldsDelimiter, ParseCall, Parts, Posted;
    assert '\r' !in boundary;
    PostedIsPlain(boundary, items);
    PostedIsWritten(boundary, items);
    WrittenBodyParses(boundary, Posted(items), accept);
  }

  // ------------------------------------------------------------------------------------------
  // Cuts

  // The code does not promise that cutting the input is harmless.  Here the first call ends right
  // after the CR LF that opens the delimiter: the whole input completes the item, the two calls
  // take that CR LF for content and never see the end of the body.
  lemma CutAfterLineEndLosesDelimiter(boundary: string, m: Machine, accept: Callbacks, log: seq<Event>, text: string)
    requires m.state == 3 && m.window == text + CRLF && |text| >= 2 && '\r' !in text
    requires '\r' !in boundary && Accepting(accept)
    ensures var more := DASH + boundary + DASH_CRLF;
      var whole := Run(boundary, Extend(m, more), accept, log);
      var first := Run(boundary, m, accept, log);
      && whole.m.state == 5 && whole.m.valid
      && first.ok && first.m.state == 3
      && Run(boundary, Extend(first.m, more), accept, first.log).m.state == 3
  {
    hide Run, Find, BodyText;
    var more := DASH + boundary + DASH_CRLF;
    assert m.window + more == text + (Delimiter(boundary) + DASH_CRLF);
    WholeInputParses(boundary, Extend(m, more), accept, log, text);
    NoMatch(text, CRLF, Delimiter(boundary));
    NoMatch(text, CRLF, CRLF_DASH);
    NoCandidate(boundary, m, accept, log, text);
    var first := Run(boundary, m, accept, log);
    assert first.m.window + more == (DASH + boundary + DASH) + CRLF;
    NoMatch(DASH + boundary + DASH, CRLF, Delimiter(boundary));
    NoDelimiterStaysInBody(boundary, Extend(first.m, more), accept, first.log);
  }

  lemma WholeInputParses(boundary: string, m: Machine, accept: Callbacks, log: seq<Event>, text: string)
    requires m.state == 3 && m.window == text + (Delimiter(boundary) + DASH_CRLF)
    requires '\r' !in text && '\r' !in boundary && Accepting(accept)
    ensures var o := Run(boundary, m, accept, log); o.m.state == 5 && o.m.valid
  {
    hide Run, Find, BodyText;
    NoMatch(text, "", Delimiter(boundary));
    assert text + "" == text;
    DelimiterEndsContent(boundary, text, DASH_CRLF);
    BodyFound(boundary, m, accept, log);
    OneTurn(boundary, m, accept, log);
    var t := BodyText(boundary, m, accept, log);
    ClosingParses(boundary, t.next, accept, t.log);
  }

  // A pattern of three or more characters led by CR does not occur where CR is at most last but one.
  lemma NoMatch(x: string, end: string, p: string)
    requires '\r' !in x && |end| <= 2 < |p| && p[0] == '\r'
    ensures Find(x + end, p) == |x + end|
  {
  }

  lemma NoCandidate(boundary: string, m: Machine, accept: Callbacks, log: seq<Event>, text: string)
    requires m.state == 3 && m.window == text + CRLF && |text| >= 2 && Accepting(accept)
    requires Find(m.window, CRLF_DASH) == |m.window|
    ensures var first := Run(boundary, m, accept, log);
      first.ok && first.m.state == 3 && first.m.window == ""
  {
    hide FindFrom;
    assert m.window[|m.window|..] == "";
  }
}
