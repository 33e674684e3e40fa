// Header fields as one side writes them and the other reads them.

module MessageHead {
  import opened Text
  import opened Splitting
  import opened Streams
  import opened Multimap
  import opened UrlCodec
  import opened Query
  import opened Chunked

  const HEADER_LINE_BUFSIZ: nat := 2048

  // detail::ci: lexicographic order of lower-cased keys.
  predicate LessNoCase(a: string, b: string) {
    b != "" && (a == "" || ToLower(a[0]) < ToLower(b[0])
                || (ToLower(a[0]) == ToLower(b[0]) && LessNoCase(a[1..], b[1..])))
  }

  function Lower(s: string): string { seq(|s|, i requires 0 <= i < |s| => ToLower(s[i])) }

  // It is the order of query keys on the lower-cased texts.
  lemma {:induction false} LessNoCaseIsLower(a: string, b: string)
    ensures LessNoCase(a, b) == Less(Lower(a), Lower(b))
  {
    if a != "" && b != "" {
      LessNoCaseIsLower(a[1..], b[1..]);
      assert Lower(a)[1..] == Lower(a[1..]) && Lower(b)[1..] == Lower(b[1..]);
    }
  }

  lemma LessNoCaseIsStrictWeak()
    ensures StrictWeak(LessNoCase)
  {
    forall a, b | LessNoCase(a, b) ensures !LessNoCase(b, a) {
      LessNoCaseIsLower(a, b);
      LessNoCaseIsLower(b, a);
      LessIsAsymmetric(Lower(a), Lower(b));
    }
    forall a, b, c | LessNoCase(a, c) ensures LessNoCase(a, b) || LessNoCase(b, c) {
      LessNoCaseIsLower(a, b);
      LessNoCaseIsLower(b, c);
      LessNoCaseIsLower(a, c);
      LessIsWeak(Lower(a), Lower(b), Lower(c));
    }
  }

  // ------------------------------------------------------------------------------------------
  // Printing

  function HeaderText(h: Entry): string {
    CString(h.0) + ": " + CString(h.1) + CRLF
  }

  function HeadText(headers: seq<Entry>): string {
    if headers == [] then CRLF else HeaderText(headers[0]) + HeadText(headers[1..])
  }

  // write_headers on a buffer stream, where no write fails.
  method WriteHeaders(headers: seq<Entry>) returns (text: string, writeLen: nat)
    ensures text == HeadText(headers) && writeLen == |text|
  {
    hide CString;
    text, writeLen := "", 0;
    for i := 0 to |headers|
      invariant text + HeadText(headers[i..]) == HeadText(headers) && writeLen == |text|
    {
      assert headers[i..][1..] == headers[i + 1..];
      var line := CString(headers[i].0) + ": " + CString(headers[i].1) + "\r\n";
      text := text + line;
      writeLen := writeLen + |line|;
    }
    text := text + "\r\n";
    writeLen := writeLen + 2;
  }

  // ------------------------------------------------------------------------------------------
  // Parsing

  function ColonFrom(line: string, p: nat, end: nat): (r: nat)
    requires p <= end <= |line|
    ensures p <= r <= end && (r < end ==> line[r] == ':')
    ensures forall i | p <= i < r :: line[i] != ':'
    decreases end - p
  {
    if p < end && line[p] != ':' then ColonFrom(line, p + 1, end) else p
  }

  function SkipBlanksTo(line: string, p: nat, end: nat): (r: nat)
    requires p <= end <= |line|
    ensures p <= r <= end
    decreases end - p
  {
    if p < end && IsSpaceOrTab(line[p]) then SkipBlanksTo(line, p + 1, end) else p
  }

  function ParsedHeader(line: string): seq<Entry> {
    var end := DropBlanks(line, |line|);
    var colon := ColonFrom(line, 0, end);
    if colon == end then []
    else
      var p := SkipBlanksTo(line, colon + 1, end);
      if p < end then [(line[..colon], Decode(line[p..end], false))] else []
  }

  method ParseHeader(line: string) returns (entry: seq<Entry>)
    ensures entry == ParsedHeader(line)
  {
    hide Decode;
    var end := |line|;
    while 0 < end && IsSpaceOrTab(line[end - 1])
      invariant 0 <= end <= |line| && DropBlanks(line, end) == DropBlanks(line, |line|)
    {
      end := end - 1;
    }
    var p := 0;
    while p < end && line[p] != ':'
      invariant 0 <= p <= end && ColonFrom(line, p, end) == ColonFrom(line, 0, end)
    {
      p := p + 1;
    }
    if p == end { return []; }
    var keyEnd := p;
    p := p + 1;
    while p < end && IsSpaceOrTab(line[p])
      invariant keyEnd < p <= end && SkipBlanksTo(line, p, end) == SkipBlanksTo(line, keyEnd + 1, end)
    {
      p := p + 1;
    }
    if p < end {
      var value := DecodeUrl(line[p..end], false);
      return [(line[..keyEnd], value)];
    }
    return [];
  }

  function AddHeader(headers: seq<Entry>, parsed: seq<Entry>): seq<Entry> {
    if parsed == [] then headers else Emplace(LessNoCase, headers, parsed[0])
  }

  datatype Head = Head(ok: bool, headers: seq<Entry>, rest: string)

  // read_headers on the bytes ahead.  Lines without CR LF are skipped, whatever their length.
  function ParseHead(s: string, headers: seq<Entry>): Head
    decreases |s|
  {
    if s == "" then Head(false, headers, "")
    else
      var line, rest := FirstLine(s), s[|FirstLine(s)|..];
      if !EndsWithCrlf(line) then ParseHead(rest, headers)
      else if |line| == 2 then Head(true, headers, rest)
      else if |line| > HEADER_MAX then Head(false, headers, rest)
      else ParseHead(rest, AddHeader(headers, ParsedHeader(line[..|line| - 2])))
  }

  // After n bytes of s the headers are those given.
  predicate ReadUpTo(s: string, headers0: seq<Entry>, n: nat, headers: seq<Entry>) {
    n <= |s| && ParseHead(s[n..], headers) == ParseHead(s, headers0)
  }

  // One line: the end of the head, a refusal, or a header more.
  method ReadHeaderLine(reader: StreamLineReader, headers0: seq<Entry>)
    returns (more: bool, ok: bool, headers: seq<Entry>, ghost k: nat)
    requires reader.Valid()
    modifies reader, reader.fixedBuffer, reader.strm, reader.strm.readBuff, reader.strm.sock`incoming
    ensures reader.Valid()
    ensures more ==>
      && 0 < k <= |old(reader.strm.Rest())| && reader.strm.Rest() == old(reader.strm.Rest())[k..]
      && ParseHead(reader.strm.Rest(), headers) == ParseHead(old(reader.strm.Rest()), headers0)
    ensures !more && (ok || reader.strm.sock.reliable) ==>
      Head(ok, headers, reader.strm.Rest()) == ParseHead(old(reader.strm.Rest()), headers0)
    ensures !more ==> headers == headers0
  {
    hide ParsedHeader, AddHeader, FirstLine, EndsWithCrlf;
    headers := headers0;
    k := 0;
    ok := NextLine(reader);
    if !ok { return false, false, headers, k; }
    var line := reader.Line();
    k := |line|;
    if reader.EndWithCrlf() {
      if |line| == 2 { return false, true, headers, k; }
      if |line| > HEADER_MAX { return false, false, headers, k; }
      var parsed := ParseHeader(line[..|line| - 2]);
      headers := AddHeader(headers, parsed);
    }
    return true, true, headers, k;
  }

  // A reliable connection reads exactly what ParseHead says; any success does too.  A failed read leaves
  // the headers of the lines read so far: the head parser goes on from them at a later position.
  method ReadHeaders(strm: SocketStream, headers0: seq<Entry>) returns (ok: bool, headers: seq<Entry>)
    requires strm.Valid()
    modifies strm, strm.readBuff, strm.sock`incoming
    ensures strm.Valid()
    ensures ok || strm.sock.reliable ==>
      Head(ok, headers, strm.Rest()) == ParseHead(old(strm.Rest()), headers0)
    ensures exists n: nat :: ReadUpTo(old(strm.Rest()), headers0, n, headers)
  {
    hide ParseHead;
    headers := headers0;
    ghost var all := strm.Rest();
    ghost var n: nat := 0;
    assert all[n..] == all;
    var buf := new char[HEADER_LINE_BUFSIZ];
    var reader := new StreamLineReader(strm, buf);
    var more := true;
    while true
      invariant fresh(reader) && fresh(buf) && reader.strm == strm && reader.fixedBuffer == buf && reader.Valid()
      invariant ReadUpTo(all, headers0, n, headers) && strm.Rest() == all[n..]
      decreases |strm.Rest()|
    {
      ghost var k;
      more, ok, headers, k := ReadHeaderLine(reader, headers);
      if !more { return ok, headers; }
      assert all[n..][k..] == all[n + k..];
      n := n + k;
    }
  }

  // ------------------------------------------------------------------------------------------
  // The round trip of header fields

  predicate PlainHeader(h: Entry) {
    Free(h.0, ":\r\n\0") && Free(h.1, "\r\n\0")
  }

  // The printed line, its CR LF included, is within the limit.
  predicate Fits(h: Entry) { |h.0| + |h.1| + 4 <= HEADER_MAX }

  predicate AllFit(headers: seq<Entry>) { forall i | 0 <= i < |headers| :: Fits(headers[i]) }

  predicate PlainHeaders(headers: seq<Entry>) { forall i | 0 <= i < |headers| :: PlainHeader(headers[i]) }

  // What a printed header is read back as: nothing without a value, otherwise the value trimmed and
  // percent-decoded.
  function HeaderBack(h: Entry): (r: seq<Entry>)
    ensures |r| <= 1
  {
    if TrimCopy(h.1) == "" then [] else [(h.0, Decode(TrimCopy(h.1), false))]
  }

  function HeadersBack(headers: seq<Entry>): seq<Entry> {
    if headers == [] then [] else HeaderBack(headers[0]) + HeadersBack(headers[1..])
  }

  // A value that comes back as it is.
  ghost predicate SurvivingValue(v: string) {
    v != "" && Trimmed(v) && !HasEscape(v, false)
  }

  lemma ValueBack(h: Entry)
    ensures HeaderBack(h) == [h] <==> SurvivingValue(h.1)
  {
    hide Decode, HasEscape, TrimCopy;
    var t := TrimCopy(h.1);
    TrimmedStays(h.1);
    DecodeIsIdentity(h.1, false);
    if t != "" { NotLonger(t); }
  }

  lemma NotLonger(t: string)
    ensures |Decode(t, false)| <= |t|
  {
    DecodeShortens(t, false, 0);
  }

  // The multimap comes back as it is exactly when every value does.
  lemma {:induction false} AllBack(headers: seq<Entry>)
    ensures |HeadersBack(headers)| <= |headers|
    ensures HeadersBack(headers) == headers <==> forall i | 0 <= i < |headers| :: SurvivingValue(headers[i].1)
    decreases |headers|
  {
    hide HeaderBack, SurvivingValue;
    if headers != [] {
      var h, rest := headers[0], headers[1..];
      AllBack(rest);
      ValueBack(h);
      assert headers == [h] + rest;
      if HeaderBack(h) != [] {
        assert HeadersBack(headers)[0] == HeaderBack(h)[0] && HeadersBack(headers)[1..] == HeadersBack(rest);
      }
    }
  }

  // Headers in order stay in order.
  lemma {:induction false} BackInOrder(headers: seq<Entry>, k: string)
    requires Ordered(LessNoCase, headers) && forall i | 0 <= i < |headers| :: !LessNoCase(headers[i].0, k)
    ensures Ordered(LessNoCase, HeadersBack(headers))
    ensures forall i | 0 <= i < |HeadersBack(headers)| :: !LessNoCase(HeadersBack(headers)[i].0, k)
    decreases |headers|
  {
    hide LessNoCase, TrimCopy, Decode;
    if headers != [] {
      var rest := headers[1..];
      BackInOrder(rest, headers[0].0);
      BackInOrder(rest, k);
    }
  }

  lemma {:induction false} ColonIs(line: string, p: nat, end: nat, colon: nat)
    requires p <= colon < end <= |line| && line[colon] == ':' && forall i | p <= i < colon :: line[i] != ':'
    ensures ColonFrom(line, p, end) == colon
    decreases colon - p
  {
    if p < colon { ColonIs(line, p + 1, end, colon); }
  }

  lemma {:induction false} SkipBlanksToIs(line: string, p: nat, end: nat, r: nat)
    requires p <= r <= end <= |line| && (forall i | p <= i < r :: IsSpaceOrTab(line[i]))
    requires r < end ==> !IsSpaceOrTab(line[r])
    ensures SkipBlanksTo(line, p, end) == r
    decreases r - p
  {
    if p < r { SkipBlanksToIs(line, p + 1, end, r); }
  }

  // A line with a colon: the key before the first one, the value behind it without the blanks around it.
  lemma HeaderLineParses(key: string, rest: string)
    requires ':' !in key
    ensures ParsedHeader(key + ":" + rest) == HeaderBack((key, rest))
  {
    hide Decode, TrimCopy, IsSpaceOrTab;
    var line, colon := key + ":" + rest, |key|;
    Blank();
    assert line[colon] == ':' && line[..colon] == key && line[colon + 1..] == rest;
    forall i | 0 <= i < colon ensures line[i] != ':' { assert line[i] == key[i]; }
    if TrimCopy(rest) != "" {
      var l, r := TrimCopyIs(rest);
      LineWithValue(line, rest, colon, l, r);
    } else {
      AllBlank(rest);
      LineWithoutValue(line, rest, colon);
    }
  }

  lemma LineWithValue(line: string, v: string, colon: nat, l: nat, r: nat)
    requires colon < |line| && line[colon + 1..] == v && l < r <= |v|
    requires line[colon] == ':' && forall i | 0 <= i < colon :: line[i] != ':'
    requires (forall i | 0 <= i < l :: IsSpaceOrTab(v[i])) && !IsSpaceOrTab(v[l])
    requires (forall i | r <= i < |v| :: IsSpaceOrTab(v[i])) && !IsSpaceOrTab(v[r - 1])
    ensures ParsedHeader(line) == [(line[..colon], Decode(v[l..r], false))]
  {
    hide Decode, IsSpaceOrTab;
    var end := colon + 1 + r;
    forall i | 0 <= i < |v| ensures line[colon + 1 + i] == v[i] { assert line[colon + 1..][i] == v[i]; }
    forall i | end <= i < |line| ensures IsSpaceOrTab(line[i]) { assert line[i] == v[i - colon - 1]; }
    forall i | colon + 1 <= i < colon + 1 + l ensures IsSpaceOrTab(line[i]) { assert line[i] == v[i - colon - 1]; }
    DropBlanksIs(line, |line|, end);
    ColonIs(line, 0, end, colon);
    SkipBlanksToIs(line, colon + 1, end, colon + 1 + l);
    assert line[colon + 1 + l..end] == v[l..r];
  }

  lemma LineWithoutValue(line: string, v: string, colon: nat)
    requires colon < |line| && line[colon + 1..] == v && forall i | 0 <= i < |v| :: IsSpaceOrTab(v[i])
    requires line[colon] == ':' && forall i | 0 <= i < colon :: line[i] != ':'
    ensures ParsedHeader(line) == []
  {
    forall i | colon + 1 <= i < |line| ensures IsSpaceOrTab(line[i]) { assert line[i] == v[i - colon - 1]; }
    DropBlanksIs(line, |line|, colon + 1);
    ColonIs(line, 0, colon + 1, colon);
  }

  lemma Blank()
    ensures !IsSpaceOrTab(':') && IsSpaceOrTab(' ')
  {
  }

  // A line without a colon is no header.
  lemma NoColonNoHeader(text: string)
    requires ':' !in text
    ensures ParsedHeader(text) == []
  {
    hide Decode;
  }

  // ------------------------------------------------------------------------------------------
  // Heads as any sender may write them

  datatype HeadLine =
    | Field(key: string, rest: string)   // anything behind the first colon, with blanks or without
    | NoColon(text: string)
    | NoCr(text: string)                 // ended by a newline alone

  function LineText(line: HeadLine): string {
    match line
    case Field(key, rest) => key + ":" + rest + CRLF
    case NoColon(text) => text + CRLF
    case NoCr(text) => text + "\n"
  }

  predicate GoodLine(line: HeadLine) {
    match line
    case Field(key, rest) => Free(key, ":\n") && Free(rest, "\n")
    case NoColon(text) => text != "" && Free(text, ":\n")
    case NoCr(text) => Free(text, "\n") && (text == "" || text[|text| - 1] != '\r')
  }

  // A line that is skipped is not measured.
  predicate LineFits(line: HeadLine) { line.NoCr? || |LineText(line)| <= HEADER_MAX }

  function FieldOf(line: HeadLine): (r: seq<Entry>)
    ensures |r| <= 1
  {
    if line.Field? then HeaderBack((line.key, line.rest)) else []
  }

  function WireHead(lines: seq<HeadLine>): string {
    if lines == [] then CRLF else LineText(lines[0]) + WireHead(lines[1..])
  }

  function FieldsOf(lines: seq<HeadLine>): seq<Entry> {
    if lines == [] then [] else FieldOf(lines[0]) + FieldsOf(lines[1..])
  }

  predicate AllGood(lines: seq<HeadLine>) { forall i | 0 <= i < |lines| :: GoodLine(lines[i]) }

  predicate AllLinesFit(lines: seq<HeadLine>) { forall i | 0 <= i < |lines| :: LineFits(lines[i]) }

  lemma LineIsFirst(line: HeadLine, rest: string)
    requires GoodLine(line)
    ensures FirstLine(LineText(line) + rest) == LineText(line) && (LineText(line) + rest)[|LineText(line)|..] == rest
    ensures EndsWithCrlf(LineText(line)) <==> !line.NoCr?
    ensures !line.NoCr? ==> |LineText(line)| > 2
  {
    var t := LineText(line);
    var text := t[..|t| - 1];
    match line {
      case Field(key, value) => assert t == (key + ":" + value + "\r") + "\n";
      case NoColon(x) => assert t == (x + "\r") + "\n";
      case NoCr(x) =>
    }
    assert '\n' !in text && t == text + "\n";
    FirstLineIs(text, rest);
  }

  lemma LineGives(line: HeadLine)
    requires GoodLine(line) && !line.NoCr?
    ensures |LineText(line)| >= 2 && ParsedHeader(LineText(line)[..|LineText(line)| - 2]) == FieldOf(line)
  {
    hide ParsedHeader, HeaderBack;
    var t := LineText(line);
    match line
    case Field(key, rest) =>
      assert t[..|t| - 2] == key + ":" + rest;
      HeaderLineParses(key, rest);
    case NoColon(text) =>
      assert t[..|t| - 2] == text;
      NoColonNoHeader(text);
  }

  lemma LineParses(line: HeadLine, rest: string, before: seq<Entry>)
    requires GoodLine(line)
    ensures var head := ParseHead(LineText(line) + rest, before);
      if LineFits(line) then head == ParseHead(rest, EmplaceAll(LessNoCase, before, FieldOf(line))) else !head.ok
  {
    hide FirstLine, ParsedHeader, GoodLine, EndsWithCrlf, HeaderBack, LineText, Emplace;
    LineIsFirst(line, rest);
    if !line.NoCr? {
      LineGives(line);
      OneMore(before, FieldOf(line));
    }
  }

  lemma OneMore(before: seq<Entry>, parsed: seq<Entry>)
    requires |parsed| <= 1
    ensures EmplaceAll(LessNoCase, before, parsed) == AddHeader(before, parsed)
  {
  }

  lemma {:induction false} EmplaceAllConcat(less: Order, before: seq<Entry>, a: seq<Entry>, b: seq<Entry>)
    ensures EmplaceAll(less, before, a + b) == EmplaceAll(less, EmplaceAll(less, before, a), b)
    decreases |a|
  {
    hide Emplace;
    if a == [] {
      assert a + b == b;
    } else {
      assert (a + b)[1..] == a[1..] + b;
      EmplaceAllConcat(less, Emplace(less, before, a[0]), a[1..], b);
    }
  }

  // Reading succeeds exactly when every line that is not skipped is within the limit; it then stops right
  // behind the blank line, with the fields emplaced in the order of the lines.
  lemma {:induction false} WireHeadParses(lines: seq<HeadLine>, before: seq<Entry>, tail: string)
    requires AllGood(lines)
    ensures var head := ParseHead(WireHead(lines) + tail, before);
      if AllLinesFit(lines) then head == Head(true, EmplaceAll(LessNoCase, before, FieldsOf(lines)), tail) else !head.ok
    decreases |lines|
  {
    hide GoodLine, LineFits, LineText, ParseHead, FieldOf, Emplace;
    if lines == [] {
      EmptyLineParses(tail, before);
    } else {
      var line, rest := lines[0], lines[1..];
      LineParses(line, WireHead(rest) + tail, before);
      assert WireHead(lines) + tail == LineText(line) + (WireHead(rest) + tail);
      var more := EmplaceAll(LessNoCase, before, FieldOf(line));
      EmplaceAllConcat(LessNoCase, before, FieldOf(line), FieldsOf(rest));
      WireHeadParses(rest, more, tail);
      FirstLineFits(lines);
    }
  }

  lemma FirstLineFits(lines: seq<HeadLine>)
    requires lines != []
    ensures AllLinesFit(lines) <==> LineFits(lines[0]) && AllLinesFit(lines[1..])
  {
    hide LineFits;
    assert lines == [lines[0]] + lines[1..];
  }

  lemma EmptyLineParses(tail: string, headers: seq<Entry>)
    ensures ParseHead(CRLF + tail, headers) == Head(true, headers, tail)
  {
    FirstLineIs("\r", tail);
    assert "\r" + "\n" == CRLF;
    assert (CRLF + tail)[2..] == tail;
  }

  // Whatever the lines of a head and their order, the fields are all there, sorted stably by their names
  // without case, behind the headers already known.
  lemma ReadHeadersAreSorted(lines: seq<HeadLine>, before: seq<Entry>, tail: string)
    requires AllGood(lines) && AllLinesFit(lines) && Ordered(LessNoCase, before)
    ensures var head := ParseHead(WireHead(lines) + tail, before);
      head.ok && head.rest == tail && StableSort(LessNoCase, before + FieldsOf(lines), head.headers)
  {
    hide AllGood, AllLinesFit, ParseHead, StableSort, StrictWeak;
    WireHeadParses(lines, before, tail);
    LessNoCaseIsStrictWeak();
    EmplaceAllSorts(LessNoCase, before, FieldsOf(lines));
  }

  // A head that ends early is never taken for a whole one.
  lemma {:induction false} TruncatedHead(lines: seq<HeadLine>, before: seq<Entry>, k: nat)
    requires AllGood(lines) && k < |WireHead(lines)|
    ensures !ParseHead(WireHead(lines)[..k], before).ok
    decreases |lines|
  {
    hide GoodLine, LineText, FieldOf, Emplace, ParseHead, LineFits;
    if lines == [] {
      NoLineNoHead(CRLF[..k], before);
    } else {
      var line, more := lines[0], WireHead(lines[1..]);
      var text := LineText(line);
      if k < |text| {
        assert (text + more)[..k] == text[..k];
        LineWithoutEnd(line, k);
        NoLineNoHead(text[..k], before);
      } else {
        assert (text + more)[..k] == text + more[..k - |text|];
        LineParses(line, more[..k - |text|], before);
        TruncatedHead(lines[1..], EmplaceAll(LessNoCase, before, FieldOf(line)), k - |text|);
      }
    }
  }

  lemma LineWithoutEnd(line: HeadLine, k: nat)
    requires GoodLine(line) && k < |LineText(line)|
    ensures '\n' !in LineText(line)[..k]
  {
  }

  lemma NoLineNoHead(s: string, headers: seq<Entry>)
    requires '\n' !in s
    ensures !ParseHead(s, headers).ok
  {
    assert s + "" == s;
    FirstLineIs(s, "");
    assert s[|s|..] == "";
  }

  // ------------------------------------------------------------------------------------------
  // Printed heads

  // The lines write_headers prints.
  function AsLines(headers: seq<Entry>): seq<HeadLine> {
    if headers == [] then [] else [Field(headers[0].0, " " + headers[0].1)] + AsLines(headers[1..])
  }

  lemma TrimBlank(v: string)
    ensures TrimCopy(" " + v) == TrimCopy(v)
  {
    hide TrimCopy, IsSpaceOrTab;
    var t := " " + v;
    Blank();
    assert t[1..] == v;
    if TrimCopy(v) != "" {
      var l, r := TrimCopyIs(v);
      forall i | 0 <= i < |v| ensures t[i + 1] == v[i] { }
      forall i | r + 1 <= i < |t| ensures IsSpaceOrTab(t[i]) { assert t[i] == v[i - 1]; }
      forall i | 1 <= i < l + 1 ensures IsSpaceOrTab(t[i]) { assert t[i] == v[i - 1]; }
      TrimBetween(t, l + 1, r + 1);
      assert t[l + 1..r + 1] == v[l..r];
    } else {
      AllBlank(v);
      BlankIsNothing(t);
    }
  }

  lemma BlankIsNothing(t: string)
    requires t != "" && IsSpaceOrTab(t[0]) && forall i | 0 <= i < |t[1..]| :: IsSpaceOrTab(t[1..][i])
    ensures TrimCopy(t) == ""
  {
    forall i | 0 <= i < |t| ensures IsSpaceOrTab(t[i]) { if i > 0 { assert t[i] == t[1..][i - 1]; } }
  }

  lemma TrimBetween(t: string, l: nat, r: nat)
    requires l < r <= |t| && !IsSpaceOrTab(t[l]) && !IsSpaceOrTab(t[r - 1])
    requires (forall i | 0 <= i < l :: IsSpaceOrTab(t[i])) && forall i | r <= i < |t| :: IsSpaceOrTab(t[i])
    ensures TrimCopy(t) == t[l..r]
  {
    SkipBlanksIs(t, 0, l);
    DropBlanksIs(t, |t|, r);
  }

  lemma OnePrinted(h: Entry)
    requires PlainHeader(h)
    ensures var line := Field(h.0, " " + h.1);
      && GoodLine(line) && LineText(line) == HeaderText(h)
      && FieldOf(line) == HeaderBack(h) && (LineFits(line) <==> Fits(h))
  {
    hide TrimCopy, Decode;
    forall i | 0 <= i < |h.0| ensures h.0[i] != '\0' { }
    CStringWithoutNul(h.0);
    CStringWithoutNul(h.1);
    TrimBlank(h.1);
    assert h.0 + ":" + (" " + h.1) + CRLF == h.0 + ": " + h.1 + CRLF;
    assert forall c: char :: c in ":\n" ==> c in ":\r\n\0";
  }

  lemma {:induction false} PrintedLines(headers: seq<Entry>)
    requires PlainHeaders(headers)
    ensures var lines := AsLines(headers);
      && AllGood(lines) && WireHead(lines) == HeadText(headers)
      && FieldsOf(lines) == HeadersBack(headers) && (AllLinesFit(lines) <==> AllFit(headers))
    decreases |headers|
  {
    hide PlainHeader, GoodLine, LineText, HeaderText, FieldOf, HeaderBack, LineFits, Fits;
    if headers != [] {
      var h := headers[0];
      FirstIsPlain(headers);
      OnePrinted(h);
      PrintedLines(headers[1..]);
      FirstFits(headers);
      FirstLineFits(AsLines(headers));
    }
  }

  lemma FirstIsPlain(headers: seq<Entry>)
    requires headers != [] && PlainHeaders(headers)
    ensures PlainHeader(headers[0]) && PlainHeaders(headers[1..])
  {
    hide PlainHeader;
  }

  lemma FirstFits(headers: seq<Entry>)
    requires headers != []
    ensures AllFit(headers) <==> Fits(headers[0]) && AllFit(headers[1..])
  {
    hide Fits;
    assert headers == [headers[0]] + headers[1..];
  }

  // Reading a printed head succeeds exactly when every line is within the limit; it then stops right
  // behind the blank line.  Blank values vanish, the others come back trimmed and percent-decoded, sorted
  // stably by name; so a multimap, which is printed in order, comes back exactly when every value is a
  // nonempty, trimmed text without an escape.
  lemma HeadRoundTrip(headers: seq<Entry>, tail: string)
    requires PlainHeaders(headers)
    ensures var head := ParseHead(HeadText(headers) + tail, []);
      && (head.ok <==> AllFit(headers))
      && (head.ok ==> head.rest == tail && StableSort(LessNoCase, HeadersBack(headers), head.headers))
      && (head.ok && Ordered(LessNoCase, headers) ==> head.headers == HeadersBack(headers))
    ensures HeadersBack(headers) == headers <==> forall i | 0 <= i < |headers| :: SurvivingValue(headers[i].1)
  {
    hide PlainHeader, LessNoCase, HeadersBack, SurvivingValue, ParseHead, StableSort, StrictWeak, AllGood, AllLinesFit;
    PrintedLines(headers);
    WireHeadParses(AsLines(headers), [], tail);
    LessNoCaseIsStrictWeak();
    NothingIsOrdered();
    EmplaceAllSorts(LessNoCase, [], HeadersBack(headers));
    assert [] + HeadersBack(headers) == HeadersBack(headers);
    if Ordered(LessNoCase, headers) {
      NothingIsLess(headers);
      BackInOrder(headers, "");
      EmplaceInOrder(LessNoCase, HeadersBack(headers));
    }
    AllBack(headers);
  }

  lemma NothingIsOrdered()
    ensures Ordered(LessNoCase, [])
  {
  }

  lemma NothingIsLess(headers: seq<Entry>)
    ensures forall i | 0 <= i < |headers| :: !LessNoCase(headers[i].0, "")
  {
  }
}
