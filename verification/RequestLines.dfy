// Request lines as the client prints them and the server reads them.

module RequestLines {
  import opened Text
  import opened Splitting
  import opened Streams
  import opened Multimap
  import opened UrlCodec
  import opened Query
  import opened Chunked

  const LINE_BUFSIZ: nat := 2048

  const METHODS: set<string> :=
    {"GET", "HEAD", "POST", "PUT", "DELETE", "CONNECT", "OPTIONS", "TRACE", "PATCH", "PRI"}

  // The fields parse_request_line assigns.
  datatype Request = Request(verb: string, target: string, version: string, path: string, params: seq<Entry>)

  const BLANK := Request("", "", "", "", [])

  const REQUEST_URI_MAX: nat := 8192

  // The request line of the client.
  function PrintRequestLine(verb: string, path: string, urlEncode: bool): string
    requires IsBytes(path)
  {
    CString(verb) + " " + CString(OnWire(path, urlEncode)) + " HTTP/1.1\r\n"
  }

  function BeforeHash(target: string): (r: string)
    ensures |r| <= |target| && r == target[..|r|] && '#' !in r
  {
    if target == "" || target[0] == '#' then "" else [target[0]] + BeforeHash(target[1..])
  }

  // The first three words, as far as there are any.
  function AssignWords(words: seq<string>, req: Request): Request {
    req.(verb := if |words| > 0 then words[0] else req.verb,
         target := if |words| > 1 then words[1] else req.target,
         version := if |words| > 2 then words[2] else req.version)
  }

  function ParseTarget(req: Request): (bool, Request) {
    var target := BeforeHash(req.target);
    var pieces := Pieces(target, '?', 0, 0);
    (|pieces| <= 2,
     req.(target := target,
          path := if |pieces| > 0 then Decode(pieces[0], false) else req.path,
          params := if |pieces| > 1 then ParseQuery(Pieces(pieces[1], '&', 0, 0), {}, req.params) else req.params))
  }

  // parse_request_line on a C string: whether the line is good, and the request as it leaves it.
  function ParseLine(s: string, req: Request): (bool, Request) {
    var text := CString(s);
    if !EndsWithCrlf(text) then (false, req)
    else
      var words := Pieces(text[..|text| - 2], ' ', 0, 0);
      var named := AssignWords(words, req);
      if |words| != 3 || words[0] !in METHODS || (words[2] != "HTTP/1.1" && words[2] != "HTTP/1.0") then
        (false, named)
      else ParseTarget(named)
  }

  method EraseFragment(target0: string) returns (target: string)
    ensures target == BeforeHash(target0)
  {
    target := target0;
    for i := 0 to |target0|
      invariant target == target0 && target0[..i] + BeforeHash(target0[i..]) == BeforeHash(target0)
    {
      if target[i] == '#' {
        target := target[..i];
        assert BeforeHash(target0[i..]) == "";
        return target;
      }
      assert target0[i..][1..] == target0[i + 1..];
      assert target0[..i + 1] == target0[..i] + [target0[i]];
    }
  }

  method ParseRequestLine(s: string, req0: Request) returns (ok: bool, req: Request)
    ensures (ok, req) == ParseLine(s, req0)
  {
    hide BeforeHash, Pieces, ParseQuery, Decode, CString;
    req := req0;
    var text := CString(s);
    if !EndsWithCrlf(text) { return false, req; }
    var words := Split(text[..|text| - 2], ' ');
    for i := 0 to |words|
      invariant req == AssignWords(words[..i], req0)
    {
      match i {
        case 0 => req := req.(verb := words[i]);
        case 1 => req := req.(target := words[i]);
        case 2 => req := req.(version := words[i]);
        case _ =>
      }
    }
    assert words[..|words|] == words;
    if |words| != 3 { return false, req; }
    if req.verb !in METHODS { return false, req; }
    if req.version != "HTTP/1.1" && req.version != "HTTP/1.0" { return false, req; }
    ok, req := ParseRequestTarget(req);
  }

  // The fragment, the path and the query.
  method ParseRequestTarget(req0: Request) returns (ok: bool, req: Request)
    ensures (ok, req) == ParseTarget(req0)
  {
    hide BeforeHash, Pieces, ParseQuery, Decode;
    var target := EraseFragment(req0.target);
    req := req0.(target := target);
    var pieces := Split(target, '?');
    for i := 0 to |pieces|
      invariant req == req0.(target := target, path := req.path, params := req.params)
      invariant req.path == if i > 0 then Decode(pieces[0], false) else req0.path
      invariant req.params == if i > 1 then ParseQuery(Pieces(pieces[1], '&', 0, 0), {}, req0.params) else req0.params
    {
      if i == 0 {
        var path := DecodeUrl(pieces[i], false);
        req := req.(path := path);
      } else if i == 1 {
        if |pieces[i]| > 0 {
          var params := ParseQueryText(pieces[i], req.params);
          req := req.(params := params);
        } else {
          NoText(req0.params);
        }
      }
    }
    ok := |pieces| <= 2;
  }

  lemma NoText(params: seq<Entry>)
    ensures ParseQuery(Pieces("", '&', 0, 0), {}, params) == params
  {
  }

  // What the server makes of the beginning of a request.
  datatype Received =
    | Closed                    // no line: the connection is given up
    | UriTooLong                // 414
    | BadRequest                // 400
    | Received(req: Request)

  function Receive(s: string): Received {
    var line := FirstLine(s);
    if line == "" then Closed
    else if |line| > REQUEST_URI_MAX then UriTooLong
    else
      var (ok, req) := ParseLine(line, BLANK);
      if ok then Received(req) else BadRequest
  }

  // Server::process_request up to the headers.
  method ReceiveRequestLine(strm: SocketStream) returns (r: Received)
    requires strm.Valid()
    modifies strm, strm.readBuff, strm.sock`incoming
    ensures strm.Valid()
    ensures !r.Closed? || strm.sock.reliable ==>
      r == Receive(old(strm.Rest())) && strm.Rest() == old(strm.Rest())[|FirstLine(old(strm.Rest()))|..]
  {
    hide FirstLine, ParseLine;
    var buf := new char[LINE_BUFSIZ];
    var reader := new StreamLineReader(strm, buf);
    ghost var all := strm.Rest();
    var ok := reader.GetLine();
    if !ok {
      NoFirstLine();
      return Closed;
    }
    var line := reader.Line();
    assert all == line + strm.Rest();
    if |line| > REQUEST_URI_MAX { return UriTooLong; }
    var good, req := ParseRequestLine(line, BLANK);
    return if good then Received(req) else BadRequest;
  }

  lemma NoFirstLine()
    ensures FirstLine("") == ""
  {
  }

  // ------------------------------------------------------------------------------------------
  // Request lines as any client may write them

  const VERSIONS: set<string> := {"HTTP/1.1", "HTTP/1.0"}

  lemma {:induction false} JoinFree(texts: seq<string>, d: char, c: char)
    requires c != d && forall t | t in texts :: c !in t
    ensures c !in Join(texts, d)
  {
    if |texts| > 1 { JoinFree(texts[1..], d, c); }
  }

  lemma {:induction false} BeforeHashIs(target: string, fragment: string)
    requires '#' !in target && (fragment == "" || fragment[0] == '#')
    ensures BeforeHash(target + fragment) == target
  {
    if target == "" {
      assert target + fragment == fragment;
    } else {
      assert (target + fragment)[1..] == target[1..] + fragment;
      BeforeHashIs(target[1..], fragment);
    }
  }

  // A target of texts between '?' and a fragment: the fragment is dropped, the first text that is not blank
  // is the path, the second the query, and a third makes the target bad.
  lemma ReadTarget(parts: seq<string>, fragment: string, req: Request)
    requires parts != [] && (forall t | t in parts :: '?' !in t && '#' !in t)
    requires req.target == Join(parts, '?') + fragment && (fragment == "" || fragment[0] == '#')
    ensures var pieces := Trims(parts);
      ParseTarget(req) ==
      (|pieces| <= 2,
       req.(target := Join(parts, '?'),
            path := if pieces == [] then req.path else Decode(pieces[0], false),
            params := if |pieces| < 2 then req.params else ParseQuery(Pieces(pieces[1], '&', 0, 0), {}, req.params)))
  {
    hide Pieces, Decode, ParseQuery, BeforeHash, Trims;
    JoinFree(parts, '?', '#');
    BeforeHashIs(Join(parts, '?'), fragment);
    assert "" + Join(parts, '?') == Join(parts, '?');
    JoinedPieces("", parts, '?');
  }

  // A line of texts between blanks, those that are empty not counted.
  lemma ReadWords(texts: seq<string>, req: Request)
    requires texts != [] && forall t | t in texts :: ' ' !in t && '\0' !in t
    ensures var words := Trims(texts);
      ParseLine(Join(texts, ' ') + CRLF, req) ==
      if |words| == 3 && words[0] in METHODS && words[2] in VERSIONS then ParseTarget(AssignWords(words, req))
      else (false, AssignWords(words, req))
  {
    hide Pieces, ParseTarget, METHODS, CString, Trims, AssignWords;
    var text := Join(texts, ' ');
    JoinFree(texts, ' ', '\0');
    assert '\0' !in CRLF;
    CStringWithoutNul(text + CRLF);
    assert (text + CRLF)[..|text + CRLF| - 2] == text;
    assert "" + text == text;
    JoinedPieces("", texts, ' ');
  }

  // Method, target and version; the target a path, any number of queries, some of them empty, and a fragment.
  lemma RequestLineMeans(verb: string, parts: seq<string>, fragment: string, version: string)
    requires LineWord(verb) && LineWord(version) && LineWord(Join(parts, '?') + fragment)
    requires parts != [] && (forall t | t in parts :: Trimmed(t) && '?' !in t && '#' !in t) && parts[0] != ""
    requires fragment == "" || fragment[0] == '#'
    ensures var target, pieces := Join(parts, '?'), Trims(parts);
      && pieces != [] && pieces[0] == parts[0]
      && ParseLine(verb + " " + (target + fragment) + " " + version + CRLF, BLANK) ==
         if verb !in METHODS || version !in VERSIONS then (false, Request(verb, target + fragment, version, "", []))
         else (|pieces| <= 2,
               Request(verb, target, version, Decode(parts[0], false),
                       if |pieces| == 1 then [] else ParseQuery(Pieces(pieces[1], '&', 0, 0), {}, [])))
  {
    hide Pieces, ParseTarget, METHODS, Decode, ParseQuery, TrimCopy, ParseLine;
    var target, texts := Join(parts, '?'), [verb, Join(parts, '?') + fragment, version];
    WordsAreJoined(verb, target + fragment, version);
    ReadWords(texts, BLANK);
    assert parts[0] in parts;
    TrimmedStays(parts[0]);
    ReadTarget(parts, fragment, Request(verb, target + fragment, version, "", []));
  }

  predicate LineWord(t: string) { t != "" && Trimmed(t) && ' ' !in t && '\0' !in t }

  lemma WordsAreJoined(a: string, b: string, c: string)
    requires LineWord(a) && LineWord(b) && LineWord(c)
    ensures Join([a, b, c], ' ') == a + " " + b + " " + c && Trims([a, b, c]) == [a, b, c]
  {
    hide TrimCopy;
    TrimmedStays(a);
    TrimmedStays(b);
    TrimmedStays(c);
    var s := [a, b, c];
    assert s[1..] == [b, c] && s[1..][1..] == [c] && [b, c][1..] == [c] && [c][1..] == [];
    assert Join([b, c], ' ') == b + [' '] + Join([c], ' ');
    assert a + " " + b + " " + c == a + [' '] + (b + [' '] + c);
    assert Trims([c]) == [c];
    assert Trims([b, c]) == [b] + Trims([c]);
  }

  // A path that stays in one piece: without encode_url blanks and newlines would cut the request line, and
  // the server trims tabs off the ends.
  predicate PlainPath(path: string, urlEncode: bool) {
    && path != "" && IsBytes(path) && Free(path, "?#\0") && path[0] != '\t' && path[|path| - 1] != '\t'
    && (urlEncode || (' ' !in path && '\n' !in path))
  }

  // Keys are put into the target as they are.
  predicate LineKey(k: string, urlEncode: bool) { Free(k, if urlEncode then "?#\0" else LINE_CUTS) }

  ghost predicate PlainParams(params: seq<Param>, urlEncode: bool) {
    && AllPlain(params, urlEncode)
    && forall i | 0 <= i < |params| :: IsBytes(params[i].1) && LineKey(params[i].0, urlEncode)
  }

  // append_query_params, for a path without '?'.
  function Target(path: string, params: seq<Param>): string
    requires forall i | 0 <= i < |params| :: IsBytes(params[i].1)
  {
    if params == [] then path else path + ("?" + PrintQuery(params))
  }

  // From the client's request line the server reads the method, the percent-decoded path and the parameters
  // without later copies of equal pairs, and leaves what follows the line; a line over the limit it answers
  // with 414.  So it gets the path itself exactly when that holds no escape, and the parameters themselves
  // exactly when they are distinct.
  lemma RequestLineRoundTrip(verb: string, path: string, params: seq<Param>, urlEncode: bool, rest: string)
    requires verb in METHODS && PlainPath(path, urlEncode)
    requires PlainParams(params, urlEncode) && Ordered(LESS, params)
    ensures IsBytes(Target(path, params))
    ensures var line := PrintRequestLine(verb, Target(path, params), urlEncode);
      && FirstLine(line + rest) == line
      && Receive(line + rest) ==
         if |line| > REQUEST_URI_MAX then UriTooLong
         else Received(Request(verb, OnWire(Target(path, params), urlEncode), "HTTP/1.1",
                               Decode(path, false), Dedup(params, {})))
    ensures Decode(path, false) == path <==> !HasEscape(path, false)
    ensures Dedup(params, {}) == params <==> Distinct(params)
  {
    DecodeIsIdentity(path, false);
    DedupIsIdentity(params, {});
    hide Decode, HasEscape, Dedup, Distinct, PlainPath, PlainParam, Target, Ordered;
    hide ParseLine, FirstLine, METHODS, Word, Receive, IsBytes, OnWire, CString, PlainParams;
    var e := WireTarget(path, params, urlEncode);
    LineIsPrinted(verb, e);
    LineParses(verb, path, params, urlEncode, e);
    LineIsReceived(verb + " " + e + " HTTP/1.1\r", rest);
    assert verb + " " + e + " HTTP/1.1\r" + "\n" == verb + " " + e + " HTTP/1.1\r\n";
  }

  lemma LineIsReceived(text: string, rest: string)
    requires '\n' !in text
    ensures var line := text + "\n";
      && FirstLine(line + rest) == line
      && Receive(line + rest) ==
         if |line| > REQUEST_URI_MAX then UriTooLong
         else if ParseLine(line, BLANK).0 then Received(ParseLine(line, BLANK).1) else BadRequest
  {
    hide ParseLine, FirstLine;
    FirstLineIs(text, rest);
  }

  // Why a path sent as it is must not hold a newline: the server reads only up to it, and refuses.
  lemma NewlineCutsLine(verb: string, a: string, b: string, rest: string)
    requires verb in METHODS && Free(a, "\n\0") && '\0' !in b && (a == "" || a[|a| - 1] != '\r')
    requires IsBytes(a + "\n" + b)
    ensures var line := verb + " " + a + "\n";
      && FirstLine(PrintRequestLine(verb, a + "\n" + b, false) + rest) == line
      && Receive(PrintRequestLine(verb, a + "\n" + b, false) + rest) ==
         if |line| > REQUEST_URI_MAX then UriTooLong else BadRequest
  {
    hide METHODS, CString, FirstLine, Solid;
    VerbIsSolid(verb);
    var text, more := verb + " " + a, b + " HTTP/1.1\r\n" + rest;
    var line := text + "\n";
    assert '\n' !in text && '\0' !in line && '\0' !in a + "\n" + b by { OnlyOneNewline(verb, a, b); }
    CStringWithoutNul(verb);
    CStringWithoutNul(a + "\n" + b);
    CStringWithoutNul(line);
    FirstLineIs(text, more);
    assert PrintRequestLine(verb, a + "\n" + b, false) + rest == text + "\n" + more;
    assert line[|line| - 2] == (if a == "" then ' ' else a[|a| - 1]);
  }

  lemma OnlyOneNewline(verb: string, a: string, b: string)
    requires Free(a, "\n\0") && '\n' !in verb && '\0' !in verb && '\0' !in b
    ensures '\n' !in verb + " " + a && '\0' !in verb + " " + a + "\n" && '\0' !in a + "\n" + b
  {
    assert '\n' in "\n\0" && '\0' in "\n\0";
    assert '\0' !in a && '\n' !in a;
  }

  lemma LineIsPrinted(verb: string, e: string)
    requires verb in METHODS && Word(e)
    ensures CString(verb) == verb && CString(e) == e && '\n' !in verb + " " + e + " HTTP/1.1\r"
  {
    hide METHODS, Word, CString, Solid;
    VerbIsSolid(verb);
    WordIsSolid(e);
    CStringWithoutNul(verb);
    CStringWithoutNul(e);
    OneNewline(verb, e);
  }

  lemma OneNewline(verb: string, e: string)
    requires '\n' !in verb && '\n' !in e
    ensures '\n' !in verb + " " + e + " HTTP/1.1\r"
  {
    var version := " HTTP/1.1\r";
    assert '\n' !in version && '\n' !in " ";
  }

  lemma LineParses(verb: string, path: string, params: seq<Param>, urlEncode: bool, e: string)
    requires verb in METHODS && PlainPath(path, urlEncode)
    requires PlainParams(params, urlEncode) && Ordered(LESS, params) && IsBytes(PrintQuery(params))
    requires Word(e) && Solid(OnWire(path, urlEncode), '?')
    requires var p := OnWire(path, urlEncode);
      e == if params == [] then p else p + ['?'] + OnWire(PrintQuery(params), urlEncode)
    requires params != [] ==> Solid(OnWire(PrintQuery(params), urlEncode), '?')
    ensures ParseLine(verb + " " + e + " HTTP/1.1\r\n", BLANK) ==
      (true, Request(verb, e, "HTTP/1.1", Decode(path, false), Dedup(params, {})))
  {
    hide Pieces, ParseTarget, METHODS, CString, Decode, Dedup, PlainPath, PlainParam, Ordered, PrintQuery, Word;
    VerbIsSolid(verb);
    WordIsSolid(e);
    LineText(verb, e);
    WordsSplit(verb, e);
    TargetParses(Request(verb, e, "HTTP/1.1", "", []), path, params, urlEncode);
  }

  // The target as it is sent: one word.
  lemma WireTarget(path: string, params: seq<Param>, urlEncode: bool) returns (e: string)
    requires PlainPath(path, urlEncode) && PlainParams(params, urlEncode)
    ensures IsBytes(PrintQuery(params)) && IsBytes(Target(path, params))
    ensures e == OnWire(Target(path, params), urlEncode)
    ensures Word(e)
    ensures var p := OnWire(path, urlEncode);
      && Solid(p, '?')
      && e == if params == [] then p else p + ['?'] + OnWire(PrintQuery(params), urlEncode)
    ensures params != [] ==> Solid(OnWire(PrintQuery(params), urlEncode), '?')
  {
    hide EncodePath, PrintQuery, PlainParam, Solid, OnWire, Word;
    WirePath(path, urlEncode);
    var p := OnWire(path, urlEncode);
    if params == [] {
      NoQuery(urlEncode);
      e := p;
    } else {
      var q := PrintQuery(params);
      WireQuery(params, urlEncode);
      var t := OnWire(q, urlEncode);
      QuestionMark(urlEncode);
      WireConcat("?", q, urlEncode);
      WireConcat(path, "?" + q, urlEncode);
      e := p + ['?'] + t;
      assert e == p + ("?" + t);
      TargetIsWord(p, t);
    }
  }

  lemma QuestionMark(urlEncode: bool)
    ensures IsBytes("?") && '\0' !in "?" && OnWire("?", urlEncode) == "?"
  {
    EqualsSign();
  }

  // Free of what cuts a request line.  A '?' may stand in a target, not in its pieces.
  predicate Word(t: string) {
    t != "" && Trimmed(t) && Free(t, "# \0\n")
  }

  predicate TargetPiece(t: string) { t != "" && Trimmed(t) && Free(t, LINE_CUTS) }

  lemma WordIsSolid(t: string)
    requires Word(t)
    ensures Solid(t, ' ') && '\0' !in t && '#' !in t && '\n' !in t
  {
    assert forall c: char :: c in {' ', '#', '\0', '\n'} ==> c in "# \0\n";
  }

  lemma PieceIsWord(t: string)
    requires TargetPiece(t)
    ensures Word(t) && Solid(t, '?')
  {
    assert forall c: char :: c in "# \0\n" || c == '?' ==> c in LINE_CUTS;
  }

  lemma TargetIsWord(p: string, t: string)
    requires Word(p) && Word(t)
    ensures Word(p + ['?'] + t)
  {
    var e := p + ['?'] + t;
    assert e[0] == p[0] && e[|e| - 1] == t[|t| - 1];
  }

  lemma WirePath(path: string, urlEncode: bool)
    requires PlainPath(path, urlEncode)
    ensures IsBytes(path) && '\0' !in path
    ensures var p := OnWire(path, urlEncode); Word(p) && Solid(p, '?')
  {
    hide EncodePath;
    assert '\0' in "?#\0";
    assert forall i | 0 <= i < |path| :: path[i] !in "?#\0";
    if urlEncode {
      EscapedOrFree(path);
      EncodedPathFree(path, LINE_CUTS);
      EncodedPathTrimmed(path);
    } else {
      FreeOfLineCuts(path);
    }
    PieceIsWord(OnWire(path, urlEncode));
  }

  lemma EscapedOrFree(s: string)
    requires Free(s, "?#\0")
    ensures forall i | 0 <= i < |s| :: s[i] !in LINE_CUTS || !PathChar(s[i])
  {
    assert forall c: char :: c in LINE_CUTS ==> c in "?#\0" || c == ' ' || c == '\n';
  }

  lemma FreeOfLineCuts(s: string)
    requires Free(s, "?#\0") && ' ' !in s && '\n' !in s
    ensures Free(s, LINE_CUTS)
  {
    assert forall c: char :: c in LINE_CUTS ==> c in "?#\0" || c == ' ' || c == '\n';
  }

  lemma WireQuery(params: seq<Param>, urlEncode: bool)
    requires params != [] && PlainParams(params, urlEncode)
    ensures var q := PrintQuery(params);
      && IsBytes(q) && (urlEncode ==> '\0' !in q)
      && Word(OnWire(q, urlEncode)) && Solid(OnWire(q, urlEncode), '?')
  {
    hide PairText, PlainParam, OnWire, TargetPiece;
    PrintJoined(params, true, urlEncode);
    var t := Joined(params, urlEncode);
    assert "" + t == t;
    JoinedIsPiece(params, urlEncode);
    PieceIsWord(t);
  }

  lemma {:induction false} JoinedIsPiece(params: seq<Param>, urlEncode: bool)
    requires params != [] && PlainParams(params, urlEncode)
    ensures TargetPiece(Joined(params, urlEncode))
    decreases |params|
  {
    hide PairText, PlainParam, IsBytes, TargetPiece, Joined;
    var p := params[0];
    assert PlainParam(p, urlEncode) && IsBytes(p.0) && IsBytes(p.1);
    JoinedStep(params, urlEncode);
    PairIsPiece(p, urlEncode);
    if |params| > 1 {
      JoinedIsPiece(params[1..], urlEncode);
      JoinPieces(PairText(p, urlEncode), Joined(params[1..], urlEncode), '&');
    }
  }

  lemma JoinPieces(a: string, b: string, d: char)
    requires TargetPiece(a) && (b == "" || TargetPiece(b)) && d in "&="
    ensures TargetPiece(a + [d] + b)
  {
    var e := a + [d] + b;
    assert e[0] == a[0] && e[|e| - 1] == if b == "" then d else b[|b| - 1];
  }

  lemma PairIsPiece(p: Param, urlEncode: bool)
    requires PlainParam(p, urlEncode) && LineKey(p.0, urlEncode)
    ensures TargetPiece(PairText(p, urlEncode))
  {
    hide EncodePath, EncodeQuery, TargetPiece, HasEscape;
    KeyIsPiece(p.0, urlEncode);
    WireValue(p.1, urlEncode);
    var e := OnWire(EncodeQuery(p.1), urlEncode);
    assert TargetPiece(e) || e == "" by { ValueIsPiece(e); }
    JoinPieces(OnWire(p.0, urlEncode), e, '=');
  }

  lemma ValueIsPiece(e: string)
    requires Free(e, LINE_CUTS) && (e == "" || Solid(e, '&'))
    ensures e == "" || TargetPiece(e)
  {
  }

  lemma KeyIsPiece(k: string, urlEncode: bool)
    requires SurvivingKey(k, urlEncode) && IsBytes(k) && LineKey(k, urlEncode)
    ensures TargetPiece(OnWire(k, urlEncode))
  {
    hide EncodePath, HasEscape;
    if urlEncode {
      EscapedOrFree(k);
      EncodedPathFree(k, LINE_CUTS);
      EncodedPathTrimmed(k);
    }
  }

  lemma LineText(verb: string, e: string)
    requires '\0' !in verb && '\0' !in e
    ensures var s := verb + " " + e + " HTTP/1.1\r\n";
      CString(s) == s && EndsWithCrlf(s) && s[..|s| - 2] == verb + " " + e + " HTTP/1.1"
  {
    var s := verb + " " + e + " HTTP/1.1\r\n";
    CStringWithoutNul(s);
    assert s == (verb + " " + e + " HTTP/1.1") + "\r\n";
  }

  lemma VerbIsSolid(verb: string)
    requires verb in METHODS
    ensures Solid(verb, ' ') && '\0' !in verb && '\n' !in verb
  {
  }

  lemma WordsSplit(verb: string, e: string)
    requires Solid(verb, ' ') && Solid(e, ' ')
    ensures Pieces(verb + " " + e + " HTTP/1.1", ' ', 0, 0) == [verb, e, "HTTP/1.1"]
  {
    hide Pieces, Solid;
    var version := "HTTP/1.1";
    var s := verb + " " + e + " HTTP/1.1";
    assert Solid(version, ' ') by { VersionIsSolid(); }
    assert s == "" + verb + [' '] + (e + " HTTP/1.1");
    PieceThenMore("", verb, ' ', e + " HTTP/1.1");
    var pre := "" + verb + [' '];
    assert s == pre + e + [' '] + version;
    PieceThenMore(pre, e, ' ', version);
    var pre2 := pre + e + [' '];
    assert s == pre2 + version;
    LastPiece(pre2, version, ' ');
  }

  lemma VersionIsSolid()
    ensures Solid("HTTP/1.1", ' ')
  {
  }

  lemma {:induction false} NoHash(s: string)
    requires '#' !in s
    ensures BeforeHash(s) == s
  {
    if s != "" { NoHash(s[1..]); }
  }

  lemma TargetParses(req: Request, path: string, params: seq<Param>, urlEncode: bool)
    requires PlainPath(path, urlEncode) && PlainParams(params, urlEncode) && Ordered(LESS, params)
    requires IsBytes(PrintQuery(params)) && '#' !in req.target && Solid(OnWire(path, urlEncode), '?')
    requires var p := OnWire(path, urlEncode);
      req.target == if params == [] then p else p + ['?'] + OnWire(PrintQuery(params), urlEncode)
    requires params != [] ==> Solid(OnWire(PrintQuery(params), urlEncode), '?')
    requires req.params == []
    ensures ParseTarget(req) == (true, req.(path := Decode(path, false), params := Dedup(params, {})))
  {
    hide EncodePath, Pieces, ParseQuery, PrintQuery, Decode, PlainParam, Ordered, Dedup, Distinct, LineKey;
    var p := OnWire(path, urlEncode);
    NoHash(req.target);
    PathComesBack(path, urlEncode);
    if params == [] {
      TargetPieces(p, "");
      assert Dedup(params, {}) == [] by { NothingToDrop(); }
    } else {
      TargetPieces(p, OnWire(PrintQuery(params), urlEncode));
      QueryRoundTrip(params, urlEncode);
    }
  }

  lemma NothingToDrop()
    ensures Dedup([], {}) == []
  {
  }

  lemma TargetPieces(p: string, q: string)
    requires Solid(p, '?') && (q == "" || Solid(q, '?'))
    ensures q == "" ==> Pieces(p, '?', 0, 0) == [p]
    ensures q != "" ==> Pieces(p + ['?'] + q, '?', 0, 0) == [p, q]
  {
    hide Pieces, Solid;
    assert "" + p == p;
    if q == "" {
      LastPiece("", p, '?');
    } else {
      var pre := "" + p + ['?'];
      assert pre + q == p + ['?'] + q;
      PieceThenMore("", p, '?', q);
      LastPiece(pre, q, '?');
    }
  }

  lemma PathComesBack(path: string, urlEncode: bool)
    requires PlainPath(path, urlEncode)
    ensures IsBytes(path) && Decode(OnWire(path, urlEncode), false) == Decode(path, false)
  {
    assert '\0' in "?#\0";
    if urlEncode { PathDecodes(path, false); }
  }
}
