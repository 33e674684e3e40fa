// Chunked transfer coding (section 7.1 of RFC 9112): the writer with the identity compressor, the
// reader, and the reader of bodies of known length both rest on.

module Chunked {
  import opened Text
  import opened Streams

  const RECV_BUFSIZ: nat := 4096
  const ULONG_MAX: nat := 0xFFFF_FFFF_FFFF_FFFF
  const CHUNK_LINE_BUFSIZ: nat := 16

  // ------------------------------------------------------------------------------------------
  // Bodies of known length

  // One call of the content receiver: the data, its offset and the announced total.
  datatype Delivery = Delivery(data: string, offset: nat, total: nat)

  // The receiver's answer to the latest delivery, given all of them.
  type Receiver = seq<Delivery> -> bool

  function Payload(log: seq<Delivery>): string {
    if log == [] then "" else Payload(log[..|log| - 1]) + log[|log| - 1].data
  }

  ghost predicate Accepting(accept: Receiver) {
    forall log :: accept(log)
  }

  // Of the deliveries from index n on every one but the latest was accepted, and where the reading succeeded
  // the latest too: nothing is delivered behind a refusal.
  ghost predicate Obeyed(accept: Receiver, log: seq<Delivery>, n: nat, ok: bool) {
    && (forall i | n < i < |log| :: accept(log[..i]))
    && (ok && n < |log| ==> accept(log))
  }

  ghost predicate Refused(accept: Receiver, log: seq<Delivery>, n: nat) {
    n < |log| && !accept(log)
  }

  lemma ObeyedMore(accept: Receiver, log: seq<Delivery>, n: nat, d: Delivery)
    requires n <= |log| && Obeyed(accept, log, n, true)
    ensures Obeyed(accept, log + [d], n, accept(log + [d]))
  {
    var more := log + [d];
    forall i | n < i < |more| ensures accept(more[..i]) { assert more[..i] == log[..i] && log[..|log|] == log; }
  }

  lemma ObeyedThen(accept: Receiver, log0: seq<Delivery>, log: seq<Delivery>, n: nat, ok: bool)
    requires n <= |log0| && log0 <= log && Obeyed(accept, log0, n, true) && Obeyed(accept, log, |log0|, ok)
    ensures Obeyed(accept, log, n, ok)
    ensures Refused(accept, log, n) <==> Refused(accept, log, |log0|)
  {
    forall i | n < i < |log| ensures accept(log[..i]) {
      if i <= |log0| { assert log[..i] == log0[..i] && log0[..|log0|] == log0; }
    }
    if log == log0 { assert log0[..|log0|] == log0; }
  }

  // From index n on, log delivers consecutive pieces of a body of the given total, up to upTo.
  predicate Tiles(log: seq<Delivery>, n: nat, upTo: nat, total: nat)
    requires n <= |log|
  {
    if n == |log| then upTo == 0
    else
      var d := log[|log| - 1];
      && d.total == total && 0 < |d.data| <= RECV_BUFSIZ && upTo == d.offset + |d.data|
      && Tiles(log[..|log| - 1], n, d.offset, total)
  }

  method ReadContentWithLength(strm: SocketStream, len: nat, accept: Receiver, log0: seq<Delivery>)
    returns (ok: bool, log: seq<Delivery>)
    requires strm.Valid()
    modifies strm, strm.readBuff, strm.sock`incoming
    ensures strm.Valid()
    ensures Payload(log) + strm.Rest() == Payload(log0) + old(strm.Rest())
    ensures log0 <= log && exists r: nat :: r <= len && Tiles(log, |log0|, r, len) && (ok ==> r == len)
    ensures |strm.Rest()| <= |old(strm.Rest())|
    ensures Payload(log0) <= Payload(log) && |Payload(log)| <= |Payload(log0)| + len
    ensures ok ==> len <= |old(strm.Rest())| && strm.Rest() == old(strm.Rest())[len..]
    ensures Obeyed(accept, log, |log0|, ok)
    ensures !ok && strm.sock.reliable ==>
      Refused(accept, log, |log0|) || (|old(strm.Rest())| < len && strm.Rest() == "")
  {
    hide Payload, Tiles, Obeyed;
    var r: nat := 0;
    log := log0;
    ghost var all := strm.Rest();
    NoDeliveries(log0, len);
    NothingRefused(accept, log0);
    while r < len
      invariant strm.Valid() && r <= len && r <= |all|
      invariant strm.Rest() == all[r..]
      invariant Delivered(log, log0, all, r, len) && Obeyed(accept, log, |log0|, true)
      decreases len - r
    {
      var readLen := len - r;
      var n, data := strm.Read(if readLen < RECV_BUFSIZ then readLen else RECV_BUFSIZ);
      if n <= 0 {
        assert Payload(log0) + all == Payload(log0) + all[..r] + all[r..];
        ObeyedAnyway(accept, log, |log0|);
        return false, log;
      }
      ObeyedMore(accept, log, |log0|, Delivery(data, r, len));
      Deliver(log, log0, all, r, len, data, strm.Rest());
      log := log + [Delivery(data, r, len)];
      if !accept(log) {
        assert Payload(log0) + all == Payload(log) + strm.Rest();
        return false, log;
      }
      r := r + n;
    }
    assert Payload(log0) + all == Payload(log0) + all[..r] + all[r..];
    return true, log;
  }

  lemma NothingRefused(accept: Receiver, log: seq<Delivery>)
    ensures Obeyed(accept, log, |log|, true)
  {
  }

  lemma ObeyedAnyway(accept: Receiver, log: seq<Delivery>, n: nat)
    requires Obeyed(accept, log, n, true)
    ensures Obeyed(accept, log, n, false)
  {
  }

  // The first r bytes of all have been delivered on top of log0.
  ghost predicate Delivered(log: seq<Delivery>, log0: seq<Delivery>, all: string, r: nat, len: nat) {
    log0 <= log && r <= |all| && Tiles(log, |log0|, r, len) && Payload(log) == Payload(log0) + all[..r]
  }

  lemma NoDeliveries(log0: seq<Delivery>, len: nat)
    ensures Tiles(log0, |log0|, 0, len) && Payload(log0) == Payload(log0) + ""
  {
  }

  lemma Deliver(log: seq<Delivery>, log0: seq<Delivery>, all: string, r: nat, len: nat, data: string, rest: string)
    requires Delivered(log, log0, all, r, len) && all[r..] == data + rest && 0 < |data| <= RECV_BUFSIZ
    ensures r + |data| <= |all| && rest == all[r + |data|..]
    ensures Delivered(log + [Delivery(data, r, len)], log0, all, r + |data|, len)
    ensures Payload(log0) + all == Payload(log + [Delivery(data, r, len)]) + rest
  {
  }

  // ------------------------------------------------------------------------------------------
  // Chunk-size lines: from_i_to_hex, and strtoul with base 16 on a C string

  const HEX_CHARSET: string := "0123456789abcdef"

  function HexText(n: nat): (r: string)
    ensures r != ""
  {
    if n < 16 then [HEX_CHARSET[n]] else HexText(n / 16) + [HEX_CHARSET[n % 16]]
  }

  method FromIToHex(n0: nat) returns (ret: string)
    ensures ret == HexText(n0)
  {
    var n := n0;
    ret := "";
    while true
      invariant HexText(n) + ret == HexText(n0)
      decreases n
    {
      ret := [HEX_CHARSET[n % 16]] + ret;
      if n / 16 == 0 { break; }
      n := n / 16;
    }
  }

  // The value of s[from..to] in base 16.
  function HexValue(s: string, from: nat, to: nat): nat
    requires from <= to <= |s| && forall i | from <= i < to :: HexDigit(s[i]) >= 0
  {
    if from == to then 0 else 16 * HexValue(s, from, to - 1) + HexDigit(s[to - 1])
  }

  function DigitsEnd(s: string, from: nat): (to: nat)
    requires from <= |s|
    ensures from <= to <= |s| && forall i | from <= i < to :: HexDigit(s[i]) >= 0
    ensures to < |s| ==> HexDigit(s[to]) < 0
    decreases |s| - from
  {
    if from < |s| && HexDigit(s[from]) >= 0 then DigitsEnd(s, from + 1) else from
  }

  // The bytes before the first NUL: what a C function sees through ptr().
  function CString(s: string): (r: string)
    ensures |r| <= |s| && r == s[..|r|]
  {
    if s == "" || s[0] == '\0' then "" else [s[0]] + CString(s[1..])
  }

  predicate SignAt(s: string, i: nat) { i < |s| && (s[i] == '-' || s[i] == '+') }

  predicate PrefixAt(s: string, j: nat) {
    j + 2 < |s| && s[j] == '0' && (s[j + 1] == 'x' || s[j + 1] == 'X') && HexDigit(s[j + 2]) >= 0
  }

  // The digits from an index on: no digits means nothing is consumed, a value that does not fit saturates,
  // a minus sign negates modulo 2^64.
  function Converted(s: string, from: nat, negative: bool): (r: (nat, nat))
    requires from <= |s|
    ensures r.0 <= ULONG_MAX && r.1 <= |s|
  {
    var to := DigitsEnd(s, from);
    if to == from then (0, 0)
    else
      var v := HexValue(s, from, to);
      (if v > ULONG_MAX then ULONG_MAX else if negative && v > 0 then ULONG_MAX + 1 - v else v, to)
  }

  // Blanks, a sign, an optional 0x, then digits: the value and how much was consumed.
  function Strtoul16(s: string): (r: (nat, nat))
    ensures r.0 <= ULONG_MAX && r.1 <= |s|
  {
    var i := SpacesEnd(s, 0);
    var j := if SignAt(s, i) then i + 1 else i;
    var from := if PrefixAt(s, j) then j + 2 else j;
    Converted(s, from, SignAt(s, i) && s[i] == '-')
  }

  lemma HexDigitOfCharset(d: nat)
    requires d < 16
    ensures HexDigit(HEX_CHARSET[d]) == d && !IsSpace(HEX_CHARSET[d]) && HEX_CHARSET[d] !in "+-xX\r\n\0"
  {
  }

  lemma {:induction false} HexTextDigits(n: nat)
    ensures var h := HexText(n);
      && (forall i | 0 <= i < |h| :: HexDigit(h[i]) >= 0 && !IsSpace(h[i]) && h[i] !in "+-xX\r\n\0")
      && HexValue(h, 0, |h|) == n
  {
    if n < 16 {
      HexDigitOfCharset(n);
      assert HexValue(HexText(n), 0, 0) == 0;
    } else {
      HexTextDigits(n / 16);
      HexDigitOfCharset(n % 16);
      var h, front := HexText(n), HexText(n / 16);
      HexValueOfPrefix(front, h, |front|);
    }
  }

  lemma {:induction false} HexValueOfPrefix(a: string, b: string, to: nat)
    requires to <= |a| && a <= b && forall i | 0 <= i < |a| :: HexDigit(a[i]) >= 0
    ensures HexValue(b, 0, to) == HexValue(a, 0, to)
  {
    if to > 0 { HexValueOfPrefix(a, b, to - 1); }
  }

  lemma {:induction false} DigitsEndIs(s: string, from: nat, to: nat)
    requires from <= to < |s| && (forall i | from <= i < to :: HexDigit(s[i]) >= 0) && HexDigit(s[to]) < 0
    ensures DigitsEnd(s, from) == to
    decreases |s| - from
  {
    if from < to { DigitsEndIs(s, from + 1, to); }
  }

  // strtoul undoes from_i_to_hex on every size that fits an unsigned long.
  lemma StrtoulOfHex(n: nat)
    requires n <= ULONG_MAX
    ensures Strtoul16(HexText(n) + CRLF) == (n, |HexText(n)|)
  {
    hide HexText;
    var h := HexText(n);
    var s := h + CRLF;
    HexTextDigits(n);
    assert s[0] == h[0] && s[|h|] == '\r';
    assert |s| > 1 ==> s[1] == if |h| > 1 then h[1] else '\r';
    DigitsEndIs(s, 0, |h|);
    HexValueOfPrefix(h, s, |h|);
  }

  lemma {:induction false} SameHexValue(a: string, b: string, at: nat, to: nat)
    requires to <= |a| && at + to <= |b| && forall i | 0 <= i < to :: a[i] == b[at + i] && HexDigit(a[i]) >= 0
    requires forall i | at <= i < at + to :: HexDigit(b[i]) >= 0
    ensures HexValue(b, at, at + to) == HexValue(a, 0, to)
  {
    if to > 0 { SameHexValue(a, b, at, to - 1); }
  }

  lemma {:induction false} SpacesEndIs(s: string, from: nat, to: nat)
    requires from <= to < |s| && (forall i | from <= i < to :: IsSpace(s[i])) && !IsSpace(s[to])
    ensures SpacesEnd(s, from) == to
    decreases |s| - from
  {
    if from < to { SpacesEndIs(s, from + 1, to); }
  }

  lemma {:induction false} HexRun(s: string, from: nat, to: nat)
    requires from <= to <= |s| && (forall i | from <= i < to :: HexDigit(s[i]) >= 0)
    requires to < |s| ==> HexDigit(s[to]) < 0
    ensures DigitsEnd(s, from) == to
    decreases |s| - from
  {
    if from < to { HexRun(s, from + 1, to); }
  }

  predicate HexNumber(digits: string) { digits != "" && forall i | 0 <= i < |digits| :: HexDigit(digits[i]) >= 0 }

  predicate IsSign(sign: string) { sign == "" || sign == "+" || sign == "-" }

  predicate IsPrefix(prefix: string) { prefix == "" || prefix == "0x" || prefix == "0X" }

  predicate EndsNumber(rest: string) { rest != "" ==> HexDigit(rest[0]) < 0 && rest[0] != 'x' && rest[0] != 'X' }

  // strtoul on any text with a number: blanks, a sign and 0x are skipped, the number ends at the first
  // character that is no digit, a value that does not fit saturates, a minus sign negates modulo 2^64.
  lemma StrtoulMeans(blanks: string, sign: string, prefix: string, digits: string, rest: string)
    requires (forall i | 0 <= i < |blanks| :: IsSpace(blanks[i])) && IsSign(sign)
    requires IsPrefix(prefix) && HexNumber(digits)
    requires EndsNumber(rest)
    ensures var s, v := blanks + sign + prefix + digits + rest, HexValue(digits, 0, |digits|);
      Strtoul16(s) ==
      (if v > ULONG_MAX then ULONG_MAX else if sign == "-" && v > 0 then ULONG_MAX + 1 - v else v, |s| - |rest|)
  {
    hide *;
    var number := prefix + digits + rest;
    var s := blanks + (sign + number);
    assert blanks + sign + prefix + digits + rest == s;
    NumberIsNoBlank(sign, prefix, digits, rest);
    BlanksSkipped(blanks, sign + number);
    SignedNumber(s, sign, prefix, digits, rest);
  }

  lemma NumberIsNoBlank(sign: string, prefix: string, digits: string, rest: string)
    requires IsSign(sign) && IsPrefix(prefix) && HexNumber(digits)
    ensures var text := sign + (prefix + digits + rest); text != "" && !IsSpace(text[0])
  {
    hide HexDigit;
    HexIsNoSign();
    FirstIsHex(prefix, digits, rest);
  }

  lemma BlanksSkipped(blanks: string, text: string)
    requires (forall i | 0 <= i < |blanks| :: IsSpace(blanks[i])) && text != "" && !IsSpace(text[0])
    ensures SpacesEnd(blanks + text, 0) == |blanks| && (blanks + text)[|blanks|..] == text
  {
    hide IsSpace;
    var s := blanks + text;
    forall k | 0 <= k < |blanks| ensures IsSpace(s[k]) { assert s[k] == blanks[k]; }
    SpacesEndIs(s, 0, |blanks|);
  }

  lemma FirstIsHex(prefix: string, digits: string, rest: string)
    requires IsPrefix(prefix) && HexNumber(digits)
    ensures HexDigit((prefix + digits + rest)[0]) >= 0
  {
    hide HexDigit;
    HexIsNoSign();
    assert prefix == "" ==> (prefix + digits + rest)[0] == digits[0];
  }

  lemma SignedNumber(s: string, sign: string, prefix: string, digits: string, rest: string)
    requires SpacesEnd(s, 0) < |s| && s[SpacesEnd(s, 0)..] == sign + (prefix + digits + rest)
    requires IsSign(sign) && IsPrefix(prefix) && HexNumber(digits)
    requires EndsNumber(rest)
    ensures var v := HexValue(digits, 0, |digits|);
      Strtoul16(s) ==
      (if v > ULONG_MAX then ULONG_MAX else if sign == "-" && v > 0 then ULONG_MAX + 1 - v else v, |s| - |rest|)
  {
    hide *;
    var i := SpacesEnd(s, 0);
    var j := i + |sign|;
    SignSeen(s, i, sign, prefix, digits, rest);
    PrefixSeen(s, j, prefix, digits, rest);
    StrtoulSteps(s, i, j, j + |prefix|);
    RunOfDigits(s, j + |prefix|, digits, rest, sign == "-");
  }

  lemma StrtoulSteps(s: string, i: nat, j: nat, from: nat)
    requires i == SpacesEnd(s, 0) && j == (if SignAt(s, i) then i + 1 else i)
    requires from == (if PrefixAt(s, j) then j + 2 else j) && from <= |s|
    ensures Strtoul16(s) == Converted(s, from, SignAt(s, i) && s[i] == '-')
  {
    hide Converted, PrefixAt, SpacesEnd;
  }

  lemma SignSeen(s: string, i: nat, sign: string, prefix: string, digits: string, rest: string)
    requires i < |s| && s[i..] == sign + (prefix + digits + rest)
    requires IsSign(sign) && IsPrefix(prefix) && HexNumber(digits)
    ensures (if SignAt(s, i) then i + 1 else i) == i + |sign| && (SignAt(s, i) && s[i] == '-' <==> sign == "-")
    ensures i + |sign| <= |s| && s[i + |sign|..] == prefix + digits + rest
  {
    hide HexDigit;
    HexIsNoSign();
    FirstIsHex(prefix, digits, rest);
    Behind(s, i, sign, prefix + digits + rest);
    assert s[i] == s[i..][0];
  }

  // Where the parts of a tail stand.
  lemma Behind(s: string, i: nat, a: string, b: string)
    requires i <= |s| && s[i..] == a + b
    ensures |s| == i + |a| + |b| && s[i + |a|..] == b && forall k | 0 <= k < |a| :: s[i + k] == a[k]
  {
    var t := s[i..];
    assert t[|a|..] == s[i + |a|..];
    forall k | 0 <= k < |a| ensures s[i + k] == a[k] { assert t[k] == s[i + k]; }
  }

  lemma RunOfDigits(s: string, from: nat, digits: string, rest: string, negative: bool)
    requires from <= |s| && s[from..] == digits + rest && HexNumber(digits) && EndsNumber(rest)
    ensures var v := HexValue(digits, 0, |digits|);
      Converted(s, from, negative) ==
      (if v > ULONG_MAX then ULONG_MAX else if negative && v > 0 then ULONG_MAX + 1 - v else v, |s| - |rest|)
  {
    hide HexDigit, HexValue, DigitsEnd;
    Behind(s, from, digits, rest);
    var to := from + |digits|;
    forall k | from <= k < to ensures HexDigit(s[k]) >= 0 { assert s[from + (k - from)] == digits[k - from]; }
    assert rest != "" ==> s[to] == s[to..][0];
    HexRun(s, from, to);
    SameHexValue(digits, s, from, |digits|);
  }

  lemma PrefixSeen(s: string, j: nat, prefix: string, digits: string, rest: string)
    requires j <= |s| && s[j..] == prefix + digits + rest && IsPrefix(prefix) && HexNumber(digits)
    requires EndsNumber(rest)
    ensures (if PrefixAt(s, j) then j + 2 else j) == j + |prefix| <= |s| && s[j + |prefix|..] == digits + rest
  {
    hide HexDigit;
    HexIsNoSign();
    Behind(s, j, prefix + digits, rest);
    assert prefix + digits + rest == prefix + (digits + rest);
    Behind(s, j, prefix, digits + rest);
    var t := prefix + digits;
    forall k | 0 <= k < |digits| ensures t[|prefix| + k] == digits[k] { }
    assert s[j] == t[0] && (|t| > 1 ==> s[j + 1] == t[1]) && (|t| > 2 ==> s[j + 2] == t[2]);
    if |t| == 1 && rest != "" { assert s[j + 1] == s[j + 1..][0]; }
  }

  lemma HexIsNoSign()
    ensures forall c: char :: HexDigit(c) >= 0 ==> !IsSpace(c) && c !in "+-xX\r\n\0;"
    ensures !IsSpace('+') && !IsSpace('-') && HexDigit('0') == 0
  {
  }

  lemma {:induction false} CStringWithoutNul(s: string)
    requires '\0' !in s
    ensures CString(s) == s
  {
    if s != "" { CStringWithoutNul(s[1..]); }
  }

  // ------------------------------------------------------------------------------------------
  // The reader

  datatype Decoded = Decoded(ok: bool, payload: string, rest: string)

  // What read_content_chunked makes of the bytes ahead, from a chunk-size line on.
  function DecodeChunks(s: string): (d: Decoded)
    decreases |s|
  {
    if s == "" then Decoded(false, "", "")
    else
      var line := FirstLine(s);
      var body := s[|line|..];
      var (size, used) := Strtoul16(CString(line));
      if used == 0 || size == ULONG_MAX then Decoded(false, "", body)
      else if size == 0 then DecodeEnd(body)
      else DecodeBody(body, size)
  }

  // After a chunk-size line of zero.
  function DecodeEnd(s: string): Decoded {
    var trailer := FirstLine(s);
    Decoded(CString(trailer) == CRLF, "", s[|trailer|..])
  }

  // After any other chunk-size line.  A chunk not followed by an empty line ends the loop, and the
  // call still succeeds.
  function DecodeBody(s: string, size: nat): Decoded
    decreases |s|
  {
    if |s| < size then Decoded(false, s, "")
    else
      var after := s[size..];
      var trailer := FirstLine(after);
      if trailer == "" then Decoded(false, s[..size], "")
      else if CString(trailer) != CRLF then Decoded(true, s[..size], after[|trailer|..])
      else Prepend(s[..size], DecodeChunks(after[|trailer|..]))
  }

  function Prepend(payload: string, d: Decoded): Decoded {
    Decoded(d.ok, payload + d.payload, d.rest)
  }

  lemma PrependTwice(a: string, b: string, d: Decoded)
    ensures Prepend(a, Prepend(b, d)) == Prepend(a + b, d)
  {
    assert a + (b + d.payload) == (a + b) + d.payload;
  }

  lemma EndOfStream()
    ensures DecodeChunks("") == Decoded(false, "", "")
  {
  }

  // The reader has just read a line of what was ahead.
  ghost predicate AtLine(reader: StreamLineReader, here: string)
    reads reader, reader.fixedBuffer, reader.strm, reader.strm.readBuff, reader.strm.sock
  {
    && reader.Valid() && here != ""
    && reader.Line() == FirstLine(here) && reader.strm.Rest() == here[|FirstLine(here)|..]
  }

  method NextLine(reader: StreamLineReader) returns (ok: bool)
    requires reader.Valid()
    modifies reader, reader.fixedBuffer, reader.strm, reader.strm.readBuff, reader.strm.sock`incoming
    ensures reader.Valid()
    ensures ok ==> AtLine(reader, old(reader.strm.Rest()))
    ensures !ok ==> old(reader.strm.Rest()) == "" || !reader.strm.sock.reliable
    ensures ok ==> old(reader.strm.Rest()) != ""
    ensures reader.strm.sock.reliable && !ok ==> reader.strm.Rest() == ""
  {
    ok := reader.GetLine();
  }

  // One round of the loop: the chunk, its line end, and the next chunk-size line.
  method ReadChunk(reader: StreamLineReader, size: nat, accept: Receiver, log0: seq<Delivery>)
    returns (more: bool, ok: bool, log: seq<Delivery>, ghost next: string)
    requires reader.Valid()
    modifies reader, reader.fixedBuffer, reader.strm, reader.strm.readBuff, reader.strm.sock`incoming
    ensures reader.Valid()
    ensures more ==> AtLine(reader, next) && |next| < |old(reader.strm.Rest())|
    ensures Payload(log) <= Payload(log0) + DecodeBody(old(reader.strm.Rest()), size).payload
    ensures more ==> Prepend(Payload(log), DecodeChunks(next)) ==
                     Prepend(Payload(log0), DecodeBody(old(reader.strm.Rest()), size))
    ensures log0 <= log && Obeyed(accept, log, |log0|, more || ok)
    ensures !more && (ok || (reader.strm.sock.reliable && !Refused(accept, log, |log0|))) ==>
      Decoded(ok, Payload(log), reader.strm.Rest()) ==
      Prepend(Payload(log0), DecodeBody(old(reader.strm.Rest()), size))
  {
    hide Strtoul16, CString, Payload, Tiles, DecodeChunks, Obeyed;
    ghost var body := reader.strm.Rest();
    next := "";
    ok, log := ReadContentWithLength(reader.strm, size, accept, log0);
    PayloadSoFar(Payload(log), Payload(log0), body, reader.strm.Rest(), size);
    if !ok {
      if reader.strm.sock.reliable && !Refused(accept, log, |log0|) {
        assert reader.strm.Rest() == "" && |body| < size;
        assert Payload(log) == Payload(log) + "" == Payload(log0) + body;
      }
      return false, false, log, next;
    }
    ghost var after := reader.strm.Rest();
    Cut(Payload(log), Payload(log0), body, size);
    ObeyedAnyway(accept, log, |log0|);
    ok := NextLine(reader);
    if !ok { return false, false, log, next; }
    if CString(reader.Line()) != CRLF { return false, true, log, next; }
    next := reader.strm.Rest();
    PrependTwice(Payload(log0), body[..size], DecodeChunks(next));
    ok := NextLine(reader);
    if !ok {
      EndOfStream();
      assert Payload(log) + "" == Payload(log);
      return false, false, log, next;
    }
    return true, true, log, next;
  }

  // What has been delivered of a chunk is the beginning of what the decoder says.
  lemma PayloadSoFar(now: string, before: string, body: string, rest: string, size: nat)
    requires now + rest == before + body && before <= now && |now| <= |before| + size
    ensures now <= before + DecodeBody(body, size).payload
  {
    hide DecodeChunks, FirstLine, CString;
    var r := |now| - |before|;
    assert now == (now + rest)[..|now|] == before + body[..r];
    assert body[..r] <= DecodeBody(body, size).payload;
  }

  lemma Cut(a: string, b: string, s: string, n: nat)
    requires n <= |s| && a + s[n..] == b + s
    ensures a == b + s[..n]
  {
    assert b + s == (b + s[..n]) + s[n..];
    assert |a| == |b| + n;
    assert a == (a + s[n..])[..|a|];
    assert b + s[..n] == ((b + s[..n]) + s[n..])[..|a|];
  }

  method ReadContentChunked(strm: SocketStream, accept: Receiver) returns (ok: bool, log: seq<Delivery>)
    requires strm.Valid()
    modifies strm, strm.readBuff, strm.sock`incoming
    ensures strm.Valid()
    ensures Payload(log) <= DecodeChunks(old(strm.Rest())).payload
    ensures ok ==> Decoded(true, Payload(log), strm.Rest()) == DecodeChunks(old(strm.Rest()))
    ensures Obeyed(accept, log, 0, ok)
    ensures strm.sock.reliable && !Refused(accept, log, 0) ==>
      Decoded(ok, Payload(log), strm.Rest()) == DecodeChunks(old(strm.Rest()))
  {
    hide Strtoul16, CString, DecodeBody, Obeyed, Refused;
    ghost var goal := DecodeChunks(strm.Rest());
    log := [];
    ghost var here := strm.Rest();
    NothingRefused(accept, []);
    ObeyedAnyway(accept, [], 0);
    var buf := new char[CHUNK_LINE_BUFSIZ];
    var reader := new StreamLineReader(strm, buf);
    ok := NextLine(reader);
    if !ok { return false, log; }
    var size: nat := 0;
    var more := true;
    while true
      invariant fresh(reader) && fresh(buf) && reader.strm == strm && reader.fixedBuffer == buf
      invariant AtLine(reader, here)
      invariant Prepend(Payload(log), DecodeChunks(here)) == goal
      invariant Obeyed(accept, log, 0, true)
      decreases |here|
    {
      ObeyedAnyway(accept, log, 0);
      var parsed := Strtoul16(CString(reader.Line()));
      size := parsed.0;
      if parsed.1 == 0 { return false, log; }
      if size == ULONG_MAX { return false, log; }
      if size == 0 { break; }
      ghost var next, log0 := "", log;
      more, ok, log, next := ReadChunk(reader, size, accept, log);
      ObeyedThen(accept, log0, log, 0, more || ok);
      if !more { return ok, log; }
      here := next;
    }
    ok := NextLine(reader);
    if !ok || CString(reader.Line()) != CRLF { return false, log; }
    return true, log;
  }
}
