// The chunked writer (section 7.1 of RFC 9112) with the identity compressor, and the round trip
// through the reader.

module ChunkedWriting {
  import opened Text
  import opened Streams
  import opened Chunked

  // What the content provider does with its sink, and one call of the provider.
  datatype SinkCall = Write(data: string) | Done

  datatype Turn = Turn(shuttingDown: bool, calls: seq<SinkCall>, ret: bool)

  datatype Error = Success | Canceled | WriteFailed

  const DONE_MARKER: string := "0\r\n\r\n"

  function Chunk(payload: string): string {
    HexText(|payload|) + CRLF + payload + CRLF
  }

  function Emitted(call: SinkCall): string {
    match call
    case Write(data) => if data == "" then "" else Chunk(data)
    case Done => DONE_MARKER
  }

  function EmittedAll(calls: seq<SinkCall>): string {
    if calls == [] then "" else EmittedAll(calls[..|calls| - 1]) + Emitted(calls[|calls| - 1])
  }

  // data_available after the calls; an empty write clears it without ending the body.
  function AvailableAfter(calls: seq<SinkCall>): bool {
    calls == [] || (calls[|calls| - 1].Write? && calls[|calls| - 1].data != "")
  }

  // What the whole loop emits, and how it ends, when no write fails.  A list of turns that runs out
  // stands for a shutdown.
  function Output(turns: seq<Turn>): (r: (string, Error)) {
    if turns == [] || turns[0].shuttingDown then ("", Success)
    else
      var out := EmittedAll(turns[0].calls);
      if !turns[0].ret then (out, Canceled)
      else if !AvailableAfter(turns[0].calls) then (out, Success)
      else var rest := Output(turns[1..]); (out + rest.0, rest.1)
  }

  // A turn behind which the loop goes round again.
  predicate PlaysOn(turn: Turn) { !turn.shuttingDown && turn.ret && AvailableAfter(turn.calls) }

  // What the turns make of the sink.
  function CallsOf(turns: seq<Turn>): seq<SinkCall> {
    if turns == [] then [] else turns[0].calls + CallsOf(turns[1..])
  }

  lemma {:induction false} EmittedConcat(a: seq<SinkCall>, b: seq<SinkCall>)
    ensures EmittedAll(a + b) == EmittedAll(a) + EmittedAll(b)
  {
    hide Emitted;
    if b == [] {
      assert a + b == a && EmittedAll(a) + "" == EmittedAll(a);
    } else {
      var n := |b| - 1;
      EmittedConcat(a, b[..n]);
      assert (a + b)[..|a + b| - 1] == a + b[..n] && (a + b)[|a + b| - 1] == b[n];
      Reassociate(EmittedAll(a), EmittedAll(b[..n]), Emitted(b[n]));
    }
  }

  // The loop plays turns up to the first that does not play on, that one included unless the server is
  // shutting down; it is canceled exactly when that one says so.
  lemma {:induction false} OutputIs(turns: seq<Turn>, k: nat)
    requires k <= |turns| && (forall j | 0 <= j < k :: PlaysOn(turns[j])) && (k < |turns| ==> !PlaysOn(turns[k]))
    ensures var played := if k < |turns| && !turns[k].shuttingDown then k + 1 else k;
      Output(turns) == (EmittedAll(CallsOf(turns[..played])),
                        if played > k && !turns[k].ret then Canceled else Success)
    decreases |turns|
  {
    hide EmittedAll, AvailableAfter;
    var played := if k < |turns| && !turns[k].shuttingDown then k + 1 else k;
    NothingEmitted();
    if k > 0 {
      OutputIs(turns[1..], k - 1);
      assert turns[..played][0] == turns[0] && turns[..played][1..] == turns[1..][..played - 1];
      EmittedConcat(turns[0].calls, CallsOf(turns[1..][..played - 1]));
    } else if played == 1 {
      assert turns[..1] == [turns[0]] && [turns[0]][1..] == [];
      assert turns[0].calls + [] == turns[0].calls;
    }
  }

  lemma NothingEmitted()
    ensures EmittedAll([]) == "" && CallsOf([]) == []
  {
  }

  // What the turns before the last one played emit.
  function BeforeLast(turns: seq<Turn>): string {
    if turns == [] || turns[0].shuttingDown || !turns[0].ret || !AvailableAfter(turns[0].calls) then ""
    else EmittedAll(turns[0].calls) + BeforeLast(turns[1..])
  }

  // How the loop ends when sent is what got through.  A failed write is reported as such unless it
  // falls in a turn that the provider cancels.
  function Ending(turns: seq<Turn>, sent: string): Error {
    var (all, error) := Output(turns);
    if sent == all then error
    else if error == Canceled && |BeforeLast(turns)| <= |sent| then Canceled
    else WriteFailed
  }

  lemma {:induction false} BeforeLastIs(turns: seq<Turn>, k: nat)
    requires k <= |turns| && (forall j | 0 <= j < k :: PlaysOn(turns[j])) && (k < |turns| ==> !PlaysOn(turns[k]))
    ensures BeforeLast(turns) == EmittedAll(CallsOf(turns[..k]))
    decreases |turns|
  {
    hide EmittedAll, AvailableAfter;
    NothingEmitted();
    if k > 0 {
      BeforeLastIs(turns[1..], k - 1);
      assert turns[..k][0] == turns[0] && turns[..k][1..] == turns[1..][..k - 1];
      EmittedConcat(turns[0].calls, CallsOf(turns[1..][..k - 1]));
    }
  }

  // When only sent gets through: a turn that cancels is reported as that if everything before it has been sent,
  // whether its own output has or not; any other loss is a failed write.
  lemma EndingIs(turns: seq<Turn>, k: nat, sent: string)
    requires k <= |turns| && (forall j | 0 <= j < k :: PlaysOn(turns[j])) && (k < |turns| ==> !PlaysOn(turns[k]))
    requires sent <= Output(turns).0
    ensures var cancels := k < |turns| && !turns[k].shuttingDown && !turns[k].ret;
      Ending(turns, sent) ==
      if cancels && |EmittedAll(CallsOf(turns[..k]))| <= |sent| then Canceled
      else if sent == Output(turns).0 then Success else WriteFailed
  {
    hide EmittedAll, Output, BeforeLast, PlaysOn;
    OutputIs(turns, k);
    BeforeLastIs(turns, k);
    if k < |turns| {
      assert turns[..k + 1] == turns[..k] + [turns[k]];
      CallsConcat(turns[..k], turns[k]);
      EmittedConcat(CallsOf(turns[..k]), turns[k].calls);
    }
  }

  lemma {:induction false} CallsConcat(turns: seq<Turn>, turn: Turn)
    ensures CallsOf(turns + [turn]) == CallsOf(turns) + turn.calls
    decreases |turns|
  {
    if turns == [] {
      assert [turn][1..] == [] && turn.calls + [] == turn.calls;
    } else {
      assert (turns + [turn])[1..] == turns[1..] + [turn];
      CallsConcat(turns[1..], turn);
    }
  }

  // ------------------------------------------------------------------------------------------
  // The writer

  // A prefix of out was sent, all of it exactly if ok.
  ghost predicate Sent(before: string, out: string, after: string, ok: bool) {
    before <= after <= before + out && (ok <==> after == before + out)
  }

  lemma SentThen(a: string, x: string, b: string, y: string, c: string, ok: bool)
    requires Sent(a, x, b, true) && Sent(b, y, c, ok)
    ensures Sent(a, x + y, c, ok)
  {
    assert a + (x + y) == b + y;
  }

  lemma SentNothing(a: string, x: string, b: string, y: string)
    requires Sent(a, x, b, false)
    ensures Sent(a, x + y, b, false)
  {
    assert a + (x + y) == (a + x) + y;
  }

  method WriteData(strm: SocketStream, d: string) returns (ok: bool)
    modifies strm.sock`outgoing
    ensures Sent(old(strm.sock.outgoing), d, strm.sock.outgoing, ok)
    ensures strm.sock.reliable ==> ok
  {
    var offset := 0;
    while offset < |d|
      invariant 0 <= offset <= |d|
      invariant strm.sock.outgoing == old(strm.sock.outgoing) + d[..offset]
    {
      var length := strm.Write(d[offset..]);
      if length < 0 { return false; }
      assert d[..offset] + d[offset..][..length] == d[..offset + length];
      offset := offset + length;
    }
    return true;
  }

  class ChunkSink {
    const strm: SocketStream
    var ok: bool
    var dataAvailable: bool
    var offset: nat

    constructor (strm: SocketStream)
      ensures this.strm == strm && ok && dataAvailable && offset == 0
    {
      this.strm := strm;
      ok, dataAvailable, offset := true, true, 0;
    }

    method Write(d: string) returns (r: bool)
      modifies this, strm.sock`outgoing
      ensures r == ok
      ensures !old(ok) ==> !ok && strm.sock.outgoing == old(strm.sock.outgoing) && offset == old(offset)
      ensures d == "" ==> ok == old(ok) && strm.sock.outgoing == old(strm.sock.outgoing)
      ensures old(ok) ==>
        && Sent(old(strm.sock.outgoing), Emitted(SinkCall.Write(d)), strm.sock.outgoing, ok)
        && (strm.sock.reliable ==> ok)
        && dataAvailable == (d != "") && offset == old(offset) + |d|
    {
      if ok {
        dataAvailable := |d| > 0;
        offset := offset + |d|;
        if d != "" {
          var size := FromIToHex(|d|);
          ok := WriteData(strm, size + "\r\n" + d + "\r\n");
        }
      }
      return ok;
    }

    method Done()
      modifies this, strm.sock`outgoing
      ensures !old(ok) ==> !ok && strm.sock.outgoing == old(strm.sock.outgoing)
      ensures old(ok) ==>
        && Sent(old(strm.sock.outgoing), DONE_MARKER, strm.sock.outgoing, ok)
        && (strm.sock.reliable ==> ok) && !dataAvailable
    {
      if !ok { return; }
      dataAvailable := false;
      var wrote := WriteData(strm, DONE_MARKER);
      if !wrote { ok := false; }
    }

    // One call of the content provider.
    method Provide(calls: seq<SinkCall>)
      requires ok && dataAvailable
      modifies this, strm.sock`outgoing
      ensures Sent(old(strm.sock.outgoing), EmittedAll(calls), strm.sock.outgoing, ok)
      ensures strm.sock.reliable ==> ok
      ensures ok ==> dataAvailable == AvailableAfter(calls)
    {
      hide Emitted;
      ghost var before := strm.sock.outgoing;
      assert before + "" == before;
      for i := 0 to |calls|
        invariant Sent(before, EmittedAll(calls[..i]), strm.sock.outgoing, ok)
        invariant strm.sock.reliable ==> ok
        invariant ok ==> dataAvailable == AvailableAfter(calls[..i])
      {
        ghost var mid, wasOk := strm.sock.outgoing, ok;
        assert calls[..i + 1][..i] == calls[..i];
        assert EmittedAll(calls[..i + 1]) == EmittedAll(calls[..i]) + Emitted(calls[i]);
        match calls[i]
        case Write(d) => var _ := Write(d);
        case Done => Done(); DoneEmits();
        if wasOk {
          SentThen(before, EmittedAll(calls[..i]), mid, Emitted(calls[i]), strm.sock.outgoing, ok);
        } else {
          SentNothing(before, EmittedAll(calls[..i]), mid, Emitted(calls[i]));
        }
      }
      assert calls[..|calls|] == calls;
    }
  }

  lemma DoneEmits()
    ensures Emitted(Done) == DONE_MARKER
  {
  }

  method WriteContentChunked(strm: SocketStream, turns: seq<Turn>) returns (ret: bool, error: Error)
    modifies strm.sock`outgoing
    ensures old(strm.sock.outgoing) <= strm.sock.outgoing
    ensures ret <==> error == Success
    ensures var sent := strm.sock.outgoing[|old(strm.sock.outgoing)|..];
      && sent <= Output(turns).0 && error == Ending(turns, sent)
      && (strm.sock.reliable ==> sent == Output(turns).0)
  {
    hide EmittedAll, AvailableAfter, Output, BeforeLast;
    var sink := new ChunkSink(strm);
    ghost var before := strm.sock.outgoing;
    ghost var done := "";
    assert before + "" == before;
    for i := 0 to |turns|
      invariant sink.strm == strm && fresh(sink) && sink.ok && sink.dataAvailable
      invariant strm.sock.outgoing == before + done
      invariant GoesOn(turns, done, turns[i..])
    {
      assert turns[i..][0] == turns[i] && turns[i..][1..] == turns[i + 1..];
      if turns[i].shuttingDown {
        NothingMore(turns, done, turns[i..]);
        return true, Success;
      }
      sink.Provide(turns[i].calls);
      ghost var sent := strm.sock.outgoing[|before + done|..];
      assert strm.sock.outgoing == before + done + sent == before + (done + sent);
      TurnEnds(turns, done, turns[i..], sent, sink.ok);
      if !turns[i].ret { return false, Canceled; }
      if !sink.ok { return false, WriteFailed; }
      done := done + sent;
      if !sink.dataAvailable { return true, Success; }
    }
    NothingMore(turns, done, turns[|turns|..]);
    return true, Success;
  }

  // done is what the turns before rest emit, and they let the loop go on.
  ghost predicate GoesOn(turns: seq<Turn>, done: string, rest: seq<Turn>) {
    && done + Output(rest).0 == Output(turns).0 && Output(rest).1 == Output(turns).1
    && done + BeforeLast(rest) == BeforeLast(turns)
  }

  lemma NothingMore(turns: seq<Turn>, done: string, rest: seq<Turn>)
    requires GoesOn(turns, done, rest) && (rest == [] || rest[0].shuttingDown)
    ensures done == Output(turns).0 && Ending(turns, done) == Success
  {
    assert done + "" == done;
  }

  // A turn is over, sent is what got through of it.
  lemma TurnEnds(turns: seq<Turn>, done: string, rest: seq<Turn>, sent: string, ok: bool)
    requires GoesOn(turns, done, rest) && rest != [] && !rest[0].shuttingDown
    requires var out := EmittedAll(rest[0].calls); sent <= out && (ok <==> sent == out)
    ensures var turn := rest[0];
      && done + sent <= Output(turns).0
      && (ok && turn.ret && AvailableAfter(turn.calls) ==> GoesOn(turns, done + sent, rest[1..]))
      && (ok && (!turn.ret || !AvailableAfter(turn.calls)) ==> done + sent == Output(turns).0)
      && (!turn.ret ==> Ending(turns, done + sent) == Canceled)
      && (turn.ret && !ok ==> Ending(turns, done + sent) == WriteFailed)
      && (turn.ret && ok && !AvailableAfter(turn.calls) ==> Ending(turns, done + sent) == Success)
  {
    hide EmittedAll, AvailableAfter;
    var out := EmittedAll(rest[0].calls);
    if rest[0].ret && AvailableAfter(rest[0].calls) {
      Reassociate(done, out, Output(rest[1..]).0);
      Reassociate(done, out, BeforeLast(rest[1..]));
      assert sent <= out + Output(rest[1..]).0;
    }
    PrefixBehind(done, sent, Output(rest).0);
  }

  lemma Reassociate(a: string, b: string, c: string)
    ensures a + (b + c) == a + b + c
  {
  }

  lemma PrefixBehind(a: string, b: string, c: string)
    requires b <= c
    ensures a + b <= a + c && (|b| < |c| ==> a + b != a + c)
  {
    assert (a + c)[..|a + b|] == a + c[..|b|];
  }

  // ------------------------------------------------------------------------------------------
  // The encoding and its round trip

  function EncodeChunks(payloads: seq<string>): string {
    if payloads == [] then DONE_MARKER else Chunk(payloads[0]) + EncodeChunks(payloads[1..])
  }

  // The decoder reads one printed chunk and goes on behind it.
  lemma ChunkDecodes(payload: string, rest: string)
    requires payload != "" && |payload| < ULONG_MAX
    ensures DecodeChunks(Chunk(payload) + rest) == Prepend(payload, DecodeChunks(rest))
  {
    hide Strtoul16, HexText;
    var line := HexText(|payload|) + CRLF;
    var body := payload + (CRLF + rest);
    assert Chunk(payload) + rest == line + body;
    SizeLine(|payload|, body);
    assert body[|payload|..] == CRLF + rest;
    FirstLineIs("\r", rest);
    assert "\r" + "\n" == CRLF;
    CStringWithoutNul(CRLF);
    assert (CRLF + rest)[2..] == rest;
  }

  lemma SizeLine(n: nat, body: string)
    requires n <= ULONG_MAX
    ensures var line := HexText(n) + CRLF;
      && FirstLine(line + body) == line && (line + body)[|line|..] == body
      && Strtoul16(CString(line)) == (n, |HexText(n)|)
  {
    hide HexText, Strtoul16;
    var line := HexText(n) + CRLF;
    HexTextDigits(n);
    var text := HexText(n) + "\r";
    assert line == text + "\n";
    FirstLineIs(text, body);
    CStringWithoutNul(line);
    StrtoulOfHex(n);
  }

  lemma DoneDecodes(rest: string)
    ensures DecodeChunks(DONE_MARKER + rest) == Decoded(true, "", rest)
  {
    hide Strtoul16;
    assert HexText(0) == "0";
    SizeLine(0, CRLF + rest);
    assert DONE_MARKER + rest == ("0" + CRLF) + (CRLF + rest);
    FirstLineIs("\r", rest);
    assert "\r" + "\n" == CRLF;
    CStringWithoutNul(CRLF);
    assert (CRLF + rest)[2..] == rest;
  }

  lemma {:induction false} EncodedDecodes(payloads: seq<string>, tail: string)
    requires forall p | p in payloads :: p != "" && |p| < ULONG_MAX
    ensures DecodeChunks(EncodeChunks(payloads) + tail) == Decoded(true, Concat(payloads), tail)
  {
    hide Chunk, DecodeChunks;
    if payloads == [] {
      DoneDecodes(tail);
    } else {
      EncodedDecodes(payloads[1..], tail);
      assert EncodeChunks(payloads) + tail == Chunk(payloads[0]) + (EncodeChunks(payloads[1..]) + tail);
      ChunkDecodes(payloads[0], EncodeChunks(payloads[1..]) + tail);
    }
  }

  // The provider writes the payloads in order, over any number of turns, and is done.
  ghost predicate Writes(turns: seq<Turn>, payloads: seq<string>)
    decreases |turns|
  {
    && turns != [] && turns[0].ret && !turns[0].shuttingDown
    && var calls := turns[0].calls;
       if |turns| == 1 then
         && |calls| == |payloads| + 1 && calls[|payloads|] == Done
         && forall i | 0 <= i < |payloads| :: calls[i] == Write(payloads[i])
       else
         && |calls| <= |payloads| && (forall i | 0 <= i < |calls| :: calls[i] == Write(payloads[i]))
         && Writes(turns[1..], payloads[|calls|..])
  }

  // Empty payloads are not sent.
  function NonEmpty(payloads: seq<string>): seq<string> {
    if payloads == [] then []
    else (if payloads[0] == "" then [] else [payloads[0]]) + NonEmpty(payloads[1..])
  }

  lemma {:induction false} NonEmptyOnly(payloads: seq<string>)
    ensures forall p | p in NonEmpty(payloads) :: p != "" && p in payloads
    ensures Concat(NonEmpty(payloads)) == Concat(payloads)
  {
    if payloads != [] {
      NonEmptyOnly(payloads[1..]);
      var p, rest := payloads[0], NonEmpty(payloads[1..]);
      if p == "" {
        assert [] + rest == rest && "" + Concat(payloads[1..]) == Concat(payloads[1..]);
      } else {
        assert ([p] + rest)[1..] == rest;
      }
    }
  }

  // The chunks of an encoding without its end.
  function ChunkTexts(payloads: seq<string>): string {
    if payloads == [] then "" else Chunk(payloads[0]) + ChunkTexts(payloads[1..])
  }

  lemma {:induction false} ChunkTextsConcat(a: seq<string>, b: seq<string>)
    ensures ChunkTexts(a + b) == ChunkTexts(a) + ChunkTexts(b)
  {
    hide Chunk;
    if a == [] {
      assert a + b == b && "" + ChunkTexts(b) == ChunkTexts(b);
    } else {
      ChunkTextsConcat(a[1..], b);
      ConcatFront(a, b);
      Reassociate(Chunk(a[0]), ChunkTexts(a[1..]), ChunkTexts(b));
    }
  }

  lemma {:induction false} ChunksThenEnd(a: seq<string>, b: seq<string>)
    ensures EncodeChunks(a + b) == ChunkTexts(a) + EncodeChunks(b)
  {
    hide Chunk;
    if a == [] {
      assert a + b == b && "" + EncodeChunks(b) == EncodeChunks(b);
    } else {
      ChunksThenEnd(a[1..], b);
      ConcatFront(a, b);
      Reassociate(Chunk(a[0]), ChunkTexts(a[1..]), EncodeChunks(b));
    }
  }

  lemma ConcatFront<T>(a: seq<T>, b: seq<T>)
    requires a != []
    ensures a + b != [] && (a + b)[0] == a[0] && (a + b)[1..] == a[1..] + b
  {
  }

  lemma {:induction false} NonEmptyConcat(a: seq<string>, b: seq<string>)
    ensures NonEmpty(a + b) == NonEmpty(a) + NonEmpty(b)
  {
    if a == [] {
      assert a + b == b && [] + NonEmpty(b) == NonEmpty(b);
    } else {
      NonEmptyConcat(a[1..], b);
      ConcatFront(a, b);
      Associate(if a[0] == "" then [] else [a[0]], NonEmpty(a[1..]), NonEmpty(b));
    }
  }

  lemma Associate(a: seq<string>, b: seq<string>, c: seq<string>)
    ensures a + (b + c) == a + b + c
  {
  }

  lemma {:induction false} EmittedChunks(calls: seq<SinkCall>, payloads: seq<string>)
    requires |calls| == |payloads| && forall i | 0 <= i < |calls| :: calls[i] == Write(payloads[i])
    ensures EmittedAll(calls) == ChunkTexts(NonEmpty(payloads))
  {
    hide Chunk;
    if calls != [] {
      var n := |calls| - 1;
      EmittedChunks(calls[..n], payloads[..n]);
      assert payloads == payloads[..n] + [payloads[n]] && [payloads[n]][1..] == [];
      NonEmptyConcat(payloads[..n], [payloads[n]]);
      ChunkTextsConcat(NonEmpty(payloads[..n]), NonEmpty([payloads[n]]));
      assert NonEmpty([payloads[n]]) == if payloads[n] == "" then [] else [payloads[n]];
      if payloads[n] != "" { OneChunk(payloads[n]); }
    }
  }

  lemma OneChunk(p: string)
    ensures ChunkTexts([p]) == Chunk(p)
  {
    hide Chunk;
    assert [p][1..] == [];
  }

  // No turn but the last ends with an empty write, which the loop takes for the end of the data.
  ghost predicate EndsFull(turns: seq<Turn>) {
    forall i | 0 <= i < |turns| - 1 :: turns[i].calls != [] ==> turns[i].calls[|turns[i].calls| - 1] != Write("")
  }

  lemma {:induction false} WriterEncodes(turns: seq<Turn>, payloads: seq<string>)
    requires Writes(turns, payloads) && EndsFull(turns)
    ensures Output(turns) == (EncodeChunks(NonEmpty(payloads)), Success)
    decreases |turns|
  {
    hide Chunk;
    var calls := turns[0].calls;
    if |turns| == 1 {
      assert calls[..|calls| - 1] == calls[..|payloads|];
      EmittedChunks(calls[..|payloads|], payloads);
      ChunksThenEnd(NonEmpty(payloads), []);
      assert NonEmpty(payloads) + [] == NonEmpty(payloads);
    } else {
      var n := |calls|;
      assert payloads == payloads[..n] + payloads[n..];
      EmittedChunks(calls, payloads[..n]);
      NonEmptyConcat(payloads[..n], payloads[n..]);
      ChunksThenEnd(NonEmpty(payloads[..n]), NonEmpty(payloads[n..]));
      assert EndsFull(turns[1..]);
      WriterEncodes(turns[1..], payloads[n..]);
      assert turns[0].calls != [] ==> turns[0].calls[|turns[0].calls| - 1] != Write("");
    }
  }

  // A turn that ends with an empty write ends the loop without an error and without the end marker.
  lemma {:induction false} WriterStops(turns: seq<Turn>, payloads: seq<string>) returns (m: nat)
    requires Writes(turns, payloads) && !EndsFull(turns)
    ensures m <= |payloads| && Output(turns) == (ChunkTexts(NonEmpty(payloads[..m])), Success)
    decreases |turns|
  {
    hide Emitted, NonEmpty, ChunkTexts;
    var calls := turns[0].calls;
    var n := |calls|;
    EmittedChunks(calls, payloads[..n]);
    if n > 0 && calls[n - 1] == Write("") {
      m := n;
    } else {
      StopsLater(turns);
      m := WriterStops(turns[1..], payloads[n..]);
      ChunksThenMore(payloads, n, m);
      m := n + m;
    }
  }

  lemma StopsLater(turns: seq<Turn>)
    requires |turns| > 1 && !EndsFull(turns)
    requires turns[0].calls != [] ==> turns[0].calls[|turns[0].calls| - 1] != Write("")
    ensures !EndsFull(turns[1..])
  {
    var i :| 0 <= i < |turns| - 1 && turns[i].calls != [] && turns[i].calls[|turns[i].calls| - 1] == Write("");
    assert i > 0 && turns[1..][i - 1] == turns[i];
  }

  lemma ChunksThenMore(payloads: seq<string>, n: nat, m: nat)
    requires n + m <= |payloads|
    ensures ChunkTexts(NonEmpty(payloads[..n + m])) ==
            ChunkTexts(NonEmpty(payloads[..n])) + ChunkTexts(NonEmpty(payloads[n..][..m]))
  {
    hide NonEmpty, ChunkTexts;
    assert payloads[..n + m] == payloads[..n] + payloads[n..][..m];
    NonEmptyConcat(payloads[..n], payloads[n..][..m]);
    ChunkTextsConcat(NonEmpty(payloads[..n]), NonEmpty(payloads[n..][..m]));
  }

  lemma {:induction false} NoEndNoBody(payloads: seq<string>)
    requires forall p | p in payloads :: p != "" && |p| < ULONG_MAX
    ensures DecodeChunks(ChunkTexts(payloads)) == Decoded(false, Concat(payloads), "")
  {
    hide Chunk, DecodeChunks;
    if payloads == [] {
      EndOfStream();
    } else {
      NoEndNoBody(payloads[1..]);
      ChunkDecodes(payloads[0], ChunkTexts(payloads[1..]));
    }
  }

  // Reading back what the writer put on the wire, empty writes among it: the payloads, exactly the encoding
  // consumed, whatever follows left unread.  That is so exactly when no turn but the last ends with an empty
  // write; otherwise the body has no end, though the writer reports success.
  lemma ChunkedRoundTrip(turns: seq<Turn>, payloads: seq<string>, tail: string)
    requires Writes(turns, payloads) && forall p | p in payloads :: |p| < ULONG_MAX
    ensures Output(turns).1 == Success
    ensures EndsFull(turns) ==> DecodeChunks(Output(turns).0 + tail) == Decoded(true, Concat(payloads), tail)
    ensures !EndsFull(turns) ==> !DecodeChunks(Output(turns).0).ok
  {
    hide DecodeChunks, Writes, EndsFull, Output;
    NonEmptyOnly(payloads);
    if EndsFull(turns) {
      WriterEncodes(turns, payloads);
      EncodedDecodes(NonEmpty(payloads), tail);
    } else {
      var m := WriterStops(turns, payloads);
      NonEmptyOnly(payloads[..m]);
      NoEndNoBody(NonEmpty(payloads[..m]));
    }
  }

  // ------------------------------------------------------------------------------------------
  // Bodies as any sender may write them

  // A chunk whose size is written in any digits and may be followed by an extension.
  datatype WireChunk = WireChunk(digits: string, ext: string, payload: string)

  predicate SizeText(digits: string, ext: string) {
    HexNumber(digits) && Free(ext, "\n\0") && EndsNumber(ext + CRLF)
  }

  predicate GoodChunk(c: WireChunk) {
    && SizeText(c.digits, c.ext) && HexValue(c.digits, 0, |c.digits|) == |c.payload|
    && 0 < |c.payload| < ULONG_MAX
  }

  function WireChunks(chunks: seq<WireChunk>): string {
    if chunks == [] then ""
    else (chunks[0].digits + chunks[0].ext + CRLF) + (chunks[0].payload + (CRLF + WireChunks(chunks[1..])))
  }

  function Payloads(chunks: seq<WireChunk>): seq<string> {
    if chunks == [] then [] else [chunks[0].payload] + Payloads(chunks[1..])
  }

  lemma AnySizeLine(digits: string, ext: string, body: string)
    requires SizeText(digits, ext)
    ensures var line, v := digits + ext + CRLF, HexValue(digits, 0, |digits|);
      && FirstLine(line + body) == line && (line + body)[|line|..] == body
      && digits != "" && Strtoul16(CString(line)) == (if v > ULONG_MAX then ULONG_MAX else v, |digits|)
  {
    hide Strtoul16, HexValue, EndsNumber, HexDigit, FirstLine, CString;
    HexIsNoSign();
    var line := digits + ext + CRLF;
    var text := digits + ext + "\r";
    assert line == text + "\n";
    LineIsPlain(digits, ext);
    FirstLineIs(text, body);
    CStringWithoutNul(line);
    assert line == "" + "" + "" + digits + (ext + CRLF);
    StrtoulMeans("", "", "", digits, ext + CRLF);
  }

  lemma LineIsPlain(digits: string, ext: string)
    requires SizeText(digits, ext)
    ensures '\n' !in digits + ext + "\r" && '\0' !in digits + ext + CRLF
  {
    hide HexDigit, EndsNumber;
    HexIsNoSign();
    assert '\n' in "\n\0" && '\0' in "\n\0";
    assert '\n' !in digits && '\0' !in digits && '\n' !in ext && '\0' !in ext;
  }

  lemma AnyChunkDecodes(c: WireChunk, rest: string)
    requires GoodChunk(c)
    ensures DecodeChunks((c.digits + c.ext + CRLF) + (c.payload + (CRLF + rest))) ==
            Prepend(c.payload, DecodeChunks(rest))
  {
    hide Strtoul16, HexValue, SizeText;
    var body := c.payload + (CRLF + rest);
    AnySizeLine(c.digits, c.ext, body);
    assert body[|c.payload|..] == CRLF + rest;
    FirstLineIs("\r", rest);
    assert "\r" + "\n" == CRLF;
    CStringWithoutNul(CRLF);
    assert (CRLF + rest)[2..] == rest;
  }

  // A size of zero: what follows must be an empty line, and nothing else is looked at.
  lemma LastChunk(digits: string, ext: string, after: string)
    requires SizeText(digits, ext) && HexValue(digits, 0, |digits|) == 0
    ensures DecodeChunks((digits + ext + CRLF) + after) ==
            Decoded(CString(FirstLine(after)) == CRLF, "", after[|FirstLine(after)|..])
  {
    hide Strtoul16, HexValue, SizeText, FirstLine, CString;
    AnySizeLine(digits, ext, after);
  }

  // Chunks of any sizes, digits and extensions, then the last one.
  lemma {:induction false} WireBodyDecodes(chunks: seq<WireChunk>, digits: string, ext: string, after: string)
    requires (forall c | c in chunks :: GoodChunk(c)) && SizeText(digits, ext) && HexValue(digits, 0, |digits|) == 0
    ensures DecodeChunks(WireChunks(chunks) + ((digits + ext + CRLF) + after)) ==
            Decoded(CString(FirstLine(after)) == CRLF, Concat(Payloads(chunks)), after[|FirstLine(after)|..])
    decreases |chunks|
  {
    hide GoodChunk, SizeText, DecodeChunks, CString, FirstLine, HexValue;
    var last := (digits + ext + CRLF) + after;
    if chunks == [] {
      LastChunk(digits, ext, after);
      assert "" + last == last;
    } else {
      var c, rest := chunks[0], WireChunks(chunks[1..]) + last;
      assert c in chunks;
      WireBodyDecodes(chunks[1..], digits, ext, after);
      AnyChunkDecodes(c, rest);
      MoveLast(c.digits + c.ext + CRLF, c.payload, CRLF, WireChunks(chunks[1..]), last);
    }
  }

  lemma MoveLast(a: string, b: string, c: string, d: string, e: string)
    ensures (a + (b + (c + d))) + e == a + (b + (c + (d + e)))
  {
    assert (b + (c + d)) + e == b + (c + (d + e));
  }

  // Trailer fields behind the last chunk make the reader fail, though the whole body has been delivered.
  lemma TrailersAreRefused(chunks: seq<WireChunk>, digits: string, ext: string, field: string, more: string)
    requires (forall c | c in chunks :: GoodChunk(c)) && SizeText(digits, ext) && HexValue(digits, 0, |digits|) == 0
    requires field != "" && Free(field, "\n\0")
    ensures DecodeChunks(WireChunks(chunks) + ((digits + ext + CRLF) + (field + CRLF + more))) ==
            Decoded(false, Concat(Payloads(chunks)), more)
  {
    hide GoodChunk, SizeText, DecodeChunks, CString, FirstLine, HexValue;
    var line := field + CRLF;
    assert '\n' in "\n\0" && '\0' in "\n\0";
    assert '\n' !in field + "\r" && '\0' !in line;
    assert line == (field + "\r") + "\n";
    FirstLineIs(field + "\r", more);
    CStringWithoutNul(line);
    assert (line + more)[|line|..] == more;
    WireBodyDecodes(chunks, digits, ext, line + more);
  }

  // A size that does not fit an unsigned long ends the reading, and so does the largest that fits.
  lemma HugeChunk(digits: string, ext: string, body: string)
    requires SizeText(digits, ext) && HexValue(digits, 0, |digits|) >= ULONG_MAX
    ensures DecodeChunks((digits + ext + CRLF) + body) == Decoded(false, "", body)
  {
    hide Strtoul16, HexValue, SizeText, FirstLine, CString;
    AnySizeLine(digits, ext, body);
  }

  // A line that does not begin with a number is no size.
  lemma NoSize(s: string)
    requires s != "" && HexDigit(s[0]) < 0 && !IsSpace(s[0]) && s[0] != '+' && s[0] != '-'
    ensures DecodeChunks(s) == Decoded(false, "", s[|FirstLine(s)|..])
  {
    var line := FirstLine(s);
    assert line[0] == s[0];
    var t := CString(line);
    assert t != "" ==> t[0] == s[0];
    assert HexDigit('0') == 0;
  }

  // ------------------------------------------------------------------------------------------
  // Bodies cut short and chunks without a line end

  // A chunk followed by anything but an empty line ends the body there, and the call succeeds unless
  // nothing at all follows.
  lemma WrongChunkEnd(payload: string, after: string)
    requires payload != "" && |payload| < ULONG_MAX && CString(FirstLine(after)) != CRLF
    ensures DecodeChunks(HexText(|payload|) + CRLF + payload + after) ==
            Decoded(after != "", payload, after[|FirstLine(after)|..])
  {
    hide DecodeChunks, HexText, CString, FirstLine;
    SizeThenBody(|payload|, payload + after);
    assert HexText(|payload|) + CRLF + payload + after == HexText(|payload|) + CRLF + (payload + after);
    assert (payload + after)[|payload|..] == after;
    NoTrailer(after);
  }

  lemma NoTrailer(after: string)
    ensures FirstLine(after) == "" <==> after == ""
  {
  }

  lemma SizeThenBody(n: nat, body: string)
    requires 0 < n < ULONG_MAX
    ensures DecodeChunks(HexText(n) + CRLF + body) == DecodeBody(body, n)
  {
    hide HexText, Strtoul16, CString, FirstLine, DecodeBody;
    SizeLine(n, body);
  }

  // k bytes of the encoding stop between the CR and the LF behind some chunk.
  predicate CutInLineEnd(payloads: seq<string>, k: nat) {
    payloads != [] &&
    var n := |Chunk(payloads[0])|;
    k == n - 1 || (k >= n && CutInLineEnd(payloads[1..], k - n))
  }

  lemma NoLineNoBody(s: string)
    requires '\n' !in s
    ensures !DecodeChunks(s).ok
  {
    hide Strtoul16, CString;
    assert s + "" == s;
    FirstLineIs(s, "");
    assert CString("") == "" by { CStringWithoutNul(""); }
  }

  // One chunk cut short.
  lemma TruncatedChunk(payload: string, k: nat)
    requires payload != "" && |payload| < ULONG_MAX && k < |Chunk(payload)|
    ensures DecodeChunks(Chunk(payload)[..k]).ok <==> k == |Chunk(payload)| - 1
  {
    hide HexText, Strtoul16;
    var line := HexText(|payload|) + CRLF;
    var s := Chunk(payload)[..k];
    HexTextDigits(|payload|);
    if k < |line| {
      forall i | 0 <= i < k ensures s[i] != '\n' { assert s[i] == line[i]; }
      NoLineNoBody(s);
    } else {
      var body := (payload + CRLF)[..k - |line|];
      assert Chunk(payload) == line + (payload + CRLF);
      assert s == line + body;
      SizeLine(|payload|, body);
      TruncatedBody(payload, body, k - |line|);
    }
  }

  lemma TruncatedBody(payload: string, body: string, k: nat)
    requires payload != "" && k < |payload| + 2 && body == (payload + CRLF)[..k]
    ensures DecodeBody(body, |payload|).ok <==> k == |payload| + 1
  {
  }

  lemma TruncatedEnd(k: nat)
    requires k < |DONE_MARKER|
    ensures !DecodeChunks(DONE_MARKER[..k]).ok
  {
    hide Strtoul16;
    var s := DONE_MARKER[..k];
    if k < 3 {
      NoLineNoBody(s);
    } else {
      assert HexText(0) == "0";
      var body := "\r\n"[..k - 3];
      assert s == ("0" + CRLF) + body;
      SizeLine(0, body);
      FirstLineIs(body, "");
      assert body + "" == body;
      CStringWithoutNul(body);
    }
  }

  // A body whose connection dies early is reported as a failure, wherever the cut is, unless it falls
  // between the CR and the LF behind a chunk: then the call succeeds and the other chunks are missing.
  lemma {:induction false} TruncatedEncoding(payloads: seq<string>, k: nat)
    requires forall p | p in payloads :: p != "" && |p| < ULONG_MAX
    requires k < |EncodeChunks(payloads)|
    ensures DecodeChunks(EncodeChunks(payloads)[..k]).ok <==> CutInLineEnd(payloads, k)
    decreases |payloads|
  {
    hide Chunk, DecodeChunks;
    if payloads == [] {
      TruncatedEnd(k);
    } else {
      var first, rest := Chunk(payloads[0]), EncodeChunks(payloads[1..]);
      if k < |first| {
        TruncatedChunk(payloads[0], k);
        assert (first + rest)[..k] == first[..k];
      } else {
        TruncatedEncoding(payloads[1..], k - |first|);
        ChunkDecodes(payloads[0], rest[..k - |first|]);
        assert (first + rest)[..k] == first + rest[..k - |first|];
      }
    }
  }
}
