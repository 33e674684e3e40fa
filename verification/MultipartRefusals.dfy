// Where parsing stops: at the first callback that refuses, and at the line that closes the body.

module MultipartRefusals {
  import opened Text
  import opened Multipart
  import opened MultipartLaws
  import opened MultipartRoundTrip
  import opened MultipartHeaders
  import opened MultipartPrinting

  // ------------------------------------------------------------------------------------------
  // Callbacks that refuse

  ghost const YES: Callbacks := (_: seq<Event>) => true

  // The i-th event is a callback, and the answer to it is no.
  ghost predicate Refused(accept: Callbacks, log: seq<Event>, i: int) {
    0 < i <= |log| && !log[i - 1].Drop? && !accept(log[..i])
  }

  ghost predicate NoneRefused(accept: Callbacks, log: seq<Event>, from: nat, to: int) {
    forall i | from < i <= to :: !Refused(accept, log, i)
  }

  // Of what happens behind the first n events when every callback agrees, everything happens, or what comes
  // up to the first refusal.
  ghost predicate UpToRefusal(accept: Callbacks, n: nat, all: seq<Event>, log: seq<Event>, refused: bool) {
    && n <= |log| && log <= all
    && if refused then n < |log| && Refused(accept, all, |log|) && NoneRefused(accept, all, n, |log| - 1)
       else log == all && NoneRefused(accept, all, n, |all|)
  }

  // The machine's answer to a refusal.
  predicate Stopped(o: Outcome) { !o.ok && !o.m.valid }

  ghost predicate Obeys(accept: Callbacks, n: nat, all: Outcome, o: Outcome) {
    || (o == all && UpToRefusal(accept, n, all.log, o.log, false))
    || (Stopped(o) && UpToRefusal(accept, n, all.log, o.log, true))
  }

  lemma Begin(accept: Callbacks, log: seq<Event>)
    ensures UpToRefusal(accept, |log|, log, log, false)
  {
  }

  lemma SameSoFar(accept: Callbacks, log: seq<Event>, all: seq<Event>)
    requires log <= all
    ensures forall i | i <= |log| :: Refused(accept, all, i) <==> Refused(accept, log, i)
  {
    forall i | 0 < i <= |log| ensures Refused(accept, all, i) <==> Refused(accept, log, i) {
      assert all[..i] == log[..i];
    }
  }

  lemma OneErased(accept: Callbacks, n: nat, log: seq<Event>, d: string)
    requires UpToRefusal(accept, n, log, log, false)
    ensures UpToRefusal(accept, n, log + [Drop(d)], log + [Drop(d)], false)
  {
    SameSoFar(accept, log, log + [Drop(d)]);
  }

  lemma OneCalled(accept: Callbacks, n: nat, log: seq<Event>, e: Event)
    requires UpToRefusal(accept, n, log, log, false) && !e.Drop?
    ensures UpToRefusal(accept, n, log + [e], log + [e], !accept(log + [e]))
  {
    var log1 := log + [e];
    SameSoFar(accept, log, log1);
    assert log1[..|log1|] == log1;
  }

  // What comes behind a refusal does not matter.
  lemma BeyondRefusal(accept: Callbacks, n: nat, log: seq<Event>, all: seq<Event>)
    requires UpToRefusal(accept, n, log, log, true) && log <= all
    ensures UpToRefusal(accept, n, all, log, true)
  {
    SameSoFar(accept, log, all);
  }

  lemma Joined(accept: Callbacks, n: nat, log: seq<Event>, all: seq<Event>, log1: seq<Event>, refused: bool)
    requires UpToRefusal(accept, n, log, log, false) && UpToRefusal(accept, |log|, all, log1, refused) && log <= all
    ensures UpToRefusal(accept, n, all, log1, refused)
  {
    SameSoFar(accept, log, all);
  }

  lemma {:induction false} HeadersUpToRefusal(m: Machine, accept: Callbacks, log: seq<Event>)
    requires m.state == 2
    ensures Obeys(accept, |log|, Headers(m, YES, log), Headers(m, accept, log))
    decreases |m.window|
  {
    hide HeaderLine, FindFrom, UpToRefusal;
    var pos := Find(m.window, CRLF);
    Begin(accept, log);
    if pos < |m.window| {
      var d := m.window[..pos + 2];
      if pos == 0 {
        var called := log + [Header(m.file)];
        OneCalled(accept, |log|, log, Header(m.file));
        if accept(called) {
          OneErased(accept, |log|, called, CRLF);
        } else {
          BeyondRefusal(accept, |log|, called, called + [Drop(CRLF)]);
        }
      } else {
        var next := m.(file := HeaderLine(m.file, m.window[..pos]), window := m.window[pos + 2..]);
        OneErased(accept, |log|, log, d);
        HeadersUpToRefusal(next, accept, log + [Drop(d)]);
        HeadersAdd(next, YES, log + [Drop(d)]);
        var all, o := Headers(m, YES, log), Headers(m, accept, log);
        if o == all && UpToRefusal(accept, |log| + 1, all.log, o.log, false) {
          Joined(accept, |log|, log + [Drop(d)], all.log, o.log, false);
        } else {
          Joined(accept, |log|, log + [Drop(d)], all.log, o.log, true);
        }
      }
    }
  }

  lemma {:induction false} HeadersAdd(m: Machine, accept: Callbacks, log: seq<Event>)
    requires m.state == 2
    ensures log <= Headers(m, accept, log).log
    decreases |m.window|
  {
    hide HeaderLine, FindFrom;
    var pos := Find(m.window, CRLF);
    if 0 < pos < |m.window| {
      var d := m.window[..pos + 2];
      var next := m.(file := HeaderLine(m.file, m.window[..pos]), window := m.window[pos + 2..]);
      HeadersAdd(next, accept, log + [Drop(d)]);
    }
  }

  // A turn ends in a refusal, or is the one that callbacks which agree would see.
  ghost predicate TurnUpToRefusal(accept: Callbacks, n: nat, all: Turn, t: Turn) {
    || (t == all && UpToRefusal(accept, n, TurnLog(all), TurnLog(t), false))
    || (t.Return? && Stopped(t.o) && UpToRefusal(accept, n, TurnLog(all), TurnLog(t), true))
  }

  lemma CandidateUpToRefusal(boundary: string, m: Machine, accept: Callbacks, log: seq<Event>)
    ensures TurnUpToRefusal(accept, |log|, Candidate(boundary, m, YES, log), Candidate(boundary, m, accept, log))
  {
    hide FindFrom, UpToRefusal;
    Begin(accept, log);
    var delim := Delimiter(boundary);
    if |delim| <= |m.window| {
      var q := Find(m.window, delim);
      var e := Content(m.window[..if q < |m.window| then q else |delim|]);
      OneCalled(accept, |log|, log, e);
      if !accept(log + [e]) {
        BeyondRefusal(accept, |log|, log + [e], TurnLog(Candidate(boundary, m, YES, log)));
      } else if q < |m.window| {
        OneErased(accept, |log|, log + [e], delim);
      }
    }
  }

  lemma CandidateAdds(boundary: string, m: Machine, accept: Callbacks, log: seq<Event>)
    ensures log <= TurnLog(Candidate(boundary, m, accept, log))
  {
    hide FindFrom;
  }

  lemma BodyUpToRefusal(boundary: string, m: Machine, accept: Callbacks, log: seq<Event>)
    requires m.state == 3
    ensures TurnUpToRefusal(accept, |log|, BodyText(boundary, m, YES, log), BodyText(boundary, m, accept, log))
  {
    hide FindFrom, UpToRefusal, Candidate;
    Begin(accept, log);
    if |CRLF_DASH| <= |m.window| {
      var p := Find(m.window, CRLF_DASH);
      var log1 := log + [Content(m.window[..p])];
      var m1 := m.(window := m.window[p..]);
      OneCalled(accept, |log|, log, Content(m.window[..p]));
      CandidateAdds(boundary, m1, YES, log1);
      var all, t := Candidate(boundary, m1, YES, log1), Candidate(boundary, m1, accept, log1);
      if accept(log1) {
        CandidateUpToRefusal(boundary, m1, accept, log1);
        if t == all && UpToRefusal(accept, |log| + 1, TurnLog(all), TurnLog(t), false) {
          Joined(accept, |log|, log1, TurnLog(all), TurnLog(t), false);
        } else {
          Joined(accept, |log|, log1, TurnLog(all), TurnLog(t), true);
        }
      } else {
        BeyondRefusal(accept, |log|, log1, TurnLog(all));
      }
    }
  }

  lemma TurnStops(boundary: string, m: Machine, accept: Callbacks, log: seq<Event>)
    requires m.state <= 5 && m.window != ""
    ensures TurnUpToRefusal(accept, |log|, TakeTurn(boundary, m, YES, log), TakeTurn(boundary, m, accept, log))
    ensures log <= TurnLog(TakeTurn(boundary, m, YES, log))
  {
    hide FindFrom, HeaderLine, Headers, BodyText, UpToRefusal;
    Begin(accept, log);
    match m.state
    case 0 => OneErased(accept, |log|, log, DASH + boundary + CRLF);
    case 2 =>
      HeadersUpToRefusal(m, accept, log);
      HeadersAdd(m, YES, log);
    case 3 =>
      BodyUpToRefusal(boundary, m, accept, log);
      BodyAdds(boundary, m, YES, log);
    case 4 =>
      OneErased(accept, |log|, log, CRLF);
      OneErased(accept, |log|, log, DASH_CRLF);
    case _ =>
  }

  lemma BodyAdds(boundary: string, m: Machine, accept: Callbacks, log: seq<Event>)
    ensures log <= TurnLog(BodyText(boundary, m, accept, log))
  {
    hide FindFrom;
  }

  lemma {:induction false} RunAdds(boundary: string, m: Machine, log: seq<Event>)
    requires m.state <= 5
    ensures log <= Run(boundary, m, YES, log).log
    decreases |m.window|, if m.state == 1 then 1 else 0
  {
    hide TakeTurn;
    if m.window != "" {
      TurnStops(boundary, m, YES, log);
      var t := TakeTurn(boundary, m, YES, log);
      if t.Again? { RunAdds(boundary, t.next, t.log); }
    }
  }

  // Whatever the callbacks answer, and to whichever call: without a refusal the call is the one they would
  // all agree to; with one, it does what that one does up to the first refusal and nothing behind it, returns
  // false, and the body is invalid.
  lemma {:induction false} RefusalStops(boundary: string, m: Machine, accept: Callbacks, log: seq<Event>)
    requires m.state <= 5
    ensures Obeys(accept, |log|, Run(boundary, m, YES, log), Run(boundary, m, accept, log))
    decreases |m.window|, if m.state == 1 then 1 else 0
  {
    hide TakeTurn, UpToRefusal;
    Begin(accept, log);
    if m.window != "" {
      TurnStops(boundary, m, accept, log);
      var all, t := TakeTurn(boundary, m, YES, log), TakeTurn(boundary, m, accept, log);
      if all.Again? {
        RunAdds(boundary, all.next, all.log);
        var whole := Run(boundary, all.next, YES, all.log);
        if t == all && UpToRefusal(accept, |log|, all.log, all.log, false) {
          RefusalStops(boundary, all.next, accept, all.log);
          var o := Run(boundary, all.next, accept, all.log);
          if o == whole && UpToRefusal(accept, |all.log|, whole.log, o.log, false) {
            Joined(accept, |log|, all.log, whole.log, o.log, false);
          } else {
            Joined(accept, |log|, all.log, whole.log, o.log, true);
          }
        } else {
          RefusedEarlier(accept, |log|, all.log, t.o.log, whole.log);
        }
      }
    }
  }

  lemma RefusedEarlier(accept: Callbacks, n: nat, some: seq<Event>, log: seq<Event>, all: seq<Event>)
    requires UpToRefusal(accept, n, some, log, true) && some <= all
    ensures UpToRefusal(accept, n, all, log, true)
  {
    SameSoFar(accept, some, all);
  }

  // ------------------------------------------------------------------------------------------
  // The end of the body

  predicate Closed(o: Outcome) { o.ok && o.m.state == 5 }

  // Input that closes the body does so whatever follows it.
  lemma {:induction false} ClosedThenMore(boundary: string, m: Machine, accept: Callbacks, log: seq<Event>,
                                          more: string)
    requires m.state <= 5 && Closed(Run(boundary, m, accept, log))
    ensures var o := Run(boundary, m, accept, log);
      o.m.window == "" && Run(boundary, Extend(m, more), accept, log) == Run(boundary, Extend(o.m, more), accept, o.log)
    decreases |m.window|, if m.state == 1 then 1 else 0
  {
    hide FindFrom, TakeTurn;
    if m.window != "" {
      if m.state == 3 && Find(m.window, Delimiter(boundary)) == |m.window| {
        NoDelimiterStaysInBody(boundary, m, accept, log);
      }
      EndIsFinal(boundary, m, accept, log);
      TurnSplit(boundary, m, accept, log, more);
      var t := TakeTurn(boundary, m, accept, log);
      ClosedThenMore(boundary, t.next, accept, t.log, more);
    }
  }

  lemma EndIsFinal(boundary: string, m: Machine, accept: Callbacks, log: seq<Event>)
    requires m.state <= 5 && m.window != ""
    ensures var t := TakeTurn(boundary, m, accept, log); t.Return? ==> !Closed(t.o)
  {
    hide FindFrom, HeaderLine, Headers, BodyText;
  }

  // Input behind the closing line is refused: the call returns false, the body is no longer valid, and the
  // items have been delivered all the same.
  lemma TailIsRefused(boundary: string, m: Machine, accept: Callbacks, log: seq<Event>, tail: string)
    requires m.state <= 5 && Closed(Run(boundary, m, accept, log)) && tail != ""
    ensures var o := Run(boundary, m, accept, log);
      Run(boundary, Extend(m, tail), accept, log) == Outcome(o.m.(valid := false, window := tail), false, o.log)
  {
    hide TakeTurn;
    ClosedThenMore(boundary, m, accept, log, tail);
    var o := Run(boundary, m, accept, log);
    assert "" + tail == tail;
    assert TakeTurn(boundary, Extend(o.m, tail), accept, o.log) ==
           Return(Outcome(o.m.(valid := false, window := tail), false, o.log)) by { LastState(boundary); }
  }

  lemma LastState(boundary: string)
    ensures forall m: Machine, accept: Callbacks, log | m.state == 5 && m.window != "" ::
      TakeTurn(boundary, m, accept, log) == Return(Outcome(m.(valid := false), false, log))
  {
  }

  // No input that closes the body is the beginning of another one.
  lemma NoPrefixCloses(boundary: string, m: Machine, accept: Callbacks, log: seq<Event>, more: string)
    requires m.state <= 5 && Closed(Run(boundary, Extend(m, more), accept, log)) && more != ""
    ensures !Closed(Run(boundary, m, accept, log))
  {
    hide Run;
    if Closed(Run(boundary, m, accept, log)) { TailIsRefused(boundary, m, accept, log, more); }
  }

  lemma WrittenBodyCloses(boundary: string, parts: seq<Written>, accept: Callbacks)
    requires '\r' !in boundary && Accepting(accept)
    requires parts != [] && AllPlainParts(parts) && NoneHoldsDelimiter(boundary, parts)
    ensures var o := Run(boundary, START.(window := WriteBody(boundary, parts)), accept, []);
      Closed(o) && o.m.valid && Parts(o.log) == Items(parts)
  {
    hide AllPlainParts, NoneHoldsDelimiter, Run, Parts, WriteBody;
    WrittenBodyParses(boundary, parts, accept);
    assert "" + WriteBody(boundary, parts) == WriteBody(boundary, parts);
    assert [] + Items(parts) == Items(parts);
  }

  // A body with an epilogue: all its items have been delivered when the call returns false.
  lemma EpilogueIsRefused(boundary: string, parts: seq<Written>, accept: Callbacks, tail: string)
    requires '\r' !in boundary && Accepting(accept) && tail != ""
    requires parts != [] && AllPlainParts(parts) && NoneHoldsDelimiter(boundary, parts)
    ensures var o := ParseCall(boundary, START, accept, WriteBody(boundary, parts) + tail, []);
      !o.ok && !o.m.valid && o.m.window == tail && Parts(o.log) == Items(parts)
  {
    hide AllPlainParts, NoneHoldsDelimiter, Run, Parts, WriteBody;
    WrittenBodyCloses(boundary, parts, accept);
    var body := WriteBody(boundary, parts);
    TailIsRefused(boundary, START.(window := body), accept, [], tail);
    assert "" + (body + tail) == body + tail;
  }

  // A body that is cut short anywhere is not valid: however its first bytes are fed, in one call.
  lemma CutShortIsInvalid(boundary: string, parts: seq<Written>, accept: Callbacks, n: nat)
    requires '\r' !in boundary && Accepting(accept) && n < |WriteBody(boundary, parts)|
    requires parts != [] && AllPlainParts(parts) && NoneHoldsDelimiter(boundary, parts)
    ensures !ParseCall(boundary, START, accept, WriteBody(boundary, parts)[..n], []).m.valid
  {
    hide AllPlainParts, NoneHoldsDelimiter, Run, Parts, WriteBody;
    WrittenBodyCloses(boundary, parts, accept);
    var body := WriteBody(boundary, parts);
    assert body[..n] + body[n..] == body && "" + body[..n] == body[..n];
    var m := START.(window := body[..n]);
    NoPrefixCloses(boundary, m, accept, [], body[n..]);
    ValidMeansClosed(boundary, m, accept, []);
  }

  lemma {:induction false} ValidMeansClosed(boundary: string, m: Machine, accept: Callbacks, log: seq<Event>)
    requires m.state <= 5 && (m.valid ==> m.state == 5)
    ensures var o := Run(boundary, m, accept, log); o.m.valid ==> Closed(o)
    decreases |m.window|, if m.state == 1 then 1 else 0
  {
    hide TakeTurn;
    if m.window != "" {
      ValidComesLast(boundary, m, accept, log);
      match TakeTurn(boundary, m, accept, log)
      case Return(_) =>
      case Again(next, log1) => ValidMeansClosed(boundary, next, accept, log1);
    }
  }

  lemma ValidComesLast(boundary: string, m: Machine, accept: Callbacks, log: seq<Event>)
    requires m.state <= 5 && m.window != "" && (m.valid ==> m.state == 5)
    ensures var t := TakeTurn(boundary, m, accept, log);
      if t.Again? then t.next.valid ==> t.next.state == 5 else !t.o.m.valid
  {
    hide FindFrom, HeaderLine, Headers;
    if m.state == 2 { HeadersKeepValid(m, accept, log); }
  }

  lemma {:induction false} HeadersKeepValid(m: Machine, accept: Callbacks, log: seq<Event>)
    requires m.state == 2 && !m.valid
    ensures !Headers(m, accept, log).m.valid
    decreases |m.window|
  {
    hide FindFrom, HeaderLine;
    var pos := Find(m.window, CRLF);
    if 0 < pos < |m.window| {
      HeadersKeepValid(m.(file := HeaderLine(m.file, m.window[..pos]), window := m.window[pos + 2..]), accept,
                       log + [Drop(m.window[..pos + 2])]);
    }
  }

  // ------------------------------------------------------------------------------------------
  // Input that leads nowhere

  lemma PieceByPiece(w: string, pieces: seq<string>)
    requires pieces != []
    ensures (w + pieces[0]) + Concat(pieces[1..]) == w + Concat(pieces)
  {
  }

  lemma BeginningOf(p: string, w: string, more: string)
    requires p <= w
    ensures p <= w + more
  {
  }

  // A body that does not begin with its delimiter line, a preamble for instance: in whatever pieces it comes,
  // no callback is made, and once enough of it is there the call returns false.
  lemma {:induction false} WrongStartIsRefused(boundary: string, m: Machine, accept: Callbacks, pieces: seq<string>,
                                               log: seq<Event>)
    requires m.state == 0 && pieces != []
    requires var first, text := DASH + boundary + CRLF, m.window + Concat(pieces);
      |text| >= |first| && !(first <= text)
    ensures Feed(boundary, m, accept, pieces, log) ==
            Outcome(m.(window := m.window + Concat(pieces)), false, log)
    decreases |pieces|
  {
    hide Concat;
    var w := m.window + pieces[0];
    PieceByPiece(m.window, pieces);
    if DASH + boundary + CRLF <= w { BeginningOf(DASH + boundary + CRLF, w, Concat(pieces[1..])); }
    if |pieces| == 1 {
      assert Concat(pieces[1..]) == "" by { NoPieces(); }
      assert w + "" == w;
    } else {
      WrongStartIsRefused(boundary, m.(window := w), accept, pieces[1..], log);
    }
  }

  lemma NoPieces()
    ensures Concat([]) == ""
  {
  }

  // Behind a delimiter comes CR LF or "--" CR LF.  Anything else is not refused: every further call returns
  // true and does nothing, and the body never becomes valid.
  lemma {:induction false} WrongEndIsIgnored(boundary: string, m: Machine, accept: Callbacks, pieces: seq<string>,
                                             log: seq<Event>)
    requires m.state == 4
    requires var text := m.window + Concat(pieces); !(CRLF <= text) && !(DASH_CRLF <= text)
    ensures Feed(boundary, m, accept, pieces, log) == Outcome(m.(window := m.window + Concat(pieces)), true, log)
    decreases |pieces|
  {
    hide Concat;
    if pieces == [] {
      NoPieces();
      assert m.window + "" == m.window;
    } else {
      var w := m.window + pieces[0];
      PieceByPiece(m.window, pieces);
      if CRLF <= w { BeginningOf(CRLF, w, Concat(pieces[1..])); }
      if DASH_CRLF <= w { BeginningOf(DASH_CRLF, w, Concat(pieces[1..])); }
      WrongEndIsIgnored(boundary, m.(window := w), accept, pieces[1..], log);
    }
  }
}
