// A printed body that arrives in pieces: parsing gives the items back exactly when every cut is
// harmless.

module MultipartPieces {
  import opened Text
  import opened Multipart
  import opened MultipartLaws
  import opened MultipartRoundTrip
  import opened MultipartHeaders
  import opened MultipartPrinting

  // ------------------------------------------------------------------------------------------
  // A cut inside a header section

  // Where the last, incomplete line of w starts.
  function LineStart(w: string): (n: nat)
    ensures n <= |w|
    decreases |w|
  {
    var pos := Find(w, CRLF);
    if pos == |w| then 0 else pos + |CRLF| + LineStart(w[pos + |CRLF|..])
  }

  // A header section is cut after w, before its empty line, and rest follows.  Each call measures the
  // first line it finds: a line that is still the first one must not have been too long so far, a later
  // one, which the next call finds first, must not be too long as a whole.
  predicate HarmlessHeaderCut(w: string, rest: string) {
    var n := LineStart(w);
    if n == 0 then |w| <= HEADER_MAX else Find(w[n..] + rest, CRLF) <= HEADER_MAX
  }

  // Header lines that stop short of the empty line stop behind the last complete one.
  lemma {:induction false} HeadersRest(m: Machine, accept: Callbacks, log: seq<Event>)
    requires m.state == 2 && Accepting(accept) && Headers(m, accept, log).m.state == 2
    ensures var h, n := Headers(m, accept, log), LineStart(m.window);
      && h.ok && h.m.window == m.window[n..] && Find(h.m.window, CRLF) == |h.m.window|
      && (n == 0 <==> Find(m.window, CRLF) == |m.window|)
    decreases |m.window|
  {
    hide FindFrom, HeaderLine, OccursAt;
    var pos := Find(m.window, CRLF);
    if 0 < pos < |m.window| {
      var rest := m.window[pos + 2..];
      var next := m.(file := HeaderLine(m.file, m.window[..pos]), window := rest);
      HeadersRest(next, accept, log + [Drop(m.window[..pos + 2])]);
      assert rest[LineStart(rest)..] == m.window[pos + 2 + LineStart(rest)..];
    }
  }

  // A line that is complete only with more, and too long.
  predicate LongLine(m: Machine, more: string) {
    && m.state == 2 && Find(m.window, CRLF) == |m.window|
    && HEADER_MAX < Find(m.window + more, CRLF) < |m.window + more|
  }

  // A header turn that ends the call: harmless, it goes on where it stopped; otherwise it has refused,
  // or a line is left that will be.
  lemma HeaderCut(boundary: string, m: Machine, accept: Callbacks, log: seq<Event>, more: string)
    requires m.state == 2 && m.window != "" && Accepting(accept)
    requires TakeTurn(boundary, m, accept, log).Return? && TakeTurn(boundary, Extend(m, more), accept, log).Again?
    ensures var o := TakeTurn(boundary, m, accept, log).o;
      if HarmlessHeaderCut(m.window, more) then
        && o.ok && o.m.state == 2 && Extend(o.m, more).window != ""
        && TakeTurn(boundary, Extend(o.m, more), accept, o.log) == TakeTurn(boundary, Extend(m, more), accept, log)
      else !o.ok || LongLine(o.m, more)
  {
    hide Headers, FindFrom, LineStart, HeaderLine, OccursAt;
    var w := m.window;
    if Find(w, CRLF) < |w| { FindExtends(w, more, CRLF); }
    NoLineNoStart(w);
    if Find(w, CRLF) <= HEADER_MAX {
      HeadersRest(m, accept, log);
      HeadersSplit(m, accept, log, more);
      var h := Headers(m, accept, log);
      NoLineNoProgress(Extend(h.m, more), accept, h.log);
      if LineStart(w) == 0 { HeadersAtRest(m, accept, log); }
    }
  }

  lemma NoLineNoStart(w: string)
    ensures LineStart(w) == 0 <==> Find(w, CRLF) == |w|
  {
  }

  // One more call on a line that is too long: it refuses, or the line is still incomplete.
  lemma LongLineCall(boundary: string, m: Machine, accept: Callbacks, log: seq<Event>, data: string, more: string)
    requires LongLine(m, data + more)
    ensures var o := ParseCall(boundary, m, accept, data, log); o.ok ==> LongLine(o.m, more)
  {
    hide FindFrom, HeaderLine, OccursAt;
    var w := m.window + data;
    assert w + more == m.window + (data + more);
    if Find(w, CRLF) < |w| { FindExtends(w, more, CRLF); }
    if w == "" { NoneInNothing(CRLF); }
  }

  lemma NoneInNothing(p: string)
    ensures Find("", p) == 0
  {
  }

  // Header lines that end only in more.  If the cut is harmless, the call returns true and parsing goes on
  // as if nothing had been cut; otherwise this call or the next returns false.
  lemma CutInHeaders(boundary: string, m: Machine, accept: Callbacks, log: seq<Event>, more: string)
    requires m.state == 2 && Accepting(accept) && m.window + more != ""
    requires Headers(m, accept, log).m.state == 2
    requires HeaderSection(Extend(m, more), accept, log).Again?
    ensures var first := Run(boundary, m, accept, log);
      if HarmlessHeaderCut(m.window, more) then
        && first.ok
        && Run(boundary, Extend(m, more), accept, log) == Run(boundary, Extend(first.m, more), accept, first.log)
      else !first.ok || !ParseCall(boundary, first.m, accept, more, first.log).ok
  {
    hide Headers, HeaderSection, LineStart, Find;
    var first := Run(boundary, m, accept, log);
    if m.window == "" {
      NoneInNothing(CRLF);
      NoLineNoStart("");
    } else {
      assert TakeTurn(boundary, m, accept, log) == Return(first) by { HeadersStop(m, accept, log); }
      HeaderCut(boundary, m, accept, log, more);
      if !HarmlessHeaderCut(m.window, more) && first.ok {
        assert more + "" == more;
        LongLineCall(boundary, first.m, accept, first.log, more, "");
        NothingIsLong(ParseCall(boundary, first.m, accept, more, first.log).m);
      }
    }
  }

  lemma HeadersStop(m: Machine, accept: Callbacks, log: seq<Event>)
    requires m.state == 2 && Headers(m, accept, log).m.state == 2
    ensures HeaderSection(m, accept, log).Return?
  {
  }

  lemma NothingIsLong(m: Machine)
    ensures !LongLine(m, "")
  {
    hide Find;
    assert m.window + "" == m.window;
  }

  // An input: a first line of exactly HEADER_MAX bytes is accepted, but not when the call that starts it
  // ends between its CR and its LF.
  lemma LimitLineCut(boundary: string, m: Machine, accept: Callbacks, log: seq<Event>, line: string)
    requires m.state == 2 && m.window == line + "\r" && Free(line, "\r\n") && |line| == HEADER_MAX
    requires Accepting(accept)
    ensures !Run(boundary, m, accept, log).ok
    ensures TakeTurn(boundary, Extend(m, "\n" + CRLF), accept, log).Again?
  {
    hide FindFrom, HeaderLine;
    var w, all := m.window, m.window + ("\n" + CRLF);
    forall i | 0 <= i < |w| ensures !OccursAt(w, CRLF, i) {
      if i + 2 <= |w| { assert w[i..i + 2][0] == line[i]; }
    }
    FirstIsUnique(w, CRLF, |w|, Find(w, CRLF));
    assert all == line + (CRLF + CRLF);
    FindLineEnd(line, CRLF);
    var m1 := Machine(2, m.valid, HeaderLine(m.file, line), CRLF);
    EmptyLine(m1, accept, log + [Drop(all[..|line| + 2])], "");
    assert CRLF + "" == CRLF;
  }

  // ------------------------------------------------------------------------------------------
  // Harmless cuts

  // Where a run comes to rest: for good, or in a body without a delimiter ahead.
  function RestingPoint(boundary: string, m: Machine, accept: Callbacks, log: seq<Event>): (r: (Machine, seq<Event>))
    requires m.state <= 5
    ensures r.0.state <= 5
    decreases |m.window|, if m.state == 1 then 1 else 0
  {
    if m.window == "" || (m.state == 3 && Find(m.window, Delimiter(boundary)) == |m.window|) then (m, log)
    else match TakeTurn(boundary, m, accept, log)
      case Return(_) => (m, log)
      case Again(next, log1) => RestingPoint(boundary, next, accept, log1)
  }

  // The input of m ends, rest follows, and the cut between them is harmless: it can do harm in a header
  // section and in a body.
  predicate SafeCut(boundary: string, m: Machine, accept: Callbacks, log: seq<Event>, rest: string)
    requires m.state <= 5
  {
    var r := RestingPoint(boundary, m, accept, log).0;
    && (r.state == 2 ==> HarmlessHeaderCut(r.window, rest))
    && (r.state == 3 ==> HarmlessCut(boundary, r.window, rest))
  }

  // Every cut between two pieces is.
  predicate SafePieces(boundary: string, m: Machine, accept: Callbacks, pieces: seq<string>, log: seq<Event>)
    requires m.state <= 5
    decreases |pieces|
  {
    |pieces| > 1 ==>
      && SafeCut(boundary, Extend(m, pieces[0]), accept, log, Concat(pieces[1..]))
      && var o := ParseCall(boundary, m, accept, pieces[0], log);
         SafePieces(boundary, o.m, accept, pieces[1..], o.log)
  }

  // ------------------------------------------------------------------------------------------
  // Runs that reach the end

  // Every header line up to the empty line is complete and, its CR counted, within the limit.
  predicate ShortLines(w: string)
    decreases |w|
  {
    var pos := Find(w, CRLF);
    pos < |w| && pos < HEADER_MAX && (pos == 0 || ShortLines(w[pos + |CRLF|..]))
  }

  // Nothing in the window makes a cut dangerous but the delimiter itself.
  predicate PlainWindow(boundary: string, m: Machine) {
    && (m.state == 2 ==> ShortLines(m.window))
    && (m.state == 3 ==> Find(m.window, CRLF_DASH) == Find(m.window, Delimiter(boundary)))
  }

  // The input takes the machine to state 5 and is used up; plain asks that it be harmless on the way.
  ghost predicate OnTrack(boundary: string, m: Machine, accept: Callbacks, log: seq<Event>, plain: bool)
    requires m.state <= 5
    decreases |m.window|, if m.state == 1 then 1 else 0
  {
    if m.window == "" then m.state == 5
    else
      && m.state <= 4
      && (plain ==> PlainWindow(boundary, m))
      && (m.state == 3 ==> Find(m.window, Delimiter(boundary)) < |m.window|)
      && match TakeTurn(boundary, m, accept, log)
         case Return(_) => false
         case Again(next, log1) => OnTrack(boundary, next, accept, log1, plain)
  }

  lemma {:induction false} OnTrackSucceeds(boundary: string, m: Machine, accept: Callbacks, log: seq<Event>,
                                           plain: bool)
    requires m.state <= 5 && OnTrack(boundary, m, accept, log, plain)
    ensures Run(boundary, m, accept, log).ok
    decreases |m.window|, if m.state == 1 then 1 else 0
  {
    hide TakeTurn, PlainWindow, Find;
    if m.window != "" {
      var t := TakeTurn(boundary, m, accept, log);
      OnTrackSucceeds(boundary, t.next, accept, t.log, plain);
    }
  }

  lemma {:induction false} OnTrackIgnoresHistory(boundary: string, m: Machine, accept: Callbacks,
                                                 log1: seq<Event>, log2: seq<Event>, plain: bool)
    requires m.state <= 5 && Accepting(accept) && Parts(log1) == Parts(log2)
    requires OnTrack(boundary, m, accept, log1, plain)
    ensures OnTrack(boundary, m, accept, log2, plain)
    decreases |m.window|, if m.state == 1 then 1 else 0
  {
    hide TakeTurn, PlainWindow, Find, Parts;
    if m.window != "" {
      TurnIgnoresHistory(boundary, m, accept, log1, log2);
      var t1, t2 := TakeTurn(boundary, m, accept, log1), TakeTurn(boundary, m, accept, log2);
      OnTrackIgnoresHistory(boundary, t1.next, accept, t1.log, t2.log, plain);
    }
  }

  // A body is open only once its header callback has been made.
  ghost predicate Opened(m: Machine, log: seq<Event>) {
    m.state == 3 ==> Parts(log) != []
  }

  lemma TurnKeepsOpened(boundary: string, m: Machine, accept: Callbacks, log: seq<Event>)
    requires m.state <= 5 && m.window != "" && Accepting(accept) && Opened(m, log)
    ensures var t := TakeTurn(boundary, m, accept, log); t.Again? ==> Opened(t.next, t.log)
  {
    hide TakeTurn, Parts, BodyGain;
    TurnParts(boundary, m, accept, log);
  }

  // ------------------------------------------------------------------------------------------
  // One call on the way

  lemma {:induction false} ShortLinesGoOn(m: Machine, accept: Callbacks, log: seq<Event>, more: string)
    requires m.state == 2 && Accepting(accept) && ShortLines(m.window + more)
    ensures var h := Headers(m, accept, log); h.m.state == 2 ==> ShortLines(h.m.window + more)
    decreases |m.window|
  {
    hide FindFrom, HeaderLine, OccursAt;
    var pos := Find(m.window, CRLF);
    if 0 < pos < |m.window| {
      FindExtends(m.window, more, CRLF);
      assert (m.window + more)[pos + 2..] == m.window[pos + 2..] + more;
      var next := m.(file := HeaderLine(m.file, m.window[..pos]), window := m.window[pos + 2..]);
      ShortLinesGoOn(next, accept, log + [Drop(m.window[..pos + 2])], more);
    }
  }

  // At rest: the input is used up, no delimiter is ahead, or the turn ends the call.
  predicate Resting(boundary: string, m: Machine, accept: Callbacks, log: seq<Event>)
    requires m.state <= 5
  {
    || m.window == ""
    || (m.state == 3 && Find(m.window, Delimiter(boundary)) == |m.window|)
    || (m.state != 3 && TakeTurn(boundary, m, accept, log).Return?)
  }

  // A call can be joined with the rest of the input from its resting point.
  lemma {:induction false} Resume(boundary: string, m: Machine, accept: Callbacks, log: seq<Event>, more: string,
                                  plain: bool)
    requires m.state <= 5 && Accepting(accept) && Opened(m, log)
    requires OnTrack(boundary, Extend(m, more), accept, log, plain)
    ensures var (r, log1) := RestingPoint(boundary, m, accept, log);
      && Run(boundary, m, accept, log) == Run(boundary, r, accept, log1)
      && Run(boundary, Extend(m, more), accept, log) == Run(boundary, Extend(r, more), accept, log1)
      && OnTrack(boundary, Extend(r, more), accept, log1, plain)
      && Opened(r, log1) && Resting(boundary, r, accept, log1)
    decreases |m.window|, if m.state == 1 then 1 else 0
  {
    hide TakeTurn, PlainWindow, Find, Parts, Opened;
    if m.window == "" || (m.state == 3 && Find(m.window, Delimiter(boundary)) == |m.window|) {
    } else {
      if m.state == 3 { FoundGoesOn(boundary, m, accept, log); }
      match TakeTurn(boundary, m, accept, log)
      case Return(_) =>
      case Again(next, log1) =>
        TurnSplit(boundary, m, accept, log, more);
        TurnKeepsOpened(boundary, m, accept, log);
        Resume(boundary, next, accept, log1, more, plain);
    }
  }

  lemma FoundGoesOn(boundary: string, m: Machine, accept: Callbacks, log: seq<Event>)
    requires m.state == 3 && m.window != "" && Accepting(accept)
    requires Find(m.window, Delimiter(boundary)) < |m.window|
    ensures TakeTurn(boundary, m, accept, log).Again?
  {
    hide BodyText, Find;
    BodyFound(boundary, m, accept, log);
  }

  // What a harmful cut leaves: a refusal now or later, or an item spoilt for good.
  ghost predicate Spoilt(first: Outcome, more: string, whole: Outcome) {
    || !first.ok
    || LongLine(first.m, more)
    || forall parts :: Grows(Parts(first.log), parts) ==> Parts(whole.log) != parts
  }

  // The call is as if joined with the rest of the input.
  ghost predicate Joined(boundary: string, accept: Callbacks, first: Outcome, more: string, whole: Outcome, plain: bool)
    requires first.m.state <= 5
  {
    && first.ok && SameDelivery(whole, Run(boundary, Extend(first.m, more), accept, first.log))
    && OnTrack(boundary, Extend(first.m, more), accept, first.log, plain)
  }

  lemma CutStep(boundary: string, m: Machine, accept: Callbacks, log: seq<Event>, more: string, plain: bool)
    requires m.state <= 5 && Accepting(accept) && Opened(m, log)
    requires OnTrack(boundary, Extend(m, more), accept, log, plain)
    ensures var first := Run(boundary, m, accept, log);
      var whole := Run(boundary, Extend(m, more), accept, log);
      && Opened(first.m, first.log)
      && if SafeCut(boundary, m, accept, log, more) then Joined(boundary, accept, first, more, whole, plain)
         else Spoilt(first, more, whole)
  {
    hide Run, Parts, OnTrack, RestingPoint, Find, HarmlessCut, HarmlessHeaderCut, Spoilt, Joined, Opened, TakeTurn;
    Resume(boundary, m, accept, log, more, plain);
    var (r, log1) := RestingPoint(boundary, m, accept, log);
    if r.state == 3 {
      CutInBodyAtRest(boundary, r, accept, log1, more, plain);
    } else if r.state == 2 {
      CutInHeadersAtRest(boundary, r, accept, log1, more, plain);
    } else {
      CutElsewhere(boundary, r, accept, log1, more, plain);
    }
  }

  lemma CutInBodyAtRest(boundary: string, r: Machine, accept: Callbacks, log: seq<Event>, more: string, plain: bool)
    requires r.state == 3 && Accepting(accept) && Opened(r, log) && Resting(boundary, r, accept, log)
    requires OnTrack(boundary, Extend(r, more), accept, log, plain)
    ensures var first := Run(boundary, r, accept, log);
      var whole := Run(boundary, Extend(r, more), accept, log);
      && Opened(first.m, first.log)
      && if HarmlessCut(boundary, r.window, more) then Joined(boundary, accept, first, more, whole, plain)
         else Spoilt(first, more, whole)
  {
    hide Run, Parts, Find, HarmlessCut, Grows, BodyText, Handed, AddContent;
    NoneInNothing(Delimiter(boundary));
    BodyNotFound(boundary, r, accept, log);
    var first := Run(boundary, r, accept, log);
    if HarmlessCut(boundary, r.window, more) {
      CutKeepsItems(boundary, r, accept, log, more);
      var t1 := BodyText(boundary, Extend(r, more), accept, log);
      var t2 := BodyText(boundary, Extend(first.m, more), accept, first.log);
      OnTrackIgnoresHistory(boundary, t1.next, accept, t1.log, t2.log, plain);
      if plain { StaysPlain(boundary, r, more); }
    } else {
      CutSpoilsItem(boundary, r, accept, log, more);
    }
  }

  lemma StaysPlain(boundary: string, r: Machine, more: string)
    requires r.state == 3 && HarmlessCut(boundary, r.window, more) && PlainWindow(boundary, Extend(r, more))
    requires Find(r.window + more, Delimiter(boundary)) < |r.window + more|
    ensures var n := Handed(boundary, r.window);
      PlainWindow(boundary, r.(window := r.window[n..] + more))
  {
    hide Find, Handed;
    var w, n := r.window + more, Handed(boundary, r.window);
    assert w[n..] == r.window[n..] + more;
    FindInSuffix(w, n, Delimiter(boundary));
    FindInSuffix(w, n, CRLF_DASH);
  }

  lemma CutInHeadersAtRest(boundary: string, r: Machine, accept: Callbacks, log: seq<Event>, more: string, plain: bool)
    requires r.state == 2 && Accepting(accept) && Opened(r, log) && Resting(boundary, r, accept, log)
    requires OnTrack(boundary, Extend(r, more), accept, log, plain)
    ensures var first := Run(boundary, r, accept, log);
      var whole := Run(boundary, Extend(r, more), accept, log);
      && Opened(first.m, first.log)
      && if HarmlessHeaderCut(r.window, more) then Joined(boundary, accept, first, more, whole, plain)
         else Spoilt(first, more, whole)
  {
    hide HeaderSection, LineStart, Find, Parts, ShortLines, LongLine;
    if r.window == "" {
      NoneInNothing(CRLF);
      NoLineNoStart("");
    } else {
      HeaderCut(boundary, r, accept, log, more);
      if plain && HarmlessHeaderCut(r.window, more) { LinesStayShort(r, accept, log, more); }
    }
  }

  lemma LinesStayShort(m: Machine, accept: Callbacks, log: seq<Event>, more: string)
    requires m.state == 2 && Accepting(accept) && ShortLines(m.window + more)
    requires HeaderSection(m, accept, log).Return? && HeaderSection(m, accept, log).o.ok
    ensures ShortLines(HeaderSection(m, accept, log).o.m.window + more)
  {
    hide Headers, Find, ShortLines;
    ShortLinesGoOn(m, accept, log, more);
  }

  // Elsewhere a turn that ends the call ends it for want of input, and leaves everything as it was.
  lemma CutElsewhere(boundary: string, r: Machine, accept: Callbacks, log: seq<Event>, more: string, plain: bool)
    requires r.state in {0, 1, 4, 5} && Accepting(accept) && Resting(boundary, r, accept, log)
    requires OnTrack(boundary, Extend(r, more), accept, log, plain)
    ensures var first := Run(boundary, r, accept, log);
      && Opened(first.m, first.log)
      && Joined(boundary, accept, first, more, Run(boundary, Extend(r, more), accept, log), plain)
  {
    hide Find, HeaderSection, BodyText, Parts;
    if r.window != "" {
      assert TakeTurn(boundary, Extend(r, more), accept, log).Again?;
      PrefixExtends(r.window, more, DASH + boundary + CRLF);
      PrefixExtends(r.window, more, CRLF);
      PrefixExtends(r.window, more, DASH_CRLF);
      assert TakeTurn(boundary, r, accept, log).o == Outcome(r, true, log);
    }
  }

  lemma PrefixExtends(w: string, more: string, p: string)
    ensures |p| <= |w| ==> (p <= w + more <==> p <= w)
  {
    if |p| <= |w| { assert (w + more)[..|p|] == w[..|p|]; }
  }

  // ------------------------------------------------------------------------------------------
  // Any number of calls

  lemma GrowsTransitive(p: seq<FormData>, q: seq<FormData>, r: seq<FormData>)
    requires Grows(p, q) && Grows(q, r)
    ensures Grows(p, r)
  {
    if p != [] {
      var k := |p| - 1;
      assert k < |q| - 1 ==> q[..|q| - 1][k] == r[..|q| - 1][k];
      assert q[..|q| - 1][..k] == r[..|q| - 1][..k];
      assert q[..k] == q[..|q| - 1][..k] && r[..k] == r[..|q| - 1][..k];
    }
  }

  lemma {:induction false} FeedGrows(boundary: string, m: Machine, accept: Callbacks, pieces: seq<string>,
                                     log: seq<Event>)
    requires m.state <= 5 && Accepting(accept)
    ensures Grows(Parts(log), Parts(Feed(boundary, m, accept, pieces, log).log))
    decreases |pieces|
  {
    hide Run, Parts, Grows;
    if pieces == [] {
      GrowsReflexive(Parts(log));
    } else {
      RunParts(boundary, m.(window := m.window + pieces[0]), accept, log);
      var o := ParseCall(boundary, m, accept, pieces[0], log);
      FeedGrows(boundary, o.m, accept, pieces[1..], o.log);
      GrowsTransitive(Parts(log), Parts(o.log), Parts(Feed(boundary, m, accept, pieces, log).log));
    }
  }

  lemma GrowsReflexive(p: seq<FormData>)
    ensures Grows(p, p)
  {
  }

  lemma {:induction false} LongLineRefused(boundary: string, m: Machine, accept: Callbacks, pieces: seq<string>,
                                           log: seq<Event>)
    requires LongLine(m, Concat(pieces))
    ensures !Feed(boundary, m, accept, pieces, log).ok
    decreases |pieces|
  {
    hide Run, LongLine;
    if pieces == [] {
      NothingIsLong(m);
    } else {
      assert m.state == 2 by { LongInHeaders(m, Concat(pieces)); }
      LongLineCall(boundary, m, accept, log, pieces[0], Concat(pieces[1..]));
      var o := ParseCall(boundary, m, accept, pieces[0], log);
      if o.ok { LongLineRefused(boundary, o.m, accept, pieces[1..], o.log); }
    }
  }

  lemma LongInHeaders(m: Machine, more: string)
    requires LongLine(m, more)
    ensures m.state == 2
  {
  }

  lemma SpoiltStaysSpoilt(boundary: string, first: Outcome, accept: Callbacks, pieces: seq<string>, whole: Outcome)
    requires first.m.state <= 5 && Accepting(accept) && Spoilt(first, Concat(pieces), whole)
    ensures var o := Feed(boundary, first.m, accept, pieces, first.log);
      !first.ok || !o.ok || Parts(whole.log) != Parts(o.log)
  {
    hide Parts, Grows, Feed, LongLine;
    FeedGrows(boundary, first.m, accept, pieces, first.log);
    if LongLine(first.m, Concat(pieces)) { LongLineRefused(boundary, first.m, accept, pieces, first.log); }
  }

  // Input that leads to the end in one call leads there in pieces, every call returning true, with the
  // same items, exactly when no cut is harmful.
  lemma {:induction false} FeedInPieces(boundary: string, m: Machine, accept: Callbacks,
                                        pieces: seq<string>, log: seq<Event>)
    requires m.state <= 5 && Accepting(accept) && Opened(m, log) && pieces != []
    requires OnTrack(boundary, Extend(m, Concat(pieces)), accept, log, false)
    ensures var whole := Run(boundary, Extend(m, Concat(pieces)), accept, log);
      var o := Feed(boundary, m, accept, pieces, log);
      whole.ok && if SafePieces(boundary, m, accept, pieces, log) then SameDelivery(whole, o)
      else !o.ok || Parts(whole.log) != Parts(o.log)
    decreases |pieces|
  {
    hide Run, Parts, OnTrack, RestingPoint, Opened, SafeCut, Spoilt;
    var fed, more := Extend(m, pieces[0]), Concat(pieces[1..]);
    OnTrackSucceeds(boundary, Extend(m, Concat(pieces)), accept, log, false);
    if |pieces| == 1 {
      assert more == "" && pieces[0] + "" == pieces[0];
    } else {
      assert Extend(fed, more) == Extend(m, Concat(pieces)) by {
        assert (m.window + pieces[0]) + more == m.window + (pieces[0] + more);
      }
      FedOpened(m, pieces[0], log);
      CutStep(boundary, fed, accept, log, more, false);
      var first := Run(boundary, fed, accept, log);
      if SafeCut(boundary, fed, accept, log, more) {
        FeedInPieces(boundary, first.m, accept, pieces[1..], first.log);
      } else {
        SpoiltStaysSpoilt(boundary, first, accept, pieces[1..], Run(boundary, Extend(fed, more), accept, log));
      }
    }
  }

  lemma FedOpened(m: Machine, data: string, log: seq<Event>)
    requires Opened(m, log)
    ensures Opened(Extend(m, data), log)
  {
  }

  // ------------------------------------------------------------------------------------------
  // Whole bodies

  predicate ShortOnes(lines: seq<string>) { forall i | 0 <= i < |lines| :: |lines[i]| < HEADER_MAX }

  // The header lines of an item, their CR counted, are within the limit, and nothing in its content looks
  // like the beginning of a delimiter.
  predicate ClearPart(w: Written) {
    ShortOnes(w.lines) && Find(w.item.content, CRLF_DASH) == |w.item.content|
  }

  predicate AllClear(parts: seq<Written>) { forall i | 0 <= i < |parts| :: ClearPart(parts[i]) }

  lemma FirstClear(parts: seq<Written>)
    requires parts != [] && AllClear(parts)
    ensures ClearPart(parts[0]) && AllClear(parts[1..])
  {
    hide ClearPart;
  }

  lemma {:induction false} BlockIsShort(lines: seq<string>, rest: string)
    requires WholeLines(lines) && ShortOnes(lines)
    ensures ShortLines(Block(lines) + (CRLF + rest))
    decreases |lines|
  {
    hide ShortLines, FindFrom;
    if lines == [] {
      ShortLineFirst("", rest);
      assert "" + (CRLF + rest) == CRLF + rest;
    } else {
      BlockThen(lines, CRLF + rest);
      BlockIsShort(lines[1..], rest);
      ShortLineFirst(lines[0], Block(lines[1..]) + (CRLF + rest));
    }
  }

  lemma ShortLineFirst(line: string, rest: string)
    requires Free(line, "\r\n") && |line| < HEADER_MAX && (line == "" || ShortLines(rest))
    ensures ShortLines(line + (CRLF + rest))
  {
    FindLineEnd(line, rest);
  }

  // A content without CRLF "--" is followed by the first one of the window, the delimiter's.
  lemma ClearContent(boundary: string, content: string, rest: string)
    requires '\r' !in boundary && Find(content, CRLF_DASH) == |content|
    requires Find(content, Delimiter(boundary)) == |content|
    ensures var w := content + (Delimiter(boundary) + rest);
      Find(w, CRLF_DASH) == Find(w, Delimiter(boundary))
  {
    hide FindFrom;
    DelimiterEndsContent(boundary, content, rest);
    DelimiterEndsContent("", content, boundary + rest);
    assert Delimiter("") == CRLF_DASH;
    assert CRLF_DASH + (boundary + rest) == Delimiter(boundary) + rest;
  }

  lemma {:induction false} ItemsOnTrack(boundary: string, m: Machine, accept: Callbacks,
                                        log: seq<Event>, parts: seq<Written>, plain: bool)
    requires parts != [] && m.state == 1 && m.window == ItemText(boundary, parts)
    requires Accepting(accept) && '\r' !in boundary && AllPlainParts(parts) && NoneHoldsDelimiter(boundary, parts)
    requires plain ==> AllClear(parts)
    ensures OnTrack(boundary, m, accept, log, plain)
    decreases |parts|, 0
  {
    hide Find, Parts, HeaderSection, BodyText, ItemText, ShortLines, AfterItem, PlainPart, AllPlainParts;
    hide NoneHoldsDelimiter, AllClear, ClearPart, HoldsDelimiter;
    FirstPart(boundary, parts);
    if plain { FirstClear(parts); }
    var body, log1, next, log2, content := ItemTurns(boundary, m, accept, log, parts);
    AfterFirstOnTrack(boundary, next, accept, log2, parts[1..], plain);
    var m2 := m.(state := 2, file := NO_FILE);
    assert plain ==> PlainWindow(boundary, m2) && PlainWindow(boundary, body) by {
      if plain { FirstItemPlain(boundary, parts, body.window); }
    }
    assert TakeTurn(boundary, body, accept, log1) == Again(next, log2);
    assert OnTrack(boundary, body, accept, log1, plain);
    assert TakeTurn(boundary, m2, accept, log) == Again(body, log1);
    assert OnTrack(boundary, m2, accept, log, plain);
    assert TakeTurn(boundary, m, accept, log) == Again(m2, log);
  }

  lemma FirstItemPlain(boundary: string, parts: seq<Written>, window: string)
    requires parts != [] && PlainPart(parts[0]) && ClearPart(parts[0]) && '\r' !in boundary
    requires !HoldsDelimiter(boundary, parts[0].item)
    requires window == parts[0].item.content + (Delimiter(boundary) + AfterItem(boundary, parts[1..]))
    ensures ShortLines(ItemText(boundary, parts))
    ensures Find(window, CRLF_DASH) == Find(window, Delimiter(boundary))
  {
    hide ShortLines, FindFrom, Block, LineOf, IsDisposition, IsTypeLine;
    BlockIsShort(parts[0].lines, window);
    ClearContent(boundary, parts[0].item.content, AfterItem(boundary, parts[1..]));
  }

  lemma {:induction false} AfterFirstOnTrack(boundary: string, m: Machine, accept: Callbacks, log: seq<Event>,
                                             parts: seq<Written>, plain: bool)
    requires m.state == 4 && m.window == AfterItem(boundary, parts)
    requires Accepting(accept) && '\r' !in boundary && AllPlainParts(parts) && NoneHoldsDelimiter(boundary, parts)
    requires plain ==> AllClear(parts)
    ensures OnTrack(boundary, m, accept, log, plain)
    decreases |parts|, 1
  {
    hide Find, ItemText, PlainPart, AllPlainParts, NoneHoldsDelimiter, AllClear;
    if parts == [] {
      assert DASH_CRLF[0] == '-' && CRLF[0] == '\r';
      assert DASH_CRLF[|DASH_CRLF|..] == "";
    } else {
      assert (CRLF + ItemText(boundary, parts))[2..] == ItemText(boundary, parts);
      var next := m.(state := 1, window := ItemText(boundary, parts));
      ItemsOnTrack(boundary, next, accept, log + [Drop(CRLF)], parts, plain);
    }
  }

  // A body fed to a fresh parser in any pieces, its header lines in any spelling and order, among any
  // other lines.
  lemma WrittenBodyInPieces(boundary: string, parts: seq<Written>, accept: Callbacks, pieces: seq<string>)
    requires '\r' !in boundary && Accepting(accept)
    requires parts != [] && AllPlainParts(parts) && NoneHoldsDelimiter(boundary, parts)
    requires Concat(pieces) == WriteBody(boundary, parts)
    ensures AllItems(Feed(boundary, START, accept, pieces, []), [], Items(parts))
      <==> SafePieces(boundary, START, accept, pieces, [])
  {
    hide AllPlainParts, NoneHoldsDelimiter, Run, Parts, OnTrack, SafePieces, Feed, WriteItems;
    BodyOnTrack(boundary, parts, accept, false);
    var body := WriteBody(boundary, parts);
    assert Extend(START, body) == START.(window := body) by { assert "" + body == body; }
    assert pieces != [];
    FeedInPieces(boundary, START, accept, pieces, []);
    WrittenBodyParses(boundary, parts, accept);
  }

  lemma BodyOnTrack(boundary: string, parts: seq<Written>, accept: Callbacks, plain: bool)
    requires '\r' !in boundary && Accepting(accept)
    requires parts != [] && AllPlainParts(parts) && NoneHoldsDelimiter(boundary, parts)
    requires plain ==> AllClear(parts)
    ensures OnTrack(boundary, START.(window := WriteBody(boundary, parts)), accept, [], plain)
  {
    hide AllPlainParts, NoneHoldsDelimiter, ItemText, WriteItems, Find, AllClear;
    BodyShape(boundary, parts);
    var first := DASH + boundary + CRLF;
    var m := START.(window := WriteBody(boundary, parts));
    assert m.window[|first|..] == ItemText(boundary, parts);
    var next := m.(state := 1, window := ItemText(boundary, parts));
    ItemsOnTrack(boundary, next, accept, [] + [Drop(first)], parts, plain);
    assert TakeTurn(boundary, m, accept, []) == Again(next, [] + [Drop(first)]);
  }

  // ------------------------------------------------------------------------------------------
  // Safe cuts in body offsets

  // No delimiter starts one to three bytes before offset k.
  ghost predicate ClearCut(boundary: string, body: string, k: int) {
    forall j | k - 4 < j < k :: !OccursAt(body, Delimiter(boundary), j)
  }

  ghost predicate ClearCuts(boundary: string, body: string, base: nat, pieces: seq<string>) {
    forall i | 0 < i < |pieces| :: ClearCut(boundary, body, base + |Concat(pieces[..i])|)
  }

  lemma {:induction false} RestingPointAccounts(boundary: string, total: string, m: Machine, accept: Callbacks,
                                                log: seq<Event>)
    requires m.state <= 5 && Accepting(accept) && Accounts(boundary, total, log, m.window)
    ensures var (r, log1) := RestingPoint(boundary, m, accept, log); Accounts(boundary, total, log1, r.window)
    decreases |m.window|, if m.state == 1 then 1 else 0
  {
    hide TakeTurn, Accounts, Find;
    if m.window == "" || (m.state == 3 && Find(m.window, Delimiter(boundary)) == |m.window|) {
    } else {
      TurnAccounts(boundary, total, m, accept, log);
      match TakeTurn(boundary, m, accept, log)
      case Return(_) =>
      case Again(next, log1) => RestingPointAccounts(boundary, total, next, accept, log1);
    }
  }

  // On plain input a clear cut is harmless.
  lemma ClearCutIsSafe(boundary: string, m: Machine, accept: Callbacks, log: seq<Event>, fed: string, more: string)
    requires m.state <= 5 && Accepting(accept) && Opened(m, log) && Accounts(boundary, fed, log, m.window)
    requires OnTrack(boundary, Extend(m, more), accept, log, true) && ClearCut(boundary, fed + more, |fed|)
    ensures SafeCut(boundary, m, accept, log, more)
  {
    hide Run, RestingPoint, HarmlessHeaderCut, HarmlessCut, TakeTurn, Bytes, Find, ShortLines, OnTrack, Parts;
    Resume(boundary, m, accept, log, more, true);
    RestingPointAccounts(boundary, fed, m, accept, log);
    var (r, log1) := RestingPoint(boundary, m, accept, log);
    if r.state == 2 {
      ShortLinesAreSafe(boundary, r, accept, log1, more);
    } else if r.state == 3 {
      ClearCutInBody(boundary, r, accept, log1, Bytes(log1), more);
    }
  }

  lemma ShortLinesAreSafe(boundary: string, r: Machine, accept: Callbacks, log: seq<Event>, more: string)
    requires r.state == 2 && Accepting(accept) && Resting(boundary, r, accept, log)
    requires OnTrack(boundary, Extend(r, more), accept, log, true)
    ensures HarmlessHeaderCut(r.window, more)
  {
    hide Headers, LineStart, FindFrom, ShortLines;
    var w := r.window;
    NoLineNoStart(w);
    ShortFirst(w + more);
    if Find(w, CRLF) == |w| {
      var pos := Find(w + more, CRLF);
      if pos + 2 <= |w| { OccursInPrefix(w, more, CRLF, pos); }
    } else {
      FindExtends(w, more, CRLF);
      HeadersRest(r, accept, log);
      ShortLinesGoOn(r, accept, log, more);
      ShortFirst(w[LineStart(w)..] + more);
    }
  }

  lemma ShortFirst(w: string)
    requires ShortLines(w)
    ensures Find(w, CRLF) < |w| && Find(w, CRLF) < HEADER_MAX
  {
  }

  lemma ClearCutInBody(boundary: string, r: Machine, accept: Callbacks, log: seq<Event>, before: string, more: string)
    requires r.state == 3 && Accepting(accept) && Resting(boundary, r, accept, log)
    requires OnTrack(boundary, Extend(r, more), accept, log, true)
    requires ClearCut(boundary, before + r.window + more, |before + r.window|)
    ensures HarmlessCut(boundary, r.window, more)
  {
    hide FindFrom, HarmlessCut, BodyText;
    var w, delim := r.window, Delimiter(boundary);
    NoneInNothing(delim);
    var d := Find(w + more, delim);
    PlainCut(boundary, w, more);
    var body := before + w + more;
    assert body == before + (w + more);
    assert body[|before| + d..|before| + d + |delim|] == (w + more)[d..d + |delim|];
    assert OccursAt(body, delim, |before| + d);
  }

  lemma {:induction false} ClearPiecesAreSafe(boundary: string, m: Machine, accept: Callbacks, pieces: seq<string>,
                                              log: seq<Event>, fed: string, body: string)
    requires m.state <= 5 && Accepting(accept) && Opened(m, log) && Accounts(boundary, fed, log, m.window)
    requires OnTrack(boundary, Extend(m, Concat(pieces)), accept, log, true)
    requires body == fed + Concat(pieces) && ClearCuts(boundary, body, |fed|, pieces)
    ensures SafePieces(boundary, m, accept, pieces, log)
    decreases |pieces|
  {
    hide Run, OnTrack, SafeCut, Opened, Bytes, ClearCut, Parts;
    if |pieces| > 1 {
      var p, more := pieces[0], Concat(pieces[1..]);
      assert m.window + p + more == m.window + (p + more) && fed + p + more == fed + (p + more);
      assert Accounts(boundary, fed + p, log, m.window + p) by {
        assert fed + p == Bytes(log) + (m.window + p);
      }
      assert pieces[..1] == [p] && Concat([p]) == p by { OnePiece(p); }
      FedOpened(m, p, log);
      ClearCutIsSafe(boundary, Extend(m, p), accept, log, fed + p, more);
      CutStep(boundary, Extend(m, p), accept, log, more, true);
      RunAccounts(boundary, fed + p, Extend(m, p), accept, log);
      var o := ParseCall(boundary, m, accept, p, log);
      ClearRest(boundary, body, |fed|, pieces);
      ClearPiecesAreSafe(boundary, o.m, accept, pieces[1..], o.log, fed + p, body);
    }
  }

  lemma OnePiece(p: string)
    ensures Concat([p]) == p
  {
    assert [p][1..] == [];
  }

  lemma ClearRest(boundary: string, body: string, base: nat, pieces: seq<string>)
    requires pieces != [] && ClearCuts(boundary, body, base, pieces)
    ensures ClearCuts(boundary, body, base + |pieces[0]|, pieces[1..])
  {
    hide ClearCut;
    var rest := pieces[1..];
    forall i | 0 < i < |rest| ensures ClearCut(boundary, body, base + |pieces[0]| + |Concat(rest[..i])|) {
      assert pieces[..i + 1][0] == pieces[0] && pieces[..i + 1][1..] == rest[..i];
    }
  }

  // When no header line reaches the limit, no content holds CRLF "--" and no cut falls one to three bytes
  // into a delimiter, every item comes back.
  lemma ClearCutsKeepParts(boundary: string, parts: seq<Written>, accept: Callbacks, pieces: seq<string>)
    requires '\r' !in boundary && Accepting(accept)
    requires parts != [] && AllPlainParts(parts) && NoneHoldsDelimiter(boundary, parts) && AllClear(parts)
    requires Concat(pieces) == WriteBody(boundary, parts) && ClearCuts(boundary, WriteBody(boundary, parts), 0, pieces)
    ensures AllItems(Feed(boundary, START, accept, pieces, []), [], Items(parts))
  {
    hide AllPlainParts, NoneHoldsDelimiter, AllClear, Run, Parts, OnTrack, SafePieces, Feed, WriteItems, ClearCuts;
    BodyOnTrack(boundary, parts, accept, true);
    var body := WriteBody(boundary, parts);
    assert Extend(START, body) == START.(window := body) by { assert "" + body == body; }
    assert Accounts(boundary, "", [], "");
    ClearPiecesAreSafe(boundary, START, accept, pieces, [], "", body);
    WrittenBodyInPieces(boundary, parts, accept, pieces);
  }

  // ------------------------------------------------------------------------------------------
  // Printed bodies

  predicate Printable(boundary: string, item: FormData) {
    PlainHeaders(item) && !HoldsDelimiter(boundary, item)
  }

  predicate PlainItem(item: FormData) {
    && |DispositionLine(item)| < HEADER_MAX && |ContentTypeLine(item)| <= HEADER_MAX + 1
    && Find(item.content, CRLF_DASH) == |item.content|
  }

  lemma PrintableParts(boundary: string, items: seq<FormData>)
    requires forall item | item in items :: Printable(boundary, item)
    ensures AllPlainParts(Posted(items)) && NoneHoldsDelimiter(boundary, Posted(items))
  {
    hide PlainHeaders, HoldsDelimiter, AllPlainParts, NoneHoldsDelimiter, Posted;
    PostedIsPlain(boundary, items);
  }

  lemma PostedIsClear(boundary: string, items: seq<FormData>)
    requires forall item | item in items :: PlainItem(item)
    ensures AllClear(Posted(items))
  {
    hide ClearPart, PlainItem, PrintedLines, Posted;
    PostedIsWritten(boundary, items);
    forall i | 0 <= i < |items| ensures ClearPart(Posted(items)[i]) {
      assert items[i] in items;
      PrintedIsClear(items[i]);
    }
  }

  lemma PrintedIsClear(item: FormData)
    requires PlainItem(item)
    ensures ClearPart(Written(item, PrintedLines(item)))
  {
    hide DispositionLine, FindFrom;
  }

  // Feeding a printed body to a fresh parser in any pieces.
  lemma PrintedBodyInPieces(boundary: string, items: seq<FormData>, accept: Callbacks, pieces: seq<string>)
    requires BoundaryChars(boundary) && Accepting(accept)
    requires items != [] && forall item | item in items :: Printable(boundary, item)
    requires Concat(pieces) == PrintBody(boundary, items)
    ensures AllItems(Feed(boundary, START, accept, pieces, []), [], items)
      <==> SafePieces(boundary, START, accept, pieces, [])
  {
    hide Printable, AllPlainParts, NoneHoldsDelimiter, SafePieces, Feed, Posted, AllItems;
    assert '\r' !in boundary;
    PrintableParts(boundary, items);
    PostedIsWritten(boundary, items);
    WrittenBodyInPieces(boundary, Posted(items), accept, pieces);
  }

  lemma ClearCutsKeepItems(boundary: string, items: seq<FormData>, accept: Callbacks, pieces: seq<string>)
    requires BoundaryChars(boundary) && Accepting(accept)
    requires items != [] && forall item | item in items :: Printable(boundary, item) && PlainItem(item)
    requires Concat(pieces) == PrintBody(boundary, items) && ClearCuts(boundary, PrintBody(boundary, items), 0, pieces)
    ensures AllItems(Feed(boundary, START, accept, pieces, []), [], items)
  {
    hide Printable, PlainItem, AllPlainParts, NoneHoldsDelimiter, AllClear, Feed, Posted, ClearCuts, AllItems;
    assert '\r' !in boundary;
    PrintableParts(boundary, items);
    PostedIsClear(boundary, items);
    PostedIsWritten(boundary, items);
    ClearCutsKeepParts(boundary, Posted(items), accept, pieces);
  }
}
