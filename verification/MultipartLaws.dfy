// What the multipart machine guarantees over whole inputs: conservation of bytes, and agreement of
// split and whole parsing.

module MultipartLaws {
  import opened Text
  import opened Multipart

  // ------------------------------------------------------------------------------------------
  // Conservation

  function BytesOf(e: Event): string {
    match e
    case Header(_) => ""
    case Content(data) => data
    case Drop(bytes) => bytes
  }

  function Bytes(log: seq<Event>): string {
    if log == [] then "" else Bytes(log[..|log| - 1]) + BytesOf(log[|log| - 1])
  }

  // The only byte strings the machine erases without handing them to the content callback.
  ghost predicate Punctuation(boundary: string, d: string) {
    || d == DASH + boundary + CRLF
    || d == Delimiter(boundary)
    || d == DASH_CRLF
    || (|d| >= 2 && IsFirst(d, CRLF, |d| - 2))
  }

  // The events of log account for total up to the unread window w, and erase only punctuation.
  ghost predicate Accounts(boundary: string, total: string, log: seq<Event>, w: string) {
    && total == Bytes(log) + w
    && forall i | 0 <= i < |log| && log[i].Drop? :: Punctuation(boundary, log[i].bytes)
  }

  ghost predicate Accepting(accept: Callbacks) {
    forall log :: accept(log)
  }

  lemma StepAccounts(boundary: string, total: string, log: seq<Event>, e: Event, w: string, n: nat)
    requires Accounts(boundary, total, log, w) && n <= |w| && BytesOf(e) == w[..n]
    requires e.Drop? ==> Punctuation(boundary, e.bytes)
    ensures Accounts(boundary, total, log + [e], w[n..])
  {
  }

  lemma LineIsPunctuation(boundary: string, w: string, pos: nat)
    requires pos == Find(w, CRLF) && pos < |w|
    ensures pos + 2 <= |w| && Punctuation(boundary, w[..pos + 2])
  {
    var d := w[..pos + 2];
    assert d[pos..pos + 2] == w[pos..pos + 2];
    forall i | 0 <= i < pos ensures !OccursAt(d, CRLF, i) {
      assert d[i..i + 2] == w[i..i + 2];
      assert !OccursAt(w, CRLF, i);
    }
  }

  lemma {:induction false} HeadersAccount(boundary: string, total: string, m: Machine, accept: Callbacks,
                                          log: seq<Event>)
    requires m.state == 2 && Accounts(boundary, total, log, m.window)
    ensures var h := Headers(m, accept, log); Accounts(boundary, total, h.log, h.m.window)
    decreases |m.window|
  {
    hide HeaderLine, FindFrom, Punctuation, Accounts;
    var w, pos := m.window, Find(m.window, CRLF);
    if pos < |w| {
      LineIsPunctuation(boundary, w, pos);
      var e := Drop(w[..pos + 2]);
      if pos == 0 {
        assert w[..2] == CRLF;
        StepAccounts(boundary, total, log, Header(m.file), w, 0);
        assert w[0..] == w;
        StepAccounts(boundary, total, log + [Header(m.file)], e, w, 2);
      } else {
        StepAccounts(boundary, total, log, e, w, pos + 2);
        HeadersAccount(boundary, total, m.(file := HeaderLine(m.file, w[..pos]), window := w[pos + 2..]),
                       accept, log + [e]);
      }
    }
  }

  // Where a turn leads: the log and the unread window.
  function TurnLog(t: Turn): seq<Event> { if t.Again? then t.log else t.o.log }
  function TurnWindow(t: Turn): string { if t.Again? then t.next.window else t.o.m.window }

  lemma CandidateAccounts(boundary: string, total: string, m: Machine, accept: Callbacks, log: seq<Event>)
    requires Accepting(accept) && Accounts(boundary, total, log, m.window)
    ensures var t := Candidate(boundary, m, accept, log); Accounts(boundary, total, TurnLog(t), TurnWindow(t))
  {
    hide FindFrom, Accounts;
    var w, delim := m.window, Delimiter(boundary);
    if |delim| <= |w| {
      var q := Find(w, delim);
      if q < |w| {
        StepAccounts(boundary, total, log, Content(w[..q]), w, q);
        assert w[q..][..|delim|] == delim;
        assert w[q..][|delim|..] == w[q + |delim|..];
        StepAccounts(boundary, total, log + [Content(w[..q])], Drop(delim), w[q..], |delim|);
      } else {
        StepAccounts(boundary, total, log, Content(w[..|delim|]), w, |delim|);
      }
    }
  }

  lemma TurnAccounts(boundary: string, total: string, m: Machine, accept: Callbacks, log: seq<Event>)
    requires m.state <= 5 && m.window != "" && Accepting(accept) && Accounts(boundary, total, log, m.window)
    ensures var t := TakeTurn(boundary, m, accept, log); Accounts(boundary, total, TurnLog(t), TurnWindow(t))
  {
    hide FindFrom, HeaderLine, Headers, Candidate, Accounts;
    match m.state
    case 0 =>
      var first := DASH + boundary + CRLF;
      if first <= m.window { StepAccounts(boundary, total, log, Drop(first), m.window, |first|); }
    case 2 => HeadersAccount(boundary, total, m, accept, log);
    case 3 =>
      if |CRLF_DASH| <= |m.window| {
        var p := Find(m.window, CRLF_DASH);
        var e := Content(m.window[..p]);
        StepAccounts(boundary, total, log, e, m.window, p);
        CandidateAccounts(boundary, total, m.(window := m.window[p..]), accept, log + [e]);
      }
    case 4 =>
      if CRLF <= m.window {
        assert IsFirst(CRLF, CRLF, 0);
        StepAccounts(boundary, total, log, Drop(CRLF), m.window, 2);
      } else if DASH_CRLF <= m.window {
        StepAccounts(boundary, total, log, Drop(DASH_CRLF), m.window, 4);
      }
    case _ =>
  }

  lemma {:induction false} RunAccounts(boundary: string, total: string, m: Machine, accept: Callbacks, log: seq<Event>)
    requires m.state <= 5 && Accepting(accept) && Accounts(boundary, total, log, m.window)
    ensures var o := Run(boundary, m, accept, log); Accounts(boundary, total, o.log, o.m.window)
    decreases |m.window|, if m.state == 1 then 1 else 0
  {
    hide TakeTurn, Accounts;
    if m.window != "" {
      TurnAccounts(boundary, total, m, accept, log);
      match TakeTurn(boundary, m, accept, log)
      case Return(o) =>
      case Again(next, log1) => RunAccounts(boundary, total, next, accept, log1);
    }
  }

  // A body that arrives in pieces; ok when every call returned true.  The caller stops at the first
  // refusal; the machine itself does not, so neither does this.
  function Feed(boundary: string, m: Machine, accept: Callbacks, pieces: seq<string>, log: seq<Event>): (o: Outcome)
    requires m.state <= 5
    ensures o.m.state <= 5
    decreases |pieces|
  {
    if pieces == [] then Outcome(m, true, log)
    else
      var o := ParseCall(boundary, m, accept, pieces[0], log);
      var rest := Feed(boundary, o.m, accept, pieces[1..], o.log);
      Outcome(rest.m, o.ok && rest.ok, rest.log)
  }

  // For every segmentation of the input, nothing is lost, duplicated or reordered: the bytes fed
  // are the delivered content and the erased punctuation in order, then the unread window.
  lemma {:induction false} FeedAccounts(boundary: string, total: string, m: Machine, accept: Callbacks,
                                        pieces: seq<string>, log: seq<Event>)
    requires m.state <= 5 && Accepting(accept) && Accounts(boundary, total, log, m.window)
    ensures var o := Feed(boundary, m, accept, pieces, log);
      Accounts(boundary, total + Concat(pieces), o.log, o.m.window)
    decreases |pieces|
  {
    hide Run, Punctuation, Bytes;
    if pieces == [] {
      assert total + "" == total;
    } else {
      var fed := m.(window := m.window + pieces[0]);
      assert total + pieces[0] == Bytes(log) + fed.window;
      RunAccounts(boundary, total + pieces[0], fed, accept, log);
      var o := ParseCall(boundary, m, accept, pieces[0], log);
      FeedAccounts(boundary, total + pieces[0], o.m, accept, pieces[1..], o.log);
      assert total + pieces[0] + Concat(pieces[1..]) == total + (pieces[0] + Concat(pieces[1..]));
    }
  }

  // ------------------------------------------------------------------------------------------
  // Split parsing agrees with whole parsing outside state 3

  // A window without the delimiter keeps a body-state machine in the body state.
  lemma {:induction false} NoDelimiterStaysInBody(boundary: string, m: Machine, accept: Callbacks, log: seq<Event>)
    requires m.state == 3 && Find(m.window, Delimiter(boundary)) == |m.window|
    ensures Run(boundary, m, accept, log).m.state == 3
    decreases |m.window|
  {
    hide FindFrom;
    var delim := Delimiter(boundary);
    if |CRLF_DASH| <= |m.window| {
      var p := Find(m.window, CRLF_DASH);
      var log1 := log + [Content(m.window[..p])];
      var w := m.window[p..];
      NoneInSuffix(m.window, p, delim);
      if accept(log1) && |delim| <= |w| {
        NoneInSuffix(w, |delim|, delim);
        var log2 := log1 + [Content(w[..|delim|])];
        NoDelimiterStaysInBody(boundary, m.(window := w[|delim|..]), accept, log2);
      }
    }
  }

  lemma NoneInSuffix(w: string, n: nat, p: string)
    requires n <= |w| && Find(w, p) == |w|
    ensures Find(w[n..], p) == |w[n..]|
  {
    hide FindFrom;
    forall i | 0 <= i < |w| - n ensures !OccursAt(w[n..], p, i) {
      if i + |p| <= |w| - n {
        assert w[n..][i..i + |p|] == w[n + i..n + i + |p|];
        assert !OccursAt(w, p, n + i);
      }
    }
    FirstIsUnique(w[n..], p, |w| - n, Find(w[n..], p));
  }

  function Extend(m: Machine, more: string): Machine { m.(window := m.window + more) }

  lemma {:induction false} HeadersSplit(m: Machine, accept: Callbacks, log: seq<Event>, more: string)
    requires m.state == 2 && Headers(m, accept, log).ok
    ensures var h := Headers(m, accept, log);
      if h.m.state == 3 then
        Headers(Extend(m, more), accept, log) == Outcome(Extend(h.m, more), true, h.log)
      else Headers(Extend(m, more), accept, log) == Headers(Extend(h.m, more), accept, h.log)
    decreases |m.window|
  {
    hide Find, HeaderLine;
    LineFits(m.window);
    LineFits(m.window + more);
    var pos := Find(m.window, CRLF);
    if pos < |m.window| {
      FindExtends(m.window, more, CRLF);
      var n := pos + |CRLF|;
      CutExtended(m.window, more, pos);
      CutExtended(m.window, more, n);
      if pos > 0 {
        var m' := m.(file := HeaderLine(m.file, m.window[..pos]), window := m.window[n..]);
        HeadersSplit(m', accept, log + [Drop(m.window[..n])], more);
      }
    }
  }

  lemma CutExtended(w: string, more: string, n: nat)
    requires n <= |w|
    ensures (w + more)[..n] == w[..n] && (w + more)[n..] == w[n..] + more
  {
  }

  lemma LineFits(w: string)
    ensures var pos := Find(w, CRLF); pos <= |w| && (pos < |w| ==> pos + |CRLF| <= |w|)
  {
  }

  lemma BodySplit(boundary: string, m: Machine, accept: Callbacks, log: seq<Event>, more: string)
    requires BodyText(boundary, m, accept, log).Again?
    requires m.state == 3 && Find(m.window, Delimiter(boundary)) < |m.window|
    ensures var t := BodyText(boundary, m, accept, log);
      && t.next.state == 4
      && BodyText(boundary, Extend(m, more), accept, log) == Again(Extend(t.next, more), t.log)
  {
    hide FindFrom;
    var delim := Delimiter(boundary);
    var p := DelimiterAfterCandidate(boundary, m.window);
    var w := m.window[p..];
    FindExtends(m.window, more, CRLF_DASH);
    FindExtends(w, more, delim);
    assert (m.window + more)[..p] == m.window[..p];
    assert (m.window + more)[p..] == w + more;
    var q := Find(w, delim);
    assert (w + more)[..q] == w[..q];
    assert (w + more)[q + |delim|..] == w[q + |delim|..] + more;
  }

  // The first delimiter lies at or after the first CRLF "--".
  lemma DelimiterAfterCandidate(boundary: string, w: string) returns (p: nat)
    requires Find(w, Delimiter(boundary)) < |w|
    ensures p == Find(w, CRLF_DASH) <= Find(w, Delimiter(boundary))
    ensures Find(w[p..], Delimiter(boundary)) == Find(w, Delimiter(boundary)) - p
  {
    hide FindFrom;
    var delim := Delimiter(boundary);
    var d := Find(w, delim);
    p := Find(w, CRLF_DASH);
    assert w[d..d + |CRLF_DASH|] == w[d..d + |delim|][..|CRLF_DASH|];
    assert OccursAt(w, CRLF_DASH, d);
    assert w[p..][d - p..d - p + |delim|] == w[d..d + |delim|];
    forall i | 0 <= i < d - p ensures !OccursAt(w[p..], delim, i) {
      if i + |delim| <= |w| - p {
        assert w[p..][i..i + |delim|] == w[p + i..p + i + |delim|];
        assert !OccursAt(w, delim, p + i);
      }
    }
    FirstIsUnique(w[p..], delim, d - p, Find(w[p..], delim));
  }

  lemma TurnSplit(boundary: string, m: Machine, accept: Callbacks, log: seq<Event>, more: string)
    requires m.state <= 5 && m.window != "" && TakeTurn(boundary, m, accept, log).Again?
    requires m.state == 3 ==> Find(m.window, Delimiter(boundary)) < |m.window|
    ensures var t := TakeTurn(boundary, m, accept, log);
      TakeTurn(boundary, Extend(m, more), accept, log) == Again(Extend(t.next, more), t.log)
  {
    hide FindFrom, BodyText, Headers, HeaderLine;
    match m.state
    case 0 =>
      var n := |DASH + boundary + CRLF|;
      assert (m.window + more)[n..] == m.window[n..] + more;
    case 2 =>
      HeadersSplit(m, accept, log, more);
      NoLineNoProgress(m, accept, log);
      FindExtends(m.window, more, CRLF);
    case 3 => BodySplit(boundary, m, accept, log, more);
    case 4 =>
      assert (m.window + more)[2..] == m.window[2..] + more;
      if !(CRLF <= m.window) {
        assert (m.window + more)[4..] == m.window[4..] + more;
      }
    case _ =>
  }

  lemma NoLineNoProgress(m: Machine, accept: Callbacks, log: seq<Event>)
    requires m.state == 2 && Headers(m, accept, log).m.state == 3
    ensures Find(m.window, CRLF) < |m.window|
  {
  }

  // If two calls both return true and the first stops outside state 3, one call on the joined
  // input makes the same callbacks and erasures and ends in the same machine.
  lemma {:induction false} SplitAgreesWithWhole(boundary: string, m: Machine, accept: Callbacks, a: string, b: string,
                                                log: seq<Event>)
    requires m.state <= 5
    requires var first := ParseCall(boundary, m, accept, a, log);
      && first.ok && first.m.state != 3
      && ParseCall(boundary, first.m, accept, b, first.log).ok
    ensures var first := ParseCall(boundary, m, accept, a, log);
      ParseCall(boundary, m, accept, a + b, log) == ParseCall(boundary, first.m, accept, b, first.log)
  {
    hide Run;
    assert Extend(m, a + b).window == Extend(Extend(m, a), b).window;
    RunSplit(boundary, Extend(m, a), accept, log, b);
  }

  lemma {:induction false} RunSplit(boundary: string, m: Machine, accept: Callbacks, log: seq<Event>, more: string)
    requires m.state <= 5
    requires var first := Run(boundary, m, accept, log);
      && first.ok && first.m.state != 3
      && Run(boundary, Extend(first.m, more), accept, first.log).ok
    ensures var first := Run(boundary, m, accept, log);
      Run(boundary, Extend(m, more), accept, log) == Run(boundary, Extend(first.m, more), accept, first.log)
    decreases |m.window|, if m.state == 1 then 1 else 0
  {
    hide FindFrom, TakeTurn;
    if m.window != "" {
      if m.state == 3 && Find(m.window, Delimiter(boundary)) == |m.window| {
        NoDelimiterStaysInBody(boundary, m, accept, log);
      }
      match TakeTurn(boundary, m, accept, log)
      case Again(next, log1) =>
        TurnSplit(boundary, m, accept, log, more);
        RunSplit(boundary, next, accept, log1, more);
      case Return(o) =>
        ReturnSplit(boundary, m, accept, log, more);
    }
  }

  lemma ReturnSplit(boundary: string, m: Machine, accept: Callbacks, log: seq<Event>, more: string)
    requires m.state <= 5 && m.window != ""
    requires TakeTurn(boundary, m, accept, log).Return?
    requires var o := TakeTurn(boundary, m, accept, log).o;
      o.ok && o.m.state != 3 && Run(boundary, Extend(o.m, more), accept, o.log).ok
    ensures var o := TakeTurn(boundary, m, accept, log).o;
      Run(boundary, Extend(m, more), accept, log) == Run(boundary, Extend(o.m, more), accept, o.log)
  {
    hide FindFrom, HeaderLine, Headers;
    var o := TakeTurn(boundary, m, accept, log).o;
    if m.state == 2 {
      HeadersSplit(m, accept, log, more);
      HeadersAtRest(m, accept, log);
      if Find(m.window, CRLF) < |m.window| { FindExtends(m.window, more, CRLF); }
      if o.m.window + more == "" {
        assert more == "";
      }
    } else {
      assert o.m == m && o.log == log;
    }
  }

  // Headers that stop short of the empty line stop where no further line is complete.
  lemma {:induction false} HeadersAtRest(m: Machine, accept: Callbacks, log: seq<Event>)
    requires m.state == 2
    ensures var h := Headers(m, accept, log);
      && (h.ok && h.m.state == 2 ==> Headers(h.m, accept, h.log) == h)
      && (Find(m.window, CRLF) == |m.window| ==> h.m == m && h.log == log)
    decreases |m.window|
  {
    hide FindFrom, HeaderLine;
    var pos := Find(m.window, CRLF);
    if 0 < pos < |m.window| {
      var m' := m.(file := HeaderLine(m.file, m.window[..pos]), window := m.window[pos + 2..]);
      HeadersAtRest(m', accept, log + [Drop(m.window[..pos + 2])]);
    }
  }
}
