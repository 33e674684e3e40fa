// The items a caller assembles from the callbacks, and what a cut inside a body does to them.

module MultipartRoundTrip {
  import opened Text
  import opened Multipart
  import opened MultipartLaws

  // ------------------------------------------------------------------------------------------
  // Items assembled from the callbacks

  function AddContent(parts: seq<FormData>, data: string): (r: seq<FormData>)
    ensures |r| == |parts|
  {
    if parts == [] then []
    else
      var k := |parts| - 1;
      parts[k := parts[k].(content := parts[k].content + data)]
  }

  function AddEvent(parts: seq<FormData>, e: Event): seq<FormData> {
    match e
    case Header(file) => parts + [file]
    case Content(data) => AddContent(parts, data)
    case Drop(_) => parts
  }

  function Parts(log: seq<Event>): seq<FormData> {
    if log == [] then [] else AddEvent(Parts(log[..|log| - 1]), log[|log| - 1])
  }

  lemma PartsOneMore(log: seq<Event>, e: Event)
    ensures Parts(log + [e]) == AddEvent(Parts(log), e)
  {
    assert (log + [e])[..|log|] == log;
  }

  lemma AddContentTwice(parts: seq<FormData>, x: string, y: string)
    ensures AddContent(AddContent(parts, x), y) == AddContent(parts, x + y)
  {
    if parts != [] {
      assert parts[|parts| - 1].content + x + y == parts[|parts| - 1].content + (x + y);
    }
  }

  // q is p with, at most, a longer last content and more items.
  ghost predicate Grows(p: seq<FormData>, q: seq<FormData>) {
    && |p| <= |q|
    && (p != [] ==>
          var k := |p| - 1;
          p[..k] == q[..k] && p[k].content <= q[k].content)
  }

  // ------------------------------------------------------------------------------------------
  // Items only ever grow; outside the body state, finished items stay as they are

  lemma {:induction false} HeadersParts(m: Machine, accept: Callbacks, log: seq<Event>)
    requires m.state == 2
    ensures var h := Headers(m, accept, log);
      Parts(log) <= Parts(h.log) && (h.m.state == 3 ==> |Parts(log)| < |Parts(h.log)|)
    decreases |m.window|
  {
    hide FindFrom, HeaderLine, OccursAt;
    var pos := Find(m.window, CRLF);
    if pos == |m.window| {
    } else if pos == 0 {
      PartsOneMore(log, Header(m.file));
      PartsOneMore(log + [Header(m.file)], Drop(CRLF));
    } else {
      var e := Drop(m.window[..pos + 2]);
      PartsOneMore(log, e);
      HeadersParts(m.(file := HeaderLine(m.file, m.window[..pos]), window := m.window[pos + 2..]), accept, log + [e]);
    }
  }

  // What state 3 adds to the open item: the text before CRLF "--", and what its second half adds.
  function BodyGain(boundary: string, w: string): string
  {
    if |CRLF_DASH| > |w| then ""
    else
      var p := Find(w, CRLF_DASH);
      w[..p] + CandidateGain(boundary, w[p..])
  }

  function CandidateGain(boundary: string, u: string): string {
    if |Delimiter(boundary)| > |u| then ""
    else
      var q := Find(u, Delimiter(boundary));
      if q < |u| then u[..q] else u[..|Delimiter(boundary)|]
  }

  lemma BodyParts(boundary: string, m: Machine, accept: Callbacks, log: seq<Event>)
    requires m.state == 3 && Accepting(accept)
    ensures Parts(TurnLog(BodyText(boundary, m, accept, log))) == AddContent(Parts(log), BodyGain(boundary, m.window))
  {
    hide FindFrom, OccursAt, AddContent, Candidate, CandidateGain, Parts;
    var w := m.window;
    if |CRLF_DASH| <= |w| {
      var p := Find(w, CRLF_DASH);
      var e := Content(w[..p]);
      PartsOneMore(log, e);
      CandidateParts(boundary, m.(window := w[p..]), accept, log + [e]);
      AddContentTwice(Parts(log), w[..p], CandidateGain(boundary, w[p..]));
    } else {
      NoContent(Parts(log));
    }
  }

  lemma CandidateParts(boundary: string, m: Machine, accept: Callbacks, log: seq<Event>)
    requires Accepting(accept)
    ensures Parts(TurnLog(Candidate(boundary, m, accept, log)))
         == AddContent(Parts(log), CandidateGain(boundary, m.window))
  {
    hide FindFrom, OccursAt, AddContent, Parts;
    var u, delim := m.window, Delimiter(boundary);
    if |delim| <= |u| {
      var q := Find(u, delim);
      var e := Content(u[..if q < |u| then q else |delim|]);
      PartsOneMore(log, e);
      PartsOneMore(log + [e], Drop(delim));
    } else {
      NoContent(Parts(log));
    }
  }

  lemma NoContent(parts: seq<FormData>)
    ensures AddContent(parts, "") == parts
  {
    if parts != [] { assert parts[|parts| - 1].content + "" == parts[|parts| - 1].content; }
  }

  lemma TurnParts(boundary: string, m: Machine, accept: Callbacks, log: seq<Event>)
    requires m.state <= 5 && m.window != "" && Accepting(accept)
    ensures var t := TakeTurn(boundary, m, accept, log);
      && (m.state == 3 ==> Parts(TurnLog(t)) == AddContent(Parts(log), BodyGain(boundary, m.window)))
      && (m.state != 3 ==> Parts(log) <= Parts(TurnLog(t)))
      && (t.Again? && m.state != 3 && t.next.state == 3 ==> |Parts(log)| < |Parts(t.log)|)
  {
    hide FindFrom, BodyText, BodyGain, Headers;
    match m.state
    case 0 => PartsOneMore(log, Drop(DASH + boundary + CRLF));
    case 2 => HeadersParts(m, accept, log);
    case 3 => BodyParts(boundary, m, accept, log);
    case 4 =>
      PartsOneMore(log, Drop(CRLF));
      PartsOneMore(log, Drop(DASH_CRLF));
    case _ =>
  }

  lemma {:induction false} RunParts(boundary: string, m: Machine, accept: Callbacks, log: seq<Event>)
    requires m.state <= 5 && Accepting(accept)
    ensures var o := Run(boundary, m, accept, log);
      Grows(Parts(log), Parts(o.log)) && (m.state != 3 ==> Parts(log) <= Parts(o.log))
    decreases |m.window|, if m.state == 1 then 1 else 0
  {
    hide TakeTurn, BodyGain, Parts;
    if m.window != "" {
      TurnParts(boundary, m, accept, log);
      match TakeTurn(boundary, m, accept, log)
      case Return(o) =>
      case Again(next, log1) => RunParts(boundary, next, accept, log1);
    }
  }

  // ------------------------------------------------------------------------------------------
  // A cut inside a body

  // Two turns that go round again alike.
  ghost predicate SameTurn(t1: Turn, t2: Turn) {
    t1.Again? && t2.Again? && t1.next == t2.next && Parts(t1.log) == Parts(t2.log)
  }

  ghost predicate SameDelivery(o1: Outcome, o2: Outcome) {
    o1.m == o2.m && o1.ok == o2.ok && Parts(o1.log) == Parts(o2.log)
  }

  lemma {:induction false} HeadersIgnoreHistory(m: Machine, accept: Callbacks, log1: seq<Event>, log2: seq<Event>)
    requires m.state == 2 && Accepting(accept) && Parts(log1) == Parts(log2)
    ensures SameDelivery(Headers(m, accept, log1), Headers(m, accept, log2))
    decreases |m.window|
  {
    hide FindFrom, HeaderLine, OccursAt, Parts;
    var pos := Find(m.window, CRLF);
    if pos == |m.window| {
    } else if pos == 0 {
      PartsOneMore(log1, Header(m.file));
      PartsOneMore(log2, Header(m.file));
      PartsOneMore(log1 + [Header(m.file)], Drop(CRLF));
      PartsOneMore(log2 + [Header(m.file)], Drop(CRLF));
    } else {
      var e := Drop(m.window[..pos + 2]);
      PartsOneMore(log1, e);
      PartsOneMore(log2, e);
      HeadersIgnoreHistory(m.(file := HeaderLine(m.file, m.window[..pos]), window := m.window[pos + 2..]),
                           accept, log1 + [e], log2 + [e]);
    }
  }

  lemma TurnIgnoresHistory(boundary: string, m: Machine, accept: Callbacks, log1: seq<Event>, log2: seq<Event>)
    requires m.state <= 5 && m.window != "" && Accepting(accept) && Parts(log1) == Parts(log2)
    ensures var t1, t2 := TakeTurn(boundary, m, accept, log1), TakeTurn(boundary, m, accept, log2);
      && t1.Again? == t2.Again?
      && (if t1.Again? then t1.next == t2.next else t1.o.m == t2.o.m && t1.o.ok == t2.o.ok)
      && Parts(TurnLog(t1)) == Parts(TurnLog(t2))
  {
    hide FindFrom, OccursAt, Headers, Parts;
    match m.state
    case 0 =>
      PartsOneMore(log1, Drop(DASH + boundary + CRLF));
      PartsOneMore(log2, Drop(DASH + boundary + CRLF));
    case 2 => HeadersIgnoreHistory(m, accept, log1, log2);
    case 3 =>
      BodyParts(boundary, m, accept, log1);
      BodyParts(boundary, m, accept, log2);
    case 4 =>
      PartsOneMore(log1, Drop(CRLF));
      PartsOneMore(log2, Drop(CRLF));
      PartsOneMore(log1, Drop(DASH_CRLF));
      PartsOneMore(log2, Drop(DASH_CRLF));
    case _ =>
  }

  lemma {:induction false} RunIgnoresHistory(boundary: string, m: Machine, accept: Callbacks,
                                             log1: seq<Event>, log2: seq<Event>)
    requires m.state <= 5 && Accepting(accept) && Parts(log1) == Parts(log2)
    ensures SameDelivery(Run(boundary, m, accept, log1), Run(boundary, m, accept, log2))
    decreases |m.window|, if m.state == 1 then 1 else 0
  {
    hide TakeTurn, Parts;
    if m.window != "" {
      TurnIgnoresHistory(boundary, m, accept, log1, log2);
      var t1, t2 := TakeTurn(boundary, m, accept, log1), TakeTurn(boundary, m, accept, log2);
      if t1.Again? { RunIgnoresHistory(boundary, t1.next, accept, t1.log, t2.log); }
    }
  }

  // One turn of state 3 on a window holding the delimiter finishes the item, however many times
  // CRLF "--" occurs before it.
  lemma BodyFound(boundary: string, m: Machine, accept: Callbacks, log: seq<Event>)
    requires m.state == 3 && Accepting(accept) && Find(m.window, Delimiter(boundary)) < |m.window|
    ensures var d := Find(m.window, Delimiter(boundary));
      var t := BodyText(boundary, m, accept, log);
      && d + |Delimiter(boundary)| <= |m.window|
      && t.Again? && t.next == m.(state := 4, window := m.window[d + |Delimiter(boundary)|..])
      && Parts(t.log) == AddContent(Parts(log), m.window[..d])
  {
    hide FindFrom, AddContent;
    var w, delim := m.window, Delimiter(boundary);
    var p := DelimiterAfterCandidate(boundary, w);
    BodyParts(boundary, m, accept, log);
    var d := Find(w, delim);
    assert w[..d] == w[..p] + w[p..][..d - p];
    assert w[p..][d - p + |delim|..] == w[d + |delim|..];
  }

  // How many bytes of a window without the delimiter state 3 hands on: up to the first CRLF "--"; from
  // there nothing while the rest is too short to tell, otherwise as many as the delimiter is long, and
  // so on behind them.
  function Handed(boundary: string, w: string): (n: nat)
    ensures n <= |w|
    decreases |w|
  {
    if |w| < |CRLF_DASH| then 0
    else
      var p := Find(w, CRLF_DASH);
      var n := p + |Delimiter(boundary)|;
      if |w| < n then p else n + Handed(boundary, w[n..])
  }

  // A turn of state 3 on a window without the delimiter delivers a prefix and keeps the rest.
  lemma BodyGap(boundary: string, m: Machine, accept: Callbacks, log: seq<Event>) returns (n: nat)
    requires m.state == 3 && Accepting(accept) && Find(m.window, Delimiter(boundary)) == |m.window|
    ensures var t := BodyText(boundary, m, accept, log);
      && n <= |m.window| && BodyGain(boundary, m.window) == m.window[..n]
      && (if t.Again? then n > 0 && t.next == m.(window := m.window[n..])
          else t.o.ok && t.o.m == m.(window := m.window[n..]))
      && Handed(boundary, m.window) == n + (if t.Again? then Handed(boundary, m.window[n..]) else 0)
      && Find(m.window[n..], Delimiter(boundary)) == |m.window| - n
  {
    hide FindFrom, OccursAt;
    var w, delim := m.window, Delimiter(boundary);
    if |CRLF_DASH| > |w| { return 0; }
    var p := Find(w, CRLF_DASH);
    NoneInSuffix(w, p, delim);
    var u := w[p..];
    if |delim| > |u| {
      assert w[..p] + "" == w[..p];
      return p;
    }
    NoneInSuffix(u, |delim|, delim);
    n := p + |delim|;
    assert w[..p] + u[..|delim|] == w[..n];
    assert u[|delim|..] == w[n..];
  }

  // Without the delimiter, state 3 delivers the first Handed bytes of the window and keeps the rest.
  lemma {:induction false} BodyNotFound(boundary: string, m: Machine, accept: Callbacks, log: seq<Event>)
    requires m.state == 3 && Accepting(accept) && Find(m.window, Delimiter(boundary)) == |m.window|
    ensures var o := Run(boundary, m, accept, log);
      var n := Handed(boundary, m.window);
      && o.ok && o.m == m.(window := m.window[n..])
      && Parts(o.log) == AddContent(Parts(log), m.window[..n])
    decreases |m.window|
  {
    hide FindFrom, AddContent, BodyText, BodyGain, Find, Parts, Delimiter;
    NoContent(Parts(log));
    if m.window != "" {
      BodyParts(boundary, m, accept, log);
      var n := BodyGap(boundary, m, accept, log);
      hide Handed;
      var t := BodyText(boundary, m, accept, log);
      if t.Again? {
        BodyNotFound(boundary, t.next, accept, t.log);
        var more := Handed(boundary, t.next.window);
        AddWindowTwice(Parts(log), m.window, n, more);
      }
    }
  }

  lemma AddWindowTwice(parts: seq<FormData>, w: string, n: nat, k: nat)
    requires n + k <= |w|
    ensures AddContent(AddContent(parts, w[..n]), w[n..][..k]) == AddContent(parts, w[..n + k])
    ensures w[n..][k..] == w[n + k..]
  {
    hide AddContent;
    AddContentTwice(parts, w[..n], w[n..][..k]);
    assert w[..n] + w[n..][..k] == w[..n + k];
  }

  lemma SuffixTwice(w: string, n: nat, k: nat)
    requires n + k <= |w|
    ensures w[n..][k..] == w[n + k..]
  {
  }

  // A body is cut after w, before its first delimiter is complete, and rest follows.  The cut is
  // harmless when no byte of that delimiter has been handed on.
  predicate HarmlessCut(boundary: string, w: string, rest: string) {
    Handed(boundary, w) <= Find(w + rest, Delimiter(boundary))
  }

  // Cutting a body delivers the same items, and leaves the same machine, exactly when the cut is
  // harmless.
  lemma CutInBody(boundary: string, m: Machine, accept: Callbacks, log: seq<Event>, more: string)
    requires m.state == 3 && Accepting(accept) && Parts(log) != []
    requires Find(m.window, Delimiter(boundary)) == |m.window|
    requires Find(m.window + more, Delimiter(boundary)) < |m.window + more|
    ensures var first := Run(boundary, m, accept, log);
      && first.ok && first.m.state == 3
      && (SameDelivery(Run(boundary, Extend(m, more), accept, log),
                       Run(boundary, Extend(first.m, more), accept, first.log))
          <==> HarmlessCut(boundary, m.window, more))
  {
    hide Run, Find, Delimiter, Parts, Handed;
    BodyNotFound(boundary, m, accept, log);
    if HarmlessCut(boundary, m.window, more) {
      CutKeepsItems(boundary, m, accept, log, more);
    } else {
      CutSpoilsItem(boundary, m, accept, log, more);
    }
  }

  // Where no CRLF "--" stands before the delimiter, the cuts that lose it are those of a window of four
  // bytes or more of which the last one, two or three belong to the delimiter.
  lemma PlainCut(boundary: string, w: string, rest: string)
    requires Find(w, Delimiter(boundary)) == |w| && Find(w + rest, Delimiter(boundary)) < |w + rest|
    requires Find(w + rest, CRLF_DASH) == Find(w + rest, Delimiter(boundary))
    ensures var d := Find(w + rest, Delimiter(boundary));
      HarmlessCut(boundary, w, rest) <==> |w| < 4 || |w| <= d || |w| >= d + 4
  {
    hide FindFrom;
    var d, delim := Find(w + rest, Delimiter(boundary)), Delimiter(boundary);
    assert OccursAt(w + rest, delim, d);
    if d + 4 <= |w| {
      OccursInPrefix(w, rest, CRLF_DASH, d);
      FirstInPrefix(w, rest, CRLF_DASH, d);
      if d + |delim| <= |w| { OccursInPrefix(w, rest, delim, d); }
    } else {
      FirstInPrefix(w, rest, CRLF_DASH, |w|);
    }
  }

  lemma OccursInPrefix(w: string, rest: string, p: string, i: nat)
    requires i + |p| <= |w|
    ensures OccursAt(w, p, i) == OccursAt(w + rest, p, i)
  {
    assert w[i..i + |p|] == (w + rest)[i..i + |p|];
  }

  // The first occurrence in the whole is the first in a prefix that holds it; a prefix that ends before
  // its end holds none.
  lemma FirstInPrefix(w: string, rest: string, p: string, d: nat)
    requires p != "" && d <= |w| && (d < |w| ==> OccursAt(w, p, d))
    requires Find(w + rest, p) == d || (d == |w| && d < Find(w + rest, p) + |p|)
    ensures Find(w, p) == d
  {
    hide FindFrom;
    var f := Find(w + rest, p);
    forall i | 0 <= i < d ensures !OccursAt(w, p, i) {
      if i + |p| <= |w| {
        OccursInPrefix(w, rest, p, i);
        assert i < f ==> !OccursAt(w + rest, p, i);
      }
    }
    FirstIsUnique(w, p, d, Find(w, p));
  }

  lemma CutKeepsItems(boundary: string, m: Machine, accept: Callbacks, log: seq<Event>, more: string)
    requires m.state == 3 && Accepting(accept) && Parts(log) != []
    requires Find(m.window + more, Delimiter(boundary)) < |m.window + more| && HarmlessCut(boundary, m.window, more)
    requires var first, n := Run(boundary, m, accept, log), Handed(boundary, m.window);
      && first.m == m.(window := m.window[n..]) && Parts(first.log) == AddContent(Parts(log), m.window[..n])
    ensures var first := Run(boundary, m, accept, log);
      var whole, split := Extend(m, more), Extend(first.m, more);
      && SameDelivery(Run(boundary, whole, accept, log), Run(boundary, split, accept, first.log))
      && SameTurn(BodyText(boundary, whole, accept, log), BodyText(boundary, split, accept, first.log))
      && Find(split.window, Delimiter(boundary)) < |split.window|
  {
    hide BodyText, Delimiter, Find, Parts, AddContent, Handed, Run;
    var first := Run(boundary, m, accept, log);
    var whole, split := Extend(m, more), Extend(first.m, more);
    TurnsMeet(boundary, m, accept, log, more, Handed(boundary, m.window), first.m, first.log);
    assert whole.window != "" && split.window != "" by {
      NothingFound(whole.window, Delimiter(boundary));
      NothingFound(split.window, Delimiter(boundary));
    }
    OneTurn(boundary, whole, accept, log);
    OneTurn(boundary, split, accept, first.log);
    var t1, t2 := BodyText(boundary, whole, accept, log), BodyText(boundary, split, accept, first.log);
    RunIgnoresHistory(boundary, t1.next, accept, t1.log, t2.log);
  }

  lemma NothingFound(w: string, p: string)
    requires Find(w, p) < |w|
    ensures w != ""
  {
  }

  // A body turn on the whole window and one on what is left behind its first n bytes, which have been
  // delivered, lead to the same place.
  lemma TurnsMeet(boundary: string, m: Machine, accept: Callbacks, log: seq<Event>, more: string,
                  n: nat, m1: Machine, log1: seq<Event>)
    requires m.state == 3 && Accepting(accept) && n <= |m.window| && Parts(log) != []
    requires n <= Find(m.window + more, Delimiter(boundary)) < |m.window + more|
    requires m1 == m.(window := m.window[n..]) && Parts(log1) == AddContent(Parts(log), m.window[..n])
    ensures SameTurn(BodyText(boundary, Extend(m, more), accept, log),
                     BodyText(boundary, Extend(m1, more), accept, log1))
    ensures Find(m1.window + more, Delimiter(boundary)) < |m1.window + more|
  {
    hide BodyText, Delimiter, Find, Parts, AddContent;
    var w, delim := m.window + more, Delimiter(boundary);
    var d := Find(w, delim);
    assert m1.window + more == w[n..] && w[..n] == m.window[..n];
    FindInSuffix(w, n, delim);
    BodyFound(boundary, Extend(m, more), accept, log);
    BodyFound(boundary, Extend(m1, more), accept, log1);
    AddWindowTwice(Parts(log), w, n, d - n);
    SuffixTwice(w, n, d - n + |delim|);
  }

  lemma OneTurn(boundary: string, m: Machine, accept: Callbacks, log: seq<Event>)
    requires m.state == 3 && m.window != "" && BodyText(boundary, m, accept, log).Again?
    ensures var t := BodyText(boundary, m, accept, log);
      t.next.state <= 5 && Run(boundary, m, accept, log) == Run(boundary, t.next, accept, t.log)
  {
    hide BodyText;
    assert TakeTurn(boundary, m, accept, log) == BodyText(boundary, m, accept, log);
  }

  lemma CutSpoilsItem(boundary: string, m: Machine, accept: Callbacks, log: seq<Event>, more: string)
    requires m.state == 3 && Accepting(accept) && Parts(log) != []
    requires Find(m.window + more, Delimiter(boundary)) < |m.window + more| && !HarmlessCut(boundary, m.window, more)
    requires var first, n := Run(boundary, m, accept, log), Handed(boundary, m.window);
      && first.m.state == 3 && Parts(first.log) == AddContent(Parts(log), m.window[..n])
    ensures var first := Run(boundary, m, accept, log);
      var whole := Parts(Run(boundary, Extend(m, more), accept, log).log);
      && whole != Parts(Run(boundary, Extend(first.m, more), accept, first.log).log)
      && forall parts :: Grows(Parts(first.log), parts) ==> whole != parts
  {
    hide BodyText, Delimiter, Find, Parts, AddContent, Handed, Grows;
    var w := m.window + more;
    var d := Find(w, Delimiter(boundary));
    var first := Run(boundary, m, accept, log);
    BodyFound(boundary, Extend(m, more), accept, log);
    var whole := BodyText(boundary, Extend(m, more), accept, log);
    RunParts(boundary, whole.next, accept, whole.log);
    RunParts(boundary, Extend(first.m, more), accept, first.log);
    var all := Run(boundary, whole.next, accept, whole.log);
    forall parts | Grows(Parts(first.log), parts) ensures Parts(all.log) != parts {
      LongerContent(Parts(log), w[..d], m.window[..Handed(boundary, m.window)], Parts(all.log), parts);
    }
  }

  lemma FindInSuffix(w: string, n: nat, p: string)
    requires n <= Find(w, p) < |w|
    ensures Find(w[n..], p) == Find(w, p) - n
  {
    hide FindFrom;
    var d := Find(w, p);
    assert w[n..][d - n..d - n + |p|] == w[d..d + |p|];
    forall i | 0 <= i < d - n ensures !OccursAt(w[n..], p, i) {
      if i + |p| <= |w| - n {
        assert w[n..][i..i + |p|] == w[n + i..n + i + |p|];
        assert !OccursAt(w, p, n + i);
      }
    }
    FirstIsUnique(w[n..], p, d - n, Find(w[n..], p));
  }

  lemma LongerContent(parts: seq<FormData>, x: string, y: string, q1: seq<FormData>, q2: seq<FormData>)
    requires parts != [] && |x| < |y|
    requires AddContent(parts, x) <= q1 && Grows(AddContent(parts, y), q2)
    ensures q1 != q2
  {
    var k := |parts| - 1;
    assert q1[k] == AddContent(parts, x)[k];
  }
}
