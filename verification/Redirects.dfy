// The mutual recursion send -> handle_request -> redirect or digest retry -> send.  The server is an
// arbitrary sequence of replies, one per exchange, so the results hold for every server.

module Redirects {
  import opened Powers

  const REDIRECT_MAX: nat := 20
  const AUTHORIZATION_MAX: nat := 5

  // What ClientImpl::redirect makes of the Location header.
  datatype Location =
    | Unusable               // absent, not a URL, or https in a build without it
    | Follow(path: string)

  datatype Response = Response(status: int, location: Location, challenge: bool)

  const NO_RESPONSE := Response(-1, Unusable, false)

  datatype Reply =
    | NoConnection
    | ExchangeFailed
    | Answer(res: Response)

  type Server = nat -> Reply

  datatype Settings = Settings(followLocation: bool, digest: bool, proxyDigest: bool)

  datatype Request = Request(verb: string, path: string, body: string, redirectCount: nat, authorizationCount: nat)

  // ret, the request as the callee leaves it, the response, the exchanges so far, and how deep and
  // how often send was entered.
  datatype Sent = Sent(ret: bool, req: Request, res: Response, clock: nat, depth: nat, sends: nat)

  function Remaining(req: Request): nat {
    req.redirectCount +
    if req.authorizationCount < AUTHORIZATION_MAX then AUTHORIZATION_MAX - req.authorizationCount else 0
  }

  function Max(a: nat, b: nat): nat { if a < b then b else a }

  // req may come back overwritten by a redirect, but only with fewer redirects left and the same
  // number of authorization attempts.
  ghost predicate Descends(before: Request, after: Request) {
    after.redirectCount <= before.redirectCount && after.authorizationCount == before.authorizationCount
  }

  // ClientImpl::send: an unreachable server ends it before handle_request.
  function Send(cfg: Settings, server: Server, clock: nat, req: Request): (r: Sent)
    ensures Descends(req, r.req)
    ensures 1 <= r.depth <= Remaining(req) + 1
    ensures r.sends < 2 * Pow2(Remaining(req))
    decreases Remaining(req), 3
  {
    if server(clock) == NoConnection then Sent(false, req, NO_RESPONSE, clock + 1, 1, 1)
    else
      var h := HandleRequest(cfg, server, clock, req);
      h.(depth := h.depth + 1, sends := h.sends + 1)
  }

  function HandleRequest(cfg: Settings, server: Server, clock: nat, req: Request): (r: Sent)
    ensures Descends(req, r.req)
    ensures r.depth <= Remaining(req)
    ensures r.sends + 1 < 2 * Pow2(Remaining(req))
    decreases Remaining(req), 2
  {
    if req.path == "" then Sent(false, req, NO_RESPONSE, clock, 0, 0)
    else match server(clock)
      case Answer(res) =>
        var first :=
          if 300 < res.status < 400 && cfg.followLocation then
            FollowLocation(cfg, server, clock + 1, req, res)
          else Sent(true, req, res, clock + 1, 0, 0);
        DigestRetry(cfg, server, req, first)
      case _ => Sent(false, req, NO_RESPONSE, clock + 1, 0, 0)
  }

  // ClientImpl::redirect.
  function FollowLocation(cfg: Settings, server: Server, clock: nat, req: Request, res: Response): (r: Sent)
    ensures Descends(req, r.req)
    ensures r.depth <= Remaining(req) && (r.depth > 0 ==> req.redirectCount > 0)
    ensures r.sends < if req.redirectCount > 0 then Pow2(Remaining(req)) else 1
    decreases Remaining(req), 1
  {
    if req.redirectCount == 0 || res.location == Unusable then Sent(false, req, res, clock, 0, 0)
    else SendTo(cfg, server, clock, req, res)
  }

  // detail::redirect: the count goes down by one, which its caller has made safe.
  function SendTo(cfg: Settings, server: Server, clock: nat, req: Request, res: Response): (r: Sent)
    requires req.redirectCount > 0 && res.location.Follow?
    ensures Descends(req, r.req)
    ensures r.depth <= Remaining(req)
    ensures r.sends < Pow2(Remaining(req))
    decreases Remaining(req), 0
  {
    var moved := req.(path := res.location.path, redirectCount := req.redirectCount - 1);
    var newReq := if res.status == 303 && req.verb != "GET" && req.verb != "HEAD"
                  then moved.(verb := "GET", body := "") else moved;
    var sent := Send(cfg, server, clock, newReq);
    if sent.ret then sent else sent.(req := req, res := res)
  }

  // The 401 and 407 branch of handle_request, on the request and response that redirect left.
  function DigestRetry(cfg: Settings, server: Server, original: Request, first: Sent): (r: Sent)
    requires Descends(original, first.req) && first.depth <= Remaining(original)
    requires first.sends < Pow2(Remaining(original))
    requires original.redirectCount == 0 ==> first.sends == 0
    ensures Descends(original, r.req)
    ensures r.depth <= Remaining(original)
    ensures r.sends + 1 < 2 * Pow2(Remaining(original))
    decreases Remaining(original), 1
  {
    var req, res := first.req, first.res;
    var credentials := if res.status == 407 then cfg.proxyDigest else cfg.digest;
    if res.status in {401, 407} && req.authorizationCount < AUTHORIZATION_MAX && credentials && res.challenge then
      var newReq := req.(authorizationCount := req.authorizationCount + 1);
      var sent := Send(cfg, server, first.clock, newReq);
      PowMonotone(Remaining(newReq) + 1, Remaining(original));
      Sent(sent.ret, req, if sent.ret then sent.res else res, sent.clock,
           Max(first.depth, sent.depth), first.sends + sent.sends)
    else first
  }

  // A request with the default counts: at most 26 sends are ever nested and fewer than 2^26 are made,
  // whatever the server answers.
  lemma DefaultRequestIsBounded(cfg: Settings, server: Server, verb: string, path: string, body: string)
    ensures var r := Send(cfg, server, 0, Request(verb, path, body, REDIRECT_MAX, 0));
      r.depth <= 26 && r.sends < Pow2(26)
  {
  }

  // The bound is reached: a server that redirects until no redirect is left and then asks for
  // credentials every time.
  function Stubborn(clock: nat): Reply {
    Answer(if clock < REDIRECT_MAX then Response(302, Follow("/"), false) else Response(401, Unusable, true))
  }

  const ALL_ON := Settings(true, true, true)

  lemma {:induction false} StubbornChallenges(clock: nat, req: Request)
    requires clock >= REDIRECT_MAX && req.path != "" && req.authorizationCount <= AUTHORIZATION_MAX
    ensures var r := Send(ALL_ON, Stubborn, clock, req);
      r.depth >= 1 + AUTHORIZATION_MAX - req.authorizationCount
    decreases AUTHORIZATION_MAX - req.authorizationCount
  {
    if req.authorizationCount < AUTHORIZATION_MAX {
      var retry := req.(authorizationCount := req.authorizationCount + 1);
      StubbornChallenges(clock + 1, retry);
      var res := Response(401, Unusable, true);
      var first := Sent(true, req, res, clock + 1, 0, 0);
      assert Stubborn(clock) == Answer(res);
      assert HandleRequest(ALL_ON, Stubborn, clock, req) == DigestRetry(ALL_ON, Stubborn, req, first);
    }
  }

  lemma {:induction false} StubbornRedirects(req: Request)
    requires req.path != "" && req.redirectCount <= REDIRECT_MAX && req.authorizationCount == 0
    ensures Send(ALL_ON, Stubborn, REDIRECT_MAX - req.redirectCount, req).depth
         >= 1 + req.redirectCount + AUTHORIZATION_MAX
    decreases req.redirectCount
  {
    var clock := REDIRECT_MAX - req.redirectCount;
    if req.redirectCount == 0 {
      StubbornChallenges(clock, req);
    } else {
      var res := Response(302, Follow("/"), false);
      assert Stubborn(clock) == Answer(res);
      var newReq := req.(path := "/", redirectCount := req.redirectCount - 1);
      StubbornRedirects(newReq);
      var first := FollowLocation(ALL_ON, Stubborn, clock + 1, req, res);
      assert first == SendTo(ALL_ON, Stubborn, clock + 1, req, res);
      assert first.depth == Send(ALL_ON, Stubborn, clock + 1, newReq).depth;
      assert HandleRequest(ALL_ON, Stubborn, clock, req) == DigestRetry(ALL_ON, Stubborn, req, first);
    }
  }

  lemma DepthBoundIsReached(verb: string, path: string, body: string)
    requires path != ""
    ensures Send(ALL_ON, Stubborn, 0, Request(verb, path, body, REDIRECT_MAX, 0)).depth == 26
  {
    StubbornRedirects(Request(verb, path, body, REDIRECT_MAX, 0));
  }

  // ------------------------------------------------------------------------------------------
  // Chains of redirects

  predicate IsHop(reply: Reply, hop: Response) {
    && reply == Answer(hop) && 300 < hop.status < 400
    && hop.location.Follow? && hop.location.path != ""
  }

  // From clock on the server answers with these redirects.
  ghost predicate Hops(server: Server, clock: nat, hops: seq<Response>) {
    forall i | 0 <= i < |hops| :: IsHop(server(clock + i), hops[i])
  }

  // A 303 turns any other verb into GET and takes the body away.
  predicate BecomesGet(req: Request, hops: seq<Response>) {
    req.verb !in {"GET", "HEAD"} && exists i | 0 <= i < |hops| :: hops[i].status == 303
  }

  function Target(hop: Response): string { if hop.location.Follow? then hop.location.path else "" }

  // The request behind the redirects: to the last of their locations.
  function Landed(req: Request, hops: seq<Response>): Request
    requires |hops| <= req.redirectCount
  {
    if hops == [] then req
    else Request(if BecomesGet(req, hops) then "GET" else req.verb, Target(hops[|hops| - 1]),
                 if BecomesGet(req, hops) then "" else req.body,
                 req.redirectCount - |hops|, req.authorizationCount)
  }

  lemma LandedThen(req: Request, hops: seq<Response>)
    requires 0 < |hops| <= req.redirectCount && forall i | 0 <= i < |hops| :: hops[i].location.Follow?
    ensures Landed(req, hops) == Landed(Landed(req, [hops[0]]), hops[1..])
  {
    var one, rest := Landed(req, [hops[0]]), hops[1..];
    assert BecomesGet(req, [hops[0]]) <==> req.verb !in {"GET", "HEAD"} && hops[0].status == 303;
    assert BecomesGet(req, hops) <==> BecomesGet(req, [hops[0]]) || BecomesGet(one, rest) by {
      if BecomesGet(req, hops) {
        var i :| 0 <= i < |hops| && hops[i].status == 303;
        assert i > 0 ==> rest[i - 1].status == 303;
      }
    }
  }

  // A response that asks for credentials the client has.
  predicate Asks(cfg: Settings, res: Response) {
    res.challenge && ((res.status == 401 && cfg.digest) || (res.status == 407 && cfg.proxyDigest))
  }

  lemma OneHop(cfg: Settings, server: Server, clock: nat, req: Request, hop: Response)
    requires cfg.followLocation && req.path != "" && req.redirectCount > 0 && IsHop(server(clock), hop)
    ensures var inner := Send(cfg, server, clock + 1, Landed(req, [hop]));
      (inner.ret && Asks(cfg, inner.res)) ||
      Send(cfg, server, clock, req) ==
        Sent(inner.ret, if inner.ret then inner.req else req, if inner.ret then inner.res else hop,
             inner.clock, inner.depth + 1, inner.sends + 1)
  {
    assert BecomesGet(req, [hop]) <==> req.verb !in {"GET", "HEAD"} && [hop][0].status == 303;
    var inner := Send(cfg, server, clock + 1, Landed(req, [hop]));
    var first := SendTo(cfg, server, clock + 1, req, hop);
    assert first == if inner.ret then inner else inner.(req := req, res := hop);
    assert FollowLocation(cfg, server, clock + 1, req, hop) == first;
    assert HandleRequest(cfg, server, clock, req) == DigestRetry(cfg, server, req, first);
  }

  // Redirects are followed one by one, the request changing on the way.  If the request at their end
  // succeeds, its response comes back; if it fails, the first redirect does, and the request is unchanged.
  lemma {:induction false} RedirectsUnfold(cfg: Settings, server: Server, clock: nat, req: Request,
                                           hops: seq<Response>)
    requires cfg.followLocation && req.path != "" && |hops| <= req.redirectCount && Hops(server, clock, hops)
    ensures var inner := Send(cfg, server, clock + |hops|, Landed(req, hops));
      (inner.ret && Asks(cfg, inner.res)) ||
      Send(cfg, server, clock, req) ==
        if hops == [] then inner
        else Sent(inner.ret, if inner.ret then inner.req else req, if inner.ret then inner.res else hops[0],
                  inner.clock, inner.depth + |hops|, inner.sends + |hops|)
    decreases |hops|
  {
    hide Send, Landed;
    if hops == [] {
      assert Landed(req, hops) == req by { NoHops(req); }
    } else {
      OneHop(cfg, server, clock, req, hops[0]);
      assert Hops(server, clock + 1, hops[1..]) by {
        forall i | 0 <= i < |hops| - 1 ensures IsHop(server(clock + 1 + i), hops[1..][i]) {
          assert IsHop(server(clock + (i + 1)), hops[i + 1]);
        }
      }
      OneLanded(req, hops[0]);
      RedirectsUnfold(cfg, server, clock + 1, Landed(req, [hops[0]]), hops[1..]);
      LandedThen(req, hops);
    }
  }

  lemma NoHops(req: Request)
    ensures Landed(req, []) == req
  {
  }

  lemma OneLanded(req: Request, hop: Response)
    requires req.redirectCount > 0 && hop.location.Follow?
    ensures var r := Landed(req, [hop]); r.path == hop.location.path && r.redirectCount == req.redirectCount - 1
  {
  }

  // A response that ends a request: no redirect, or one that is not followed, and no question.
  predicate Final(cfg: Settings, res: Response) {
    (res.status <= 300 || res.status >= 400 || !cfg.followLocation) && !Asks(cfg, res)
  }

  lemma FinalAnswer(cfg: Settings, server: Server, clock: nat, req: Request, res: Response)
    requires req.path != "" && server(clock) == Answer(res) && Final(cfg, res)
    ensures Send(cfg, server, clock, req) == Sent(true, req, res, clock + 1, 1, 1)
  {
    var first := Sent(true, req, res, clock + 1, 0, 0);
    assert HandleRequest(cfg, server, clock, req) == DigestRetry(cfg, server, req, first);
  }

  // A server that redirects as often as it may and then answers.
  lemma RedirectChain(cfg: Settings, server: Server, clock: nat, req: Request, hops: seq<Response>, res: Response)
    requires cfg.followLocation && req.path != "" && |hops| <= req.redirectCount && Hops(server, clock, hops)
    requires server(clock + |hops|) == Answer(res) && Final(cfg, res)
    ensures Send(cfg, server, clock, req) ==
            Sent(true, Landed(req, hops), res, clock + |hops| + 1, |hops| + 1, |hops| + 1)
  {
    hide Send;
    RedirectsUnfold(cfg, server, clock, req, hops);
    if hops != [] { assert IsHop(server(clock + (|hops| - 1)), hops[|hops| - 1]); }
    FinalAnswer(cfg, server, clock + |hops|, Landed(req, hops), res);
  }

  // A server that redirects once more often, or whose last redirect leads nowhere: the request fails, and
  // nothing is sent after that redirect.
  lemma RedirectsEnd(cfg: Settings, server: Server, clock: nat, req: Request, hops: seq<Response>, last: Response)
    requires cfg.followLocation && req.path != "" && |hops| <= req.redirectCount && Hops(server, clock, hops)
    requires server(clock + |hops|) == Answer(last) && 300 < last.status < 400
    requires |hops| == req.redirectCount || last.location == Unusable
    ensures Send(cfg, server, clock, req) ==
            Sent(false, req, if hops == [] then last else hops[0], clock + |hops| + 1, |hops| + 1, |hops| + 1)
  {
    hide Send;
    RedirectsUnfold(cfg, server, clock, req, hops);
    var landed, at := Landed(req, hops), clock + |hops|;
    if hops != [] { assert IsHop(server(clock + (|hops| - 1)), hops[|hops| - 1]); }
    LastHop(cfg, server, at, landed, last);
  }

  lemma LastHop(cfg: Settings, server: Server, clock: nat, req: Request, last: Response)
    requires cfg.followLocation && req.path != "" && server(clock) == Answer(last) && 300 < last.status < 400
    requires req.redirectCount == 0 || last.location == Unusable
    ensures Send(cfg, server, clock, req) == Sent(false, req, last, clock + 1, 1, 1)
  {
    var first := Sent(false, req, last, clock + 1, 0, 0);
    assert HandleRequest(cfg, server, clock, req) == DigestRetry(cfg, server, req, first);
  }

  // ------------------------------------------------------------------------------------------
  // Chains of challenges

  ghost predicate Challenges(cfg: Settings, server: Server, clock: nat, asked: seq<Response>) {
    forall i | 0 <= i < |asked| :: server(clock + i) == Answer(asked[i]) && Asks(cfg, asked[i])
  }

  function Attempt(req: Request, n: nat): Request { req.(authorizationCount := req.authorizationCount + n) }

  lemma OneChallenge(cfg: Settings, server: Server, clock: nat, req: Request, asked: Response)
    requires req.path != "" && req.authorizationCount < AUTHORIZATION_MAX
    requires server(clock) == Answer(asked) && Asks(cfg, asked)
    ensures var inner := Send(cfg, server, clock + 1, Attempt(req, 1));
      Send(cfg, server, clock, req) ==
        Sent(inner.ret, req, if inner.ret then inner.res else asked, inner.clock, inner.depth + 1, inner.sends + 1)
  {
    var first := Sent(true, req, asked, clock + 1, 0, 0);
    assert HandleRequest(cfg, server, clock, req) == DigestRetry(cfg, server, req, first);
  }

  // Each challenge is met with one more attempt, up to the limit.  The request comes back unchanged, with the
  // last attempt's response, or, if that attempt fails, with the first challenge.
  lemma {:induction false} ChallengesUnfold(cfg: Settings, server: Server, clock: nat, req: Request,
                                            asked: seq<Response>)
    requires req.path != "" && req.authorizationCount + |asked| <= AUTHORIZATION_MAX
    requires Challenges(cfg, server, clock, asked)
    ensures var inner := Send(cfg, server, clock + |asked|, Attempt(req, |asked|));
      Send(cfg, server, clock, req) ==
        if asked == [] then inner
        else Sent(inner.ret, req, if inner.ret then inner.res else asked[0],
                  inner.clock, inner.depth + |asked|, inner.sends + |asked|)
    decreases |asked|
  {
    hide Send;
    if asked != [] {
      assert server(clock + 0) == Answer(asked[0]) && Asks(cfg, asked[0]);
      OneChallenge(cfg, server, clock, req, asked[0]);
      assert Challenges(cfg, server, clock + 1, asked[1..]) by {
        forall i | 0 <= i < |asked| - 1
          ensures server(clock + 1 + i) == Answer(asked[1..][i]) && Asks(cfg, asked[1..][i]) {
          assert server(clock + (i + 1)) == Answer(asked[i + 1]);
        }
      }
      ChallengesUnfold(cfg, server, clock + 1, Attempt(req, 1), asked[1..]);
    }
  }

  // Challenges within the limit, then an answer.
  lemma ChallengeChain(cfg: Settings, server: Server, clock: nat, req: Request, asked: seq<Response>, res: Response)
    requires req.path != "" && req.authorizationCount + |asked| <= AUTHORIZATION_MAX
    requires Challenges(cfg, server, clock, asked)
    requires server(clock + |asked|) == Answer(res) && Final(cfg, res)
    ensures Send(cfg, server, clock, req) == Sent(true, req, res, clock + |asked| + 1, |asked| + 1, |asked| + 1)
  {
    hide Send;
    ChallengesUnfold(cfg, server, clock, req, asked);
    FinalAnswer(cfg, server, clock + |asked|, Attempt(req, |asked|), res);
  }

  // One challenge more than the limit: it comes back as the response of a request that succeeded.
  lemma ChallengesEnd(cfg: Settings, server: Server, clock: nat, req: Request, asked: seq<Response>, last: Response)
    requires req.path != "" && req.authorizationCount + |asked| == AUTHORIZATION_MAX
    requires Challenges(cfg, server, clock, asked) && server(clock + |asked|) == Answer(last) && Asks(cfg, last)
    ensures Send(cfg, server, clock, req) == Sent(true, req, last, clock + |asked| + 1, |asked| + 1, |asked| + 1)
  {
    hide Send;
    ChallengesUnfold(cfg, server, clock, req, asked);
    LastChallenge(cfg, server, clock + |asked|, Attempt(req, |asked|), last);
  }

  lemma LastChallenge(cfg: Settings, server: Server, clock: nat, req: Request, last: Response)
    requires req.path != "" && req.authorizationCount >= AUTHORIZATION_MAX
    requires server(clock) == Answer(last) && Asks(cfg, last)
    ensures Send(cfg, server, clock, req) == Sent(true, req, last, clock + 1, 1, 1)
  {
    var first := Sent(true, req, last, clock + 1, 0, 0);
    assert HandleRequest(cfg, server, clock, req) == DigestRetry(cfg, server, req, first);
  }

  // Without an answer there is no response.
  lemma NoAnswer(cfg: Settings, server: Server, clock: nat, req: Request)
    requires !server(clock).Answer? || req.path == ""
    ensures var r := Send(cfg, server, clock, req); !r.ret && r.req == req && r.res == NO_RESPONSE && r.sends == 1
  {
  }
}
