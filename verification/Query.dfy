// Query strings: parameters in a std::multimap, printed by the client, parsed by the server.

module Query {
  import opened Text
  import opened Splitting
  import opened UrlCodec
  import opened Multimap

  type Param = Entry

  // std::less<std::string>: bytes compared as unsigned, a proper prefix first.
  predicate Less(a: string, b: string) {
    b != "" && (a == "" || a[0] < b[0] || (a[0] == b[0] && Less(a[1..], b[1..])))
  }

  const LESS: Order := Less

  // b goes on where a ends, or has the greater byte where they first differ.
  predicate GreaterAt(a: string, b: string, n: nat) {
    n <= |a| && n < |b| && a[..n] == b[..n] && (n == |a| || a[n] < b[n])
  }

  lemma {:induction false} LessMeans(a: string, b: string)
    ensures Less(a, b) <==> exists n: nat :: GreaterAt(a, b, n)
  {
    if b == "" {
    } else if a == "" || a[0] != b[0] {
      if Less(a, b) { assert GreaterAt(a, b, 0); }
      assert forall n: nat | GreaterAt(a, b, n) && n > 0 :: a[..n][0] == b[..n][0];
    } else {
      LessMeans(a[1..], b[1..]);
      if n: nat :| GreaterAt(a[1..], b[1..], n) {
        assert a[..n + 1] == [a[0]] + a[1..][..n] && b[..n + 1] == [b[0]] + b[1..][..n];
        assert GreaterAt(a, b, n + 1);
      }
      if n: nat :| GreaterAt(a, b, n) {
        assert n > 0 && a[1..][..n - 1] == a[..n][1..] && b[1..][..n - 1] == b[..n][1..];
        assert GreaterAt(a[1..], b[1..], n - 1);
      }
    }
  }

  lemma {:induction false} LessIsAsymmetric(a: string, b: string)
    requires Less(a, b)
    ensures !Less(b, a)
  {
    if a != "" && a[0] == b[0] { LessIsAsymmetric(a[1..], b[1..]); }
  }

  lemma {:induction false} LessIsWeak(a: string, b: string, c: string)
    requires Less(a, c)
    ensures Less(a, b) || Less(b, c)
  {
    if a != "" && b != "" && a[0] == b[0] == c[0] { LessIsWeak(a[1..], b[1..], c[1..]); }
  }

  lemma LessIsStrictWeak()
    ensures StrictWeak(LESS)
  {
    forall a, b | LESS(a, b) ensures !LESS(b, a) { LessIsAsymmetric(a, b); }
    forall a, b, c | LESS(a, c) ensures LESS(a, b) || LESS(b, c) { LessIsWeak(a, b, c); }
  }

  // ------------------------------------------------------------------------------------------
  // Printing

  function Pair(p: Param): string
    requires IsBytes(p.1)
  {
    p.0 + "=" + EncodeQuery(p.1)
  }

  function PrintFrom(params: seq<Param>, first: bool): string
    requires forall i | 0 <= i < |params| :: IsBytes(params[i].1)
  {
    if params == [] then ""
    else (if first then "" else "&") + Pair(params[0]) + PrintFrom(params[1..], false)
  }

  function PrintQuery(params: seq<Param>): string
    requires forall i | 0 <= i < |params| :: IsBytes(params[i].1)
  {
    PrintFrom(params, true)
  }

  method ParamsToQueryStr(params: seq<Param>) returns (query: string)
    requires forall i | 0 <= i < |params| :: IsBytes(params[i].1)
    ensures query == PrintQuery(params)
  {
    hide EncodeQuery;
    query := "";
    for i := 0 to |params|
      invariant query + PrintFrom(params[i..], i == 0) == PrintQuery(params)
    {
      ghost var before, rest := query, PrintFrom(params[i + 1..], false);
      assert params[i..][1..] == params[i + 1..] && params[i..][0] == params[i];
      var separator := if i != 0 then "&" else "";
      query := query + separator;
      query := query + params[i].0;
      query := query + "=";
      var value := EncodeQueryParam(params[i].1);
      query := query + value;
      Regroup(before, separator, params[i].0, "=", value, rest);
    }
  }

  lemma Regroup(a: string, b: string, c: string, d: string, e: string, f: string)
    ensures a + b + c + d + e + f == a + (b + (c + d + e) + f)
  {
    assert b + (c + d + e) + f == b + (c + d + e + f);
    assert a + b + c + d + e + f == a + b + (c + d + e + f);
  }

  // ------------------------------------------------------------------------------------------
  // Parsing

  // The first piece is the key, the last of the others the value.
  function KeyValue(pieces: seq<string>): Param {
    if pieces == [] then ("", "")
    else if |pieces| == 1 then (pieces[0], "")
    else (pieces[0], pieces[|pieces| - 1])
  }

  function ParseQuery(texts: seq<string>, cache: set<string>, params: seq<Param>): seq<Param>
    decreases |texts|
  {
    if texts == [] then params
    else
      var text := texts[0];
      if text in cache then ParseQuery(texts[1..], cache, params)
      else
        var kv := KeyValue(Pieces(text, '=', 0, 0));
        ParseQuery(texts[1..], cache + {text},
                   if kv.0 == "" then params else Emplace(LESS, params, (Decode(kv.0, true), Decode(kv.1, true))))
  }

  // The decoded pairs of texts that were not seen before, in the order in which they come.
  function QueryEntries(texts: seq<string>, cache: set<string>): seq<Param>
    decreases |texts|
  {
    if texts == [] then []
    else if texts[0] in cache then QueryEntries(texts[1..], cache)
    else
      var kv := KeyValue(Pieces(texts[0], '=', 0, 0));
      (if kv.0 == "" then [] else [(Decode(kv.0, true), Decode(kv.1, true))]) +
      QueryEntries(texts[1..], cache + {texts[0]})
  }

  lemma {:induction false} ParseEmplaces(texts: seq<string>, cache: set<string>, params: seq<Param>)
    ensures ParseQuery(texts, cache, params) == EmplaceAll(LESS, params, QueryEntries(texts, cache))
    decreases |texts|
  {
    hide Pieces, KeyValue, Decode, Emplace;
    if texts != [] {
      if texts[0] in cache {
        ParseEmplaces(texts[1..], cache, params);
      } else {
        var kv := KeyValue(Pieces(texts[0], '=', 0, 0));
        var rest := QueryEntries(texts[1..], cache + {texts[0]});
        if kv.0 == "" {
          assert [] + rest == rest;
          ParseEmplaces(texts[1..], cache + {texts[0]}, params);
        } else {
          var e := (Decode(kv.0, true), Decode(kv.1, true));
          assert ([e] + rest)[1..] == rest;
          ParseEmplaces(texts[1..], cache + {texts[0]}, Emplace(LESS, params, e));
        }
      }
    }
  }

  // Whatever the query and its order: the pairs are all there, sorted stably behind those already known.
  lemma ParsedQueryIsSorted(texts: seq<string>, params: seq<Param>)
    requires Ordered(LESS, params)
    ensures StableSort(LESS, params + QueryEntries(texts, {}), ParseQuery(texts, {}, params))
  {
    hide QueryEntries, EmplaceAll, ParseQuery, StableSort, StrictWeak, Ordered;
    LessIsStrictWeak();
    ParseEmplaces(texts, {}, params);
    EmplaceAllSorts(LESS, params, QueryEntries(texts, {}));
  }

  // The same for a query given by its parts: blanks around them do not count, nor do blank ones.
  lemma QueryTextMeans(parts: seq<string>, params: seq<Param>)
    requires parts != [] && (forall t | t in parts :: '&' !in t) && Ordered(LESS, params)
    ensures var parsed := ParseQuery(Pieces(Join(parts, '&'), '&', 0, 0), {}, params);
      StableSort(LESS, params + QueryEntries(Trims(parts), {}), parsed)
  {
    hide QueryEntries, ParseQuery, StableSort, Ordered, Pieces;
    assert "" + Join(parts, '&') == Join(parts, '&');
    JoinedPieces("", parts, '&');
    ParsedQueryIsSorted(Trims(parts), params);
  }

  // One text of a query, given by its parts between equals signs: the first part that is not blank is the key,
  // even if it stands behind an equals sign, the last of any others the value; without one there is no pair.
  lemma PairMeans(parts: seq<string>)
    requires parts != [] && forall t | t in parts :: '=' !in t
    ensures var names := Trims(parts);
      QueryEntries([Join(parts, '=')], {}) ==
      if names == [] then []
      else [(Decode(names[0], true), if |names| == 1 then "" else Decode(names[|names| - 1], true))]
  {
    hide Pieces, Decode, Trims;
    var text := Join(parts, '=');
    assert "" + text == text;
    JoinedPieces("", parts, '=');
    PiecesNonEmpty(text, '=', 0, 0);
    NothingDecodes();
    var names := Trims(parts);
    assert names != [] ==> names[0] in names;
    assert QueryEntries([], {text}) == [];
    assert [text][1..] == [];
  }

  lemma NothingDecodes()
    ensures Decode("", true) == ""
  {
  }

  method ParseKeyValue(text: string) returns (key: string, val: string)
    ensures (key, val) == KeyValue(Pieces(text, '=', 0, 0))
  {
    var pieces := Split(text, '=');
    PiecesNonEmpty(text, '=', 0, 0);
    key, val := "", "";
    for i := 0 to |pieces|
      invariant key == (if i == 0 then "" else pieces[0])
      invariant val == (if i <= 1 then "" else pieces[i - 1])
    {
      assert pieces[i] in pieces && pieces[0] in pieces;
      if key == "" {
        key := pieces[i];
        assert i == 0;
      } else {
        val := pieces[i];
      }
    }
  }

  lemma {:induction false} PiecesNonEmpty(s: string, d: char, beg: nat, i: nat)
    requires beg <= i <= |s|
    ensures forall p | p in Pieces(s, d, beg, i) :: p != ""
    decreases |s| - i
  {
    if i < |s| {
      if s[i] == d { PiecesNonEmpty(s, d, i + 1, i + 1); } else { PiecesNonEmpty(s, d, beg, i + 1); }
    }
  }

  method ParseQueryText(s: string, params0: seq<Param>) returns (params: seq<Param>)
    ensures params == ParseQuery(Pieces(s, '&', 0, 0), {}, params0)
  {
    hide Pieces, KeyValue;
    params := params0;
    var cache: set<string> := {};
    var texts := Split(s, '&');
    for i := 0 to |texts|
      invariant ParseQuery(texts[i..], cache, params) == ParseQuery(Pieces(s, '&', 0, 0), {}, params0)
    {
      assert texts[i..][1..] == texts[i + 1..];
      var text := texts[i];
      if text !in cache {
        cache := cache + {text};
        var key, val := ParseKeyValue(text);
        if key != "" {
          var k := DecodeUrl(key, true);
          var v := DecodeUrl(val, true);
          params := Emplace(LESS, params, (k, v));
        }
      }
    }
  }

  // ------------------------------------------------------------------------------------------
  // The round trip

  // The keys that come back.  They are printed as they are, so they must hold nothing that cuts them or
  // that the decoder takes for something else.  On the wire encode_url may be applied on top, which
  // stops at a NUL and escapes blanks but not tabs.
  ghost predicate SurvivingKey(k: string, urlEncode: bool) {
    && k != "" && Free(k, "&=") && !HasEscape(k, true)
    && if urlEncode then '\0' !in k && EdgesStay(k) else Trimmed(k)
  }

  ghost predicate PlainParam(p: Param, urlEncode: bool) {
    SurvivingKey(p.0, urlEncode) && IsBytes(p.0) && IsBytes(p.1)
  }

  // encode_url escapes a blank, not a tab.
  predicate EdgesStay(k: string) { k != "" && k[0] != '\t' && k[|k| - 1] != '\t' }

  ghost predicate AllPlain(params: seq<Param>, urlEncode: bool) {
    forall i | 0 <= i < |params| :: PlainParam(params[i], urlEncode) && IsBytes(params[i].0) && IsBytes(params[i].1)
  }

  // What cuts a request line or a target.
  const LINE_CUTS: string := "?# \0\n"

  // What encode_query_param puts out.
  predicate QueryChar(c: char) { Unreserved(c) || c == '%' }

  predicate QueryText(e: string) { forall i | 0 <= i < |e| :: QueryChar(e[i]) }

  lemma {:induction false} EncodedChars(s: string)
    requires IsBytes(s)
    ensures QueryText(EncodeQuery(s)) && (EncodeQuery(s) == "" <==> s == "")
  {
    hide Unreserved;
    if s != "" {
      EncodedChars(s[1..]);
      EncodedChar(s[0]);
    }
  }

  lemma EncodedChar(c: char)
    requires c as int < 256
    ensures QueryText(EncodeQueryChar(c)) && EncodeQueryChar(c) != ""
  {
    if !Unreserved(c) {
      var p := Percent(c);
      HexUpperIsAlnum(c as int / 16);
      HexUpperIsAlnum(c as int % 16);
    }
  }

  lemma QueryTextIsPlain(e: string)
    requires QueryText(e)
    ensures Trimmed(e) && Free(e, "&=") && Free(e, LINE_CUTS) && '+' !in e && '\0' !in e
    ensures e != "" ==> EdgesStay(e)
    ensures forall i | 0 <= i < |e| :: e[i] != '&' && e[i] != '='
  {
  }

  // A pair in transit.
  function PairText(p: Param, urlEncode: bool): string
    requires IsBytes(p.0) && IsBytes(p.1)
  {
    OnWire(p.0, urlEncode) + "=" + OnWire(EncodeQuery(p.1), urlEncode)
  }

  // The key and the value of a pair in transit are cut at the '=' and nowhere else, and decode to the
  // pair.
  lemma WireKey(k: string, urlEncode: bool)
    requires SurvivingKey(k, urlEncode) && IsBytes(k)
    ensures var t := OnWire(k, urlEncode);
      Solid(t, '&') && Solid(t, '=') && Decode(t, true) == k
  {
    hide HasEscape, Decode, EncodePath;
    NoPlus(k);
    DecodeIsIdentity(k, true);
    FreeOfOne(k);
    if urlEncode {
      PathDecodes(k, true);
      EncodedPathFree(k, "&=");
      EncodedPathTrimmed(k);
      FreeOfOne(EncodePath(k));
    }
  }

  lemma NoPlus(k: string)
    requires !HasEscape(k, true)
    ensures '+' !in k
  {
    if '+' in k {
      var j: nat :| j < |k| && k[j] == '+';
      assert EscapeAt(k, true, j);
    }
  }

  lemma FreeOfOne(k: string)
    requires Free(k, "&=")
    ensures forall i | 0 <= i < |k| :: k[i] != '&' && k[i] != '='
  {
    assert '&' in "&=" && '=' in "&=";
  }

  lemma WireValue(v: string, urlEncode: bool)
    requires IsBytes(v)
    ensures var t := OnWire(EncodeQuery(v), urlEncode);
      && (t == "" <==> v == "") && (v != "" ==> Solid(t, '&') && Solid(t, '='))
      && Free(t, LINE_CUTS) && Decode(t, true) == v
  {
    hide Decode, EncodePath, EncodeQuery;
    var e := EncodeQuery(v);
    EncodedChars(v);
    QueryTextIsPlain(e);
    QueryValueRoundTrip(v);
    if urlEncode {
      PathDecodes(e, true);
      EncodedPathFree(e, "&=");
      EncodedPathFree(e, LINE_CUTS);
      NothingEncoded();
      if v != "" {
        EncodedPathTrimmed(e);
        FreeOfOne(EncodePath(e));
      }
    }
  }

  lemma NothingEncoded()
    ensures EncodePath("") == ""
  {
  }

  lemma PairIsSolid(p: Param, urlEncode: bool)
    requires PlainParam(p, urlEncode)
    ensures Solid(PairText(p, urlEncode), '&')
  {
    hide OnWire, EncodeQuery, SurvivingKey;
    WireKey(p.0, urlEncode);
    WireValue(p.1, urlEncode);
    SolidConcat(OnWire(p.0, urlEncode), OnWire(EncodeQuery(p.1), urlEncode));
  }

  lemma SolidConcat(a: string, b: string)
    requires Solid(a, '&') && (b == "" || Solid(b, '&'))
    ensures Solid(a + "=" + b, '&')
  {
    var t := a + "=" + b;
    assert t[0] == a[0] && t[|t| - 1] == if b == "" then '=' else b[|b| - 1];
  }

  // A key and a value cut apart.
  lemma KeyValueOf(k: string, e: string)
    requires Solid(k, '=') && (e == "" || Solid(e, '='))
    ensures KeyValue(Pieces(k + "=" + e, '=', 0, 0)) == (k, e)
  {
    hide Pieces, Solid;
    var pre := "" + k + ['='];
    assert k + "=" + e == pre + e;
    PieceThenMore("", k, '=', e);
    if e == "" {
      assert pre + e == pre;
      NoPiece(pre, '=');
    } else {
      LastPiece(pre, e, '=');
    }
  }

  lemma PairParses(p: Param, urlEncode: bool)
    requires PlainParam(p, urlEncode)
    ensures var kv := KeyValue(Pieces(PairText(p, urlEncode), '=', 0, 0));
      kv.0 != "" && (Decode(kv.0, true), Decode(kv.1, true)) == p
  {
    hide OnWire, EncodeQuery, SurvivingKey, Decode, Pieces, KeyValue;
    WireKey(p.0, urlEncode);
    WireValue(p.1, urlEncode);
    var k, e := OnWire(p.0, urlEncode), OnWire(EncodeQuery(p.1), urlEncode);
    assert e == "" || Solid(e, '=');
    KeyValueOf(k, e);
  }

  // Distinct parameters print differently.
  lemma PairInjective(p: Param, q: Param, urlEncode: bool)
    requires PlainParam(p, urlEncode) && PlainParam(q, urlEncode)
    requires PairText(p, urlEncode) == PairText(q, urlEncode)
    ensures p == q
  {
    hide PairText, Decode, SurvivingKey;
    PairParses(p, urlEncode);
    PairParses(q, urlEncode);
  }

  // Later copies of a parameter removed.
  function Dedup(params: seq<Param>, seen: set<Param>): seq<Param> {
    if params == [] then []
    else if params[0] in seen then Dedup(params[1..], seen)
    else [params[0]] + Dedup(params[1..], seen + {params[0]})
  }

  ghost predicate Distinct(params: seq<Param>) {
    forall i, j | 0 <= i < j < |params| :: params[i] != params[j]
  }

  function PairTexts(params: seq<Param>, urlEncode: bool): seq<string>
    requires forall i | 0 <= i < |params| :: IsBytes(params[i].0) && IsBytes(params[i].1)
  {
    if params == [] then [] else [PairText(params[0], urlEncode)] + PairTexts(params[1..], urlEncode)
  }

  // The text of a nonempty list in transit: its pairs with "&" between them.
  function Joined(params: seq<Param>, urlEncode: bool): string
    requires forall i | 0 <= i < |params| :: IsBytes(params[i].0) && IsBytes(params[i].1)
  {
    if params == [] then ""
    else if |params| == 1 then PairText(params[0], urlEncode)
    else PairText(params[0], urlEncode) + ['&'] + Joined(params[1..], urlEncode)
  }

  lemma PairOnWire(p: Param, urlEncode: bool)
    requires PlainParam(p, urlEncode)
    ensures IsBytes(Pair(p)) && (urlEncode ==> '\0' !in Pair(p))
    ensures OnWire(Pair(p), urlEncode) == PairText(p, urlEncode)
  {
    hide EncodePath, EncodeQuery;
    var e := EncodeQuery(p.1);
    EncodedChars(p.1);
    QueryTextIsPlain(e);
    if urlEncode {
      EncodePathConcat(p.0, "=");
      EncodePathConcat(p.0 + "=", e);
      EqualsSign();
    }
  }

  lemma EqualsSign()
    ensures EncodePath("=") == "=" && EncodePath("&") == "&" && EncodePath("?") == "?"
  {
    PlainSign('=');
    PlainSign('&');
    PlainSign('?');
  }

  lemma PlainSign(c: char)
    requires PathChar(c) && c != '\0'
    ensures EncodePath([c]) == [c]
  {
    assert [c][1..] == "";
  }

  lemma {:induction false} PrintJoined(params: seq<Param>, first: bool, urlEncode: bool)
    requires params != [] && AllPlain(params, urlEncode)
    ensures var q := PrintFrom(params, first);
      && IsBytes(q) && (urlEncode ==> '\0' !in q)
      && OnWire(q, urlEncode) == (if first then "" else "&") + Joined(params, urlEncode)
    decreases |params|
  {
    hide Pair, PairText, PlainParam, EncodePath, IsBytes, Joined;
    var p, rest := params[0], params[1..];
    var sep, text := if first then "" else "&", Pair(params[0]);
    assert PlainParam(p, urlEncode) && IsBytes(p.0) && IsBytes(p.1);
    PairOnWire(p, urlEncode);
    SeparatorIsPlain(sep);
    JoinedStep(params, urlEncode);
    WireConcat(sep, text, urlEncode);
    if |params| == 1 {
      PrintedOne(params, first);
    } else {
      PrintJoined(rest, false, urlEncode);
      WireConcat(sep + text, PrintFrom(rest, false), urlEncode);
      Reassociate(sep, PairText(p, urlEncode), Joined(rest, urlEncode));
    }
  }

  lemma PrintedOne(params: seq<Param>, first: bool)
    requires |params| == 1 && IsBytes(params[0].1)
    ensures PrintFrom(params, first) == (if first then "" else "&") + Pair(params[0])
  {
    hide Pair;
    assert params[1..] == [];
  }

  lemma Reassociate(a: string, b: string, c: string)
    ensures a + b + ("&" + c) == a + (b + ['&'] + c)
  {
  }

  lemma JoinedStep(params: seq<Param>, urlEncode: bool)
    requires params != [] && AllPlain(params, urlEncode)
    ensures Joined(params, urlEncode) ==
      if |params| == 1 then PairText(params[0], urlEncode)
      else PairText(params[0], urlEncode) + ['&'] + Joined(params[1..], urlEncode)
  {
  }

  lemma SeparatorIsPlain(sep: string)
    requires sep == "" || sep == "&"
    ensures IsBytes(sep) && '\0' !in sep && forall urlEncode :: OnWire(sep, urlEncode) == sep
  {
    EqualsSign();
    NothingEncoded();
  }

  lemma WireConcat(a: string, b: string, urlEncode: bool)
    requires IsBytes(a) && IsBytes(b) && (urlEncode ==> '\0' !in a)
    ensures IsBytes(a + b) && (urlEncode && '\0' !in b ==> '\0' !in a + b)
    ensures OnWire(a + b, urlEncode) == OnWire(a, urlEncode) + OnWire(b, urlEncode)
  {
    if urlEncode { EncodePathConcat(a, b); }
  }

  lemma {:induction false} PrintedPieces(pre: string, params: seq<Param>, urlEncode: bool)
    requires params != [] && AllPlain(params, urlEncode)
    ensures Pieces(pre + Joined(params, urlEncode), '&', |pre|, |pre|) == PairTexts(params, urlEncode)
    decreases |params|
  {
    hide PairText, PlainParam, IsBytes, Pieces, Solid;
    var t := PairText(params[0], urlEncode);
    assert PlainParam(params[0], urlEncode);
    PairIsSolid(params[0], urlEncode);
    if |params| == 1 {
      assert params[1..] == [];
      LastPiece(pre, t, '&');
    } else {
      var rest := Joined(params[1..], urlEncode);
      assert pre + Joined(params, urlEncode) == pre + t + ['&'] + rest;
      PieceThenMore(pre, t, '&', rest);
      PrintedPieces(pre + t + ['&'], params[1..], urlEncode);
    }
  }

  // The cache holds exactly the texts of the parameters seen.
  ghost predicate Caches(cache: set<string>, seen: set<Param>, urlEncode: bool) {
    forall p | PlainParam(p, urlEncode) && IsBytes(p.0) && IsBytes(p.1) ::
      p in seen <==> PairText(p, urlEncode) in cache
  }

  lemma CacheMore(cache: set<string>, seen: set<Param>, p: Param, urlEncode: bool)
    requires PlainParam(p, urlEncode) && Caches(cache, seen, urlEncode)
    ensures Caches(cache + {PairText(p, urlEncode)}, seen + {p}, urlEncode)
  {
    hide PairText, SurvivingKey;
    forall q | PlainParam(q, urlEncode) && IsBytes(q.0) && IsBytes(q.1)
      ensures q in seen + {p} <==> PairText(q, urlEncode) in cache + {PairText(p, urlEncode)}
    {
      if PairText(q, urlEncode) == PairText(p, urlEncode) { PairInjective(p, q, urlEncode); }
    }
  }

  lemma {:induction false} PrintedEntries(params: seq<Param>, cache: set<string>, seen: set<Param>, urlEncode: bool)
    requires AllPlain(params, urlEncode) && Caches(cache, seen, urlEncode)
    ensures QueryEntries(PairTexts(params, urlEncode), cache) == Dedup(params, seen)
    decreases |params|
  {
    hide PairText, PlainParam, IsBytes, QueryEntries, Caches;
    if params == [] {
      NoEntries(cache);
    } else {
      var p, text := params[0], PairText(params[0], urlEncode);
      assert PlainParam(p, urlEncode) && IsBytes(p.0) && IsBytes(p.1);
      assert PairTexts(params, urlEncode)[1..] == PairTexts(params[1..], urlEncode);
      CacheHit(cache, seen, p, urlEncode);
      PairParses(p, urlEncode);
      TakeEntry(PairTexts(params, urlEncode), cache);
      if p in seen {
        PrintedEntries(params[1..], cache, seen, urlEncode);
      } else {
        CacheMore(cache, seen, p, urlEncode);
        PrintedEntries(params[1..], cache + {text}, seen + {p}, urlEncode);
      }
    }
  }

  lemma NoEntries(cache: set<string>)
    ensures QueryEntries([], cache) == []
  {
  }

  lemma TakeEntry(texts: seq<string>, cache: set<string>)
    requires texts != []
    ensures var kv := KeyValue(Pieces(texts[0], '=', 0, 0));
      QueryEntries(texts, cache) ==
      if texts[0] in cache then QueryEntries(texts[1..], cache)
      else (if kv.0 == "" then [] else [(Decode(kv.0, true), Decode(kv.1, true))]) +
           QueryEntries(texts[1..], cache + {texts[0]})
  {
    hide Pieces, KeyValue, Decode;
  }

  lemma TakeText(texts: seq<string>, cache: set<string>, params: seq<Param>)
    requires texts != [] && texts[0] !in cache && KeyValue(Pieces(texts[0], '=', 0, 0)).0 != ""
    ensures var kv := KeyValue(Pieces(texts[0], '=', 0, 0));
      ParseQuery(texts, cache, params) ==
      ParseQuery(texts[1..], cache + {texts[0]}, Emplace(LESS, params, (Decode(kv.0, true), Decode(kv.1, true))))
  {
    hide Pieces, KeyValue, Decode, Emplace;
  }

  lemma CacheHit(cache: set<string>, seen: set<Param>, p: Param, urlEncode: bool)
    requires PlainParam(p, urlEncode) && Caches(cache, seen, urlEncode)
    ensures p in seen <==> PairText(p, urlEncode) in cache
  {
  }

  lemma {:induction false} DedupIsIdentity(params: seq<Param>, seen: set<Param>)
    ensures |Dedup(params, seen)| <= |params|
    ensures Dedup(params, seen) == params <==> Distinct(params) && forall i | 0 <= i < |params| :: params[i] !in seen
    decreases |params|
  {
    if params != [] {
      var p := params[0];
      if p in seen {
        DedupIsIdentity(params[1..], seen);
      } else {
        DedupIsIdentity(params[1..], seen + {p});
        if Dedup(params, seen) == params {
          assert Dedup(params, seen)[1..] == params[1..];
        }
        if Distinct(params) && forall i | 0 <= i < |params| :: params[i] !in seen {
          forall i | 0 <= i < |params[1..]| ensures params[1..][i] !in seen + {p} {
            assert params[1..][i] == params[i + 1];
          }
        }
        DistinctTail(params);
      }
    }
  }

  lemma DistinctTail(params: seq<Param>)
    requires params != []
    ensures Distinct(params) <==>
      Distinct(params[1..]) && forall i | 0 <= i < |params[1..]| :: params[1..][i] != params[0]
  {
  }

  lemma {:induction false} DedupIsFrom(params: seq<Param>, seen: set<Param>)
    ensures forall p | p in Dedup(params, seen) :: p in params
    ensures Ordered(LESS, params) ==> Ordered(LESS, Dedup(params, seen))
    decreases |params|
  {
    hide Less;
    if params != [] {
      if params[0] in seen {
        DedupIsFrom(params[1..], seen);
      } else {
        DedupIsFrom(params[1..], seen + {params[0]});
        var rest := Dedup(params[1..], seen + {params[0]});
        forall j | Ordered(LESS, params) && 0 <= j < |rest| ensures !LESS(rest[j].0, params[0].0) {
          assert rest[j] in params[1..];
        }
      }
    }
  }

  // Parsing printed parameters, as they were printed or through encode_url, gives them back without the
  // later copies of equal pairs and sorted stably by key.  A multimap is printed in order, so it comes back
  // without those copies, and unchanged exactly when its pairs are distinct.
  lemma QueryRoundTrip(params: seq<Param>, urlEncode: bool)
    requires AllPlain(params, urlEncode)
    ensures IsBytes(PrintQuery(params))
    ensures var parsed := ParseQuery(Pieces(OnWire(PrintQuery(params), urlEncode), '&', 0, 0), {}, []);
      && StableSort(LESS, Dedup(params, {}), parsed)
      && (Ordered(LESS, params) ==> parsed == Dedup(params, {}) && (parsed == params <==> Distinct(params)))
  {
    hide PairText, PlainParam, Pieces, Solid, Distinct, Joined, PairTexts, Ordered, StableSort, ParseQuery, StrictWeak;
    if params == [] {
      NoQuery(urlEncode);
    } else {
      PrintJoined(params, true, urlEncode);
      PrintedPieces("", params, urlEncode);
      assert "" + Joined(params, urlEncode) == Joined(params, urlEncode);
    }
    var texts := PairTexts(params, urlEncode);
    PrintedEntries(params, {}, {}, urlEncode);
    NothingIsOrdered();
    ParsedQueryIsSorted(texts, []);
    assert [] + Dedup(params, {}) == Dedup(params, {});
    ParseEmplaces(texts, {}, []);
    DedupIsFrom(params, {});
    LessIsStrictWeak();
    if Ordered(LESS, params) { EmplaceInOrder(LESS, Dedup(params, {})); }
    DedupIsIdentity(params, {});
  }

  lemma NothingIsOrdered()
    ensures Ordered(LESS, [])
  {
  }

  lemma NoQuery(urlEncode: bool)
    ensures PrintQuery([]) == "" && Pieces(OnWire("", urlEncode), '&', 0, 0) == PairTexts([], urlEncode)
  {
    NothingEncoded();
  }

  // ------------------------------------------------------------------------------------------
  // Keys that do not come back

  // What parsing a single printed pair gives.
  function ParseOnePair(k: string, v: string): seq<Param>
    requires IsBytes(v)
  {
    ParseQuery(Pieces(PrintQuery([(k, v)]), '&', 0, 0), {}, [])
  }

  lemma OnePairText(k: string, v: string)
    requires IsBytes(v)
    ensures PrintQuery([(k, v)]) == k + "=" + EncodeQuery(v)
  {
    PrintedOne([(k, v)], true);
    assert "" + Pair((k, v)) == Pair((k, v));
  }

  // A single text, if it has a key, gives a single pair.
  lemma OneText(text: string)
    ensures var kv := KeyValue(Pieces(text, '=', 0, 0));
      ParseQuery([text], {}, []) == if kv.0 == "" then [] else [(Decode(kv.0, true), Decode(kv.1, true))]
  {
    hide Pieces, KeyValue, Decode;
    assert [text][1..] == [];
  }

  // A key without '&' and '=' is read back trimmed and decoded: a '+' as a blank, an escape as what it
  // stands for.  An empty or blank key gives way to the value.
  lemma KeyIsDecoded(k: string, v: string)
    requires IsBytes(v) && Free(k, "&=")
    ensures ParseOnePair(k, v) ==
      if TrimCopy(k) != "" then [(Decode(TrimCopy(k), true), v)] else if v == "" then [] else [(v, "")]
  {
    hide Decode, EncodeQuery, Pieces, ParseQuery, PrintQuery, KeyValue, TrimCopy;
    var e := EncodeQuery(v);
    var s := k + "=" + e;
    WireValue(v, false);
    OnePairText(k, v);
    var l := OneTextOf(k, e);
    OneText(s[l..]);
    EmptyDecodes();
  }

  lemma EmptyDecodes()
    ensures Decode("", true) == ""
  {
  }

  // The text is trimmed, and so is the key cut out of it.
  lemma OneTextOf(k: string, e: string) returns (l: nat)
    requires Free(k, "&=") && (e == "" || (Solid(e, '&') && Solid(e, '=')))
    ensures l <= |k| && Pieces(k + "=" + e, '&', 0, 0) == [(k + "=" + e)[l..]]
    ensures KeyValue(Pieces((k + "=" + e)[l..], '=', 0, 0)) ==
      if TrimCopy(k) != "" then (TrimCopy(k), e) else (e, "")
  {
    hide Pieces, KeyValue, TrimCopy;
    var s := k + "=" + e;
    FreeOfOne(k);
    assert s[|k|] == '=' && s[|s| - 1] == if e == "" then '=' else e[|e| - 1];
    forall i | 0 <= i < |s| ensures s[i] != '&' { if i > |k| { assert s[i] == e[i - |k| - 1]; } }
    if TrimCopy(k) != "" {
      var r;
      l, r := TrimCopyIs(k);
      WholePiece(s, '&', l);
      assert s == k + ("=" + e) && s[l..][|k| - l..] == s[|k|..];
      TrimmedKey(s[l..], r - l, |k| - l, e);
      assert s[l..][..r - l] == k[l..r];
    } else {
      AllBlank(k);
      l := |k|;
      WholePiece(s, '&', l);
      assert s == k + ("=" + e);
      NoKey(e);
    }
  }

  // A text without d is one piece, from its first to its last character that is not blank.
  lemma WholePiece(s: string, d: char, l: nat)
    requires l < |s| && (forall i | 0 <= i < |s| :: s[i] != d) && !IsSpaceOrTab(s[l]) && !IsSpaceOrTab(s[|s| - 1])
    requires forall i | 0 <= i < l :: IsSpaceOrTab(s[i])
    ensures Pieces(s, d, 0, 0) == [s[l..]]
  {
    ScanSolid(s, d, 0, 0, |s|);
    SkipBlanksIs(s, 0, l);
    DropBlanksIs(s, |s|, |s|);
    assert s[l..|s|] == s[l..];
  }

  // A key of r characters, blanks up to n, then '=' and e.
  lemma TrimmedKey(t: string, r: nat, n: nat, e: string)
    requires 0 < r <= n < |t| && t[n..] == "=" + e && (e == "" || Solid(e, '='))
    requires !IsSpaceOrTab(t[0]) && !IsSpaceOrTab(t[r - 1])
    requires (forall i | 0 <= i < n :: t[i] != '=') && forall i | r <= i < n :: IsSpaceOrTab(t[i])
    ensures KeyValue(Pieces(t, '=', 0, 0)) == (t[..r], e)
  {
    hide Solid, Pieces, KeyValue, IsSpaceOrTab;
    assert t[n] == t[n..][0] && t[n..][1..] == e;
    TrimmedPiece(t, r, n);
    LastOf(t, n + 1, e);
    TwoPieces(t[..r], e);
  }

  lemma TrimmedPiece(t: string, r: nat, n: nat)
    requires 0 < r <= n < |t| && t[n] == '=' && !IsSpaceOrTab(t[0]) && !IsSpaceOrTab(t[r - 1])
    requires (forall i | 0 <= i < n :: t[i] != '=') && forall i | r <= i < n :: IsSpaceOrTab(t[i])
    ensures Pieces(t, '=', 0, 0) == [t[..r]] + Pieces(t, '=', n + 1, n + 1)
  {
    hide Pieces;
    ScanSolid(t, '=', 0, 0, n);
    SkipBlanksIs(t, 0, 0);
    DropBlanksIs(t, n, r);
    assert Piece(t, 0, n) == [t[..r]];
    CutAt(t, '=', 0, n);
  }

  lemma LastOf(t: string, n: nat, e: string)
    requires n <= |t| && t[n..] == e && (e == "" || Solid(e, '='))
    ensures Pieces(t, '=', n, n) == if e == "" then [] else [e]
  {
    hide Pieces, Solid;
    var pre := t[..n];
    assert t == pre + e;
    if e == "" {
      assert t == pre;
      NoPiece(pre, '=');
    } else {
      LastPiece(pre, e, '=');
    }
  }

  lemma CutAt(s: string, d: char, beg: nat, i: nat)
    requires beg <= i < |s| && s[i] == d
    ensures Pieces(s, d, beg, i) == Piece(s, beg, i) + Pieces(s, d, i + 1, i + 1)
  {
  }

  lemma TwoPieces(k: string, e: string)
    ensures KeyValue([k] + []) == (k, "") && KeyValue([k] + [e]) == (k, e)
  {
    assert [k] + [] == [k] && ([k] + [e])[1] == e;
  }

  lemma NoKey(e: string)
    requires e == "" || Solid(e, '=')
    ensures KeyValue(Pieces("=" + e, '=', 0, 0)) == (e, "")
  {
    hide Solid;
    var t := "=" + e;
    assert Piece(t, 0, 0) == [];
    if e == "" { NoPiece("=", '='); } else { LastPiece("=", e, '='); }
  }

  // What parsing can make of a pair whose key is cut or trimmed: a shorter key, or the value for a key.
  predicate Off(entry: Param, k: string, v: string) {
    |entry.0| < |k| || (entry.1 == "" && v != "")
  }

  predicate WholeKey(k: string) { k != "" && Trimmed(k) && Free(k, "&=") }

  lemma TextIsOff(k: string, v: string, n: nat)
    requires IsBytes(v) && !WholeKey(k) && n < |Pieces(k + "=" + EncodeQuery(v), '&', 0, 0)|
    ensures var kv := KeyValue(Pieces(Pieces(k + "=" + EncodeQuery(v), '&', 0, 0)[n], '=', 0, 0));
      kv.0 != "" ==> Off((Decode(kv.0, true), Decode(kv.1, true)), k, v)
  {
    hide Pieces, EncodeQuery, DecodeFrom, Free, QueryText, WholeKey, Decode;
    var e := EncodeQuery(v);
    var s := k + "=" + e;
    EncodedChars(v);
    QueryTextIsPlain(e);
    EmptyDecodes();
    var a, b := PieceAt(s, '&', 0, 0, n);
    var t := s[a..b];
    var ps := Pieces(t, '=', 0, 0);
    if ps != [] {
      var x, y := PieceAt(t, '=', 0, 0, 0);
      var q := t[x..y];
      NeverLonger(q);
      forall i | a + x <= i < a + y ensures s[i] != '&' && s[i] != '=' { assert s[i] == t[i - a]; }
      assert s[a + x] == t[x] && s[a + y - 1] == t[y - 1];
      NotAcross(k, s, a + x, a + y);
      if a + y <= |k| {
        ShorterThanKey(k, s, a + x, a + y);
      } else {
        forall z | y <= z < |t| ensures t[z] != '=' { NoEqualsBehind(k, e, a + z); }
        assert |e| > 0 && |ps| <= 1;
      }
    }
  }

  lemma NotAcross(k: string, s: string, x: nat, y: nat)
    requires x < y <= |s| && |k| < |s| && s[|k|] == '=' && forall i | x <= i < y :: s[i] != '='
    ensures y <= |k| || |k| < x
  {
  }

  lemma NeverLonger(q: string)
    ensures |Decode(q, true)| <= |q|
  {
    DecodeShortens(q, true, 0);
  }

  lemma NoEqualsBehind(k: string, e: string, i: nat)
    requires |k| < i < |k + "=" + e| && forall j | 0 <= j < |e| :: e[j] != '='
    ensures (k + "=" + e)[i] != '='
  {
    assert (k + "=" + e)[i] == e[i - |k| - 1];
  }

  // A piece taken from a key that is not whole is not all of it.
  lemma ShorterThanKey(k: string, s: string, x: nat, y: nat)
    requires !WholeKey(k) && k <= s && x < y <= |k|
    requires !IsSpaceOrTab(s[x]) && !IsSpaceOrTab(s[y - 1]) && forall i | x <= i < y :: s[i] != '&' && s[i] != '='
    ensures y - x < |k|
  {
    hide WholeKey;
    if y - x == |k| { WholeIsKey(k); }
  }

  lemma WholeIsKey(q: string)
    requires q != "" && !IsSpaceOrTab(q[0]) && !IsSpaceOrTab(q[|q| - 1])
    requires forall i | 0 <= i < |q| :: q[i] != '&' && q[i] != '='
    ensures WholeKey(q)
  {
  }

  lemma {:induction false} EntriesAreOff(texts: seq<string>, cache: set<string>, params: seq<Param>,
                                         k: string, v: string)
    requires forall i | 0 <= i < |texts| ::
      var kv := KeyValue(Pieces(texts[i], '=', 0, 0));
      kv.0 != "" ==> Off((Decode(kv.0, true), Decode(kv.1, true)), k, v)
    requires forall x | x in params :: Off(x, k, v)
    ensures forall x | x in ParseQuery(texts, cache, params) :: Off(x, k, v)
    decreases |texts|
  {
    hide Pieces, KeyValue, Decode, Off, Emplace;
    if texts != [] {
      if texts[0] in cache {
        EntriesAreOff(texts[1..], cache, params, k, v);
      } else {
        var kv := KeyValue(Pieces(texts[0], '=', 0, 0));
        var entry := (Decode(kv.0, true), Decode(kv.1, true));
        EmplaceKeeps(LESS, params, entry);
        var more := if kv.0 == "" then params else Emplace(LESS, params, entry);
        EntriesAreOff(texts[1..], cache + {texts[0]}, more, k, v);
      }
    }
  }

  // A pair comes back if and only if its key survives, whatever the key and the value are.
  lemma KeySurvives(k: string, v: string)
    requires IsBytes(v)
    ensures ParseOnePair(k, v) == [(k, v)] <==> SurvivingKey(k, false)
  {
    hide Decode, HasEscape, EncodeQuery, Pieces, ParseQuery, PrintQuery, KeyValue;
    if WholeKey(k) {
      KeyIsDecoded(k, v);
      TrimmedStays(k);
      DecodeIsIdentity(k, true);
    } else {
      OnePairText(k, v);
      var texts := Pieces(k + "=" + EncodeQuery(v), '&', 0, 0);
      forall i | 0 <= i < |texts|
        ensures var kv := KeyValue(Pieces(texts[i], '=', 0, 0));
          kv.0 != "" ==> Off((Decode(kv.0, true), Decode(kv.1, true)), k, v)
      {
        TextIsOff(k, v, i);
      }
      EntriesAreOff(texts, {}, [], k, v);
      assert !Off((k, v), k, v);
      assert (k, v) in [(k, v)];
    }
  }

  // A key with a '=' is cut there, and the rest of it is lost or becomes the value.
  lemma KeyWithEquals(a: string, b: string, v: string)
    requires IsBytes(v) && Solid(a, '=') && Solid(b, '=') && Solid(a, '&') && Solid(b, '&')
    ensures ParseOnePair(a + "=" + b, v) == [(Decode(a, true), if v == "" then Decode(b, true) else v)]
  {
    hide Decode, EncodeQuery, Pieces, ParseQuery, PrintQuery, KeyValue;
    var e := EncodeQuery(v);
    var text := a + "=" + b + "=" + e;
    WireValue(v, false);
    OnePairText(a + "=" + b, v);
    SolidConcat(a, b);
    SolidConcat(a + "=" + b, e);
    LastPiece("", text, '&');
    assert "" + text == text;
    assert e == "" || Solid(e, '=');
    ThreePieces(a, b, e);
    OneText(text);
  }

  lemma ThreePieces(a: string, b: string, e: string)
    requires Solid(a, '=') && Solid(b, '=') && (e == "" || Solid(e, '='))
    ensures KeyValue(Pieces(a + "=" + b + "=" + e, '=', 0, 0)) == (a, if e == "" then b else e)
  {
    hide Pieces, Solid;
    var text := a + "=" + b + "=" + e;
    var pre := "" + a + ['='];
    assert text == pre + (b + "=" + e) == pre + b + ['='] + e;
    PieceThenMore("", a, '=', b + "=" + e);
    PieceThenMore(pre, b, '=', e);
    var pre2 := pre + b + ['='];
    if e == "" {
      assert pre2 + e == pre2;
      NoPiece(pre2, '=');
    } else {
      LastPiece(pre2, e, '=');
    }
  }

  // A key with a '&' becomes two keys, the first without a value.
  lemma KeyWithAmpersand(a: string, b: string, v: string)
    requires IsBytes(v) && Solid(a, '=') && Solid(b, '=') && Solid(a, '&') && Solid(b, '&')
    ensures var first, second := (Decode(a, true), ""), (Decode(b, true), v);
      ParseOnePair(a + "&" + b, v) == if Less(second.0, first.0) then [second, first] else [first, second]
  {
    hide Decode, EncodeQuery, Pieces, PrintQuery, KeyValue, ParseQuery, Emplace;
    var e := EncodeQuery(v);
    var second := b + "=" + e;
    WireValue(v, false);
    OnePairText(a + "&" + b, v);
    SolidConcat(b, e);
    var pre := "" + a + ['&'];
    assert a + "&" + b + "=" + e == pre + second;
    PieceThenMore("", a, '&', second);
    LastPiece(pre, second, '&');
    assert e == "" || Solid(e, '=');
    KeyValueOf(b, e);
    LoneKey(a);
    assert a != second by { assert second[|b|] == '='; assert forall i | 0 <= i < |a| :: a[i] != '='; }
    TwoTexts(a, second);
  }

  lemma LoneKey(a: string)
    requires Solid(a, '=')
    ensures KeyValue(Pieces(a, '=', 0, 0)) == (a, "") && Decode("", true) == ""
  {
    hide Pieces, Solid;
    assert "" + a == a;
    LastPiece("", a, '=');
  }

  lemma TwoTexts(x: string, y: string)
    requires x != y && KeyValue(Pieces(x, '=', 0, 0)).0 != "" && KeyValue(Pieces(y, '=', 0, 0)).0 != ""
    ensures var kx, ky := KeyValue(Pieces(x, '=', 0, 0)), KeyValue(Pieces(y, '=', 0, 0));
      var x', y' := (Decode(kx.0, true), Decode(kx.1, true)), (Decode(ky.0, true), Decode(ky.1, true));
      ParseQuery([x] + [y], {}, []) == if Less(y'.0, x'.0) then [y', x'] else [x', y']
  {
    hide Pieces, KeyValue, Decode, Less;
    TakeText([x] + [y], {}, []);
    assert ([x] + [y])[1..] == [y] && [y][1..] == [];
    var kx := KeyValue(Pieces(x, '=', 0, 0));
    TakeText([y], {x}, [(Decode(kx.0, true), Decode(kx.1, true))]);
  }
}
