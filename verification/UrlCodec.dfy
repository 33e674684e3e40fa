// Percent-encoding (section 2.1 of RFC 3986): the encoder of query values, the encoder of request
// paths, and the one decoder for both.

module UrlCodec {
  import opened Text
  import opened Splitting

  predicate IsBytes(s: string) {
    forall i | 0 <= i < |s| :: s[i] as int < 256
  }

  const HEX_UPPER: string := "0123456789ABCDEF"

  function Percent(c: char): (r: string)
    requires c as int < 256
    ensures |r| == 3 && r[0] == '%' && IsBytes(r)
    ensures HexDigit(r[1]) * 16 + HexDigit(r[2]) == c as int && HexDigit(r[1]) >= 0 && HexDigit(r[2]) >= 0
  {
    HexUpperDigit(c as int / 16);
    HexUpperDigit(c as int % 16);
    "%" + [HEX_UPPER[c as int / 16]] + [HEX_UPPER[c as int % 16]]
  }

  lemma HexUpperDigit(d: nat)
    requires d < 16
    ensures HexDigit(HEX_UPPER[d]) == d && HEX_UPPER[d] != 'u' && HEX_UPPER[d] as int < 256
  {
  }

  // The characters encode_query_param leaves alone.
  predicate Unreserved(c: char) {
    IsAlnum(c) || c in "-_.!~*'()"
  }

  function EncodeQueryChar(c: char): string
    requires c as int < 256
  {
    if Unreserved(c) then [c] else Percent(c)
  }

  function EncodeQuery(s: string): (r: string)
    requires IsBytes(s)
    ensures IsBytes(r)
  {
    if s == "" then "" else EncodeQueryChar(s[0]) + EncodeQuery(s[1..])
  }

  method EncodeQueryParam(value: string) returns (escaped: string)
    requires IsBytes(value)
    ensures escaped == EncodeQuery(value)
  {
    hide EncodeQueryChar;
    escaped := "";
    for i := 0 to |value|
      invariant escaped + EncodeQuery(value[i..]) == EncodeQuery(value)
    {
      assert value[i..][1..] == value[i + 1..];
      escaped := escaped + EncodeQueryChar(value[i]);
    }
  }

  // What encode_url leaves alone among the bytes below 0x80.
  predicate PathChar(c: char) {
    c as int < 128 && c !in " +\r\n',;"
  }

  function EncodePathChar(c: char): string
    requires c as int < 256
  {
    if PathChar(c) then [c] else Percent(c)
  }

  // encode_url stops at the first NUL.
  function EncodePath(s: string): string
    requires IsBytes(s)
  {
    if s == "" || s[0] == '\0' then "" else EncodePathChar(s[0]) + EncodePath(s[1..])
  }

  method EncodeUrlChar(c: char) returns (text: string)
    requires c as int < 256
    ensures text == EncodePathChar(c)
  {
    SpelledOut();
    hide Percent;
    match c
    case ' ' => text := "%20";
    case '+' => text := "%2B";
    case '\r' => text := "%0D";
    case '\n' => text := "%0A";
    case '\'' => text := "%27";
    case ',' => text := "%2C";
    case ';' => text := "%3B";
    case _ =>
      if c as int >= 0x80 {
        text := Percent(c);
      } else {
        text := [c];
      }
  }

  method EncodeUrl(s: string) returns (result: string)
    requires IsBytes(s)
    ensures result == EncodePath(s)
  {
    hide EncodePathChar;
    result := "";
    var i := 0;
    while i < |s| && s[i] != '\0'
      invariant i <= |s|
      invariant result + EncodePath(s[i..]) == EncodePath(s)
      decreases |s| - i
    {
      assert s[i..][1..] == s[i + 1..];
      var text := EncodeUrlChar(s[i]);
      result := result + text;
      i := i + 1;
    }
  }

  lemma SpelledOut()
    ensures Percent(' ') == "%20" && Percent('+') == "%2B" && Percent('\r') == "%0D" && Percent('\n') == "%0A"
    ensures Percent('\'') == "%27" && Percent(',') == "%2C" && Percent(';') == "%3B"
  {
  }

  // ------------------------------------------------------------------------------------------
  // Decoding

  // s[i] of a std::string: the terminator may be read, nothing behind it.
  function At(s: string, i: nat): char
    requires i <= |s|
  {
    if i == |s| then '\0' else s[i]
  }

  datatype Hex = NoHex | Hex(val: nat)

  // from_hex_to_i with val accumulated so far.
  function HexFrom(s: string, i: nat, cnt: nat, val: nat): (r: Hex)
    requires i <= |s|
    ensures r.Hex? ==> i + cnt <= |s|
    decreases cnt
  {
    if cnt == 0 then Hex(val)
    else if At(s, i) == '\0' then NoHex
    else if HexDigit(At(s, i)) < 0 then NoHex
    else HexFrom(s, i + 1, cnt - 1, val * 16 + HexDigit(At(s, i)))
  }

  function HexAt(s: string, i: nat, cnt: nat): (r: Hex)
    ensures r.Hex? ==> i + cnt <= |s|
  {
    if i >= |s| then NoHex else HexFrom(s, i, cnt, 0)
  }

  method FromHexToI(s: string, i0: nat, cnt0: nat) returns (ok: bool, val: nat)
    requires cnt0 > 0
    ensures ok <==> HexAt(s, i0, cnt0).Hex?
    ensures ok ==> val == HexAt(s, i0, cnt0).val
  {
    if i0 >= |s| { return false, 0; }
    val := 0;
    var i: nat, cnt: nat := i0, cnt0;
    while cnt > 0
      invariant i <= |s| && HexFrom(s, i, cnt, val) == HexAt(s, i0, cnt0)
      decreases cnt
    {
      if At(s, i) == '\0' { return false, val; }
      var v := HexDigit(At(s, i));
      if v < 0 { return false, val; }
      val := val * 16 + v;
      i, cnt := i + 1, cnt - 1;
    }
    return true, val;
  }

  lemma HexBound(s: string, i: nat, cnt: nat, val: nat)
    requires i <= |s| && HexFrom(s, i, cnt, val).Hex?
    ensures cnt == 2 && val == 0 ==> HexFrom(s, i, cnt, val).val < 256
    ensures cnt == 4 && val == 0 ==> HexFrom(s, i, cnt, val).val < 65536
  {
  }

  // to_utf8: nothing for a surrogate or beyond the last plane.
  function ToUtf8(code: nat): (r: string)
    ensures |r| <= 4 && (code < 0x1_0000 ==> |r| <= 3)
  {
    if code < 0x80 then [code as char]
    else if code < 0x800 then [(0xC0 + code / 64) as char, (0x80 + code % 64) as char]
    else if 0xD800 <= code < 0xE000 then ""
    else if code < 0x1_0000 then
      [(0xE0 + code / 4096) as char, (0x80 + code / 64 % 64) as char, (0x80 + code % 64) as char]
    else if code < 0x11_0000 then
      [(0xF0 + code / 262144) as char, (0x80 + code / 4096 % 64) as char, (0x80 + code / 64 % 64) as char,
       (0x80 + code % 64) as char]
    else ""
  }

  // The six bits of a continuation byte, -1 for any other.
  function Continuation(c: char): int {
    if 0x80 <= c as int < 0xC0 then c as int - 0x80 else -1
  }

  // The code of one UTF-8 sequence (section 3 of RFC 3629), -1 when it is not the shortest form of a
  // scalar value.
  function FromUtf8(s: string): int {
    if |s| == 0 || exists i | 1 <= i < |s| :: Continuation(s[i]) < 0 then -1
    else
      var lead := s[0] as int;
      if |s| == 1 && lead < 0x80 then lead
      else if |s| == 2 && 0xC2 <= lead < 0xE0 then (lead - 0xC0) * 64 + Continuation(s[1])
      else if |s| == 3 && 0xE0 <= lead < 0xF0 then
        var code := (lead - 0xE0) * 4096 + Continuation(s[1]) * 64 + Continuation(s[2]);
        if code < 0x800 || 0xD800 <= code < 0xE000 then -1 else code
      else if |s| == 4 && 0xF0 <= lead < 0xF5 then
        var code := (lead - 0xF0) * 262144 + Continuation(s[1]) * 4096 + Continuation(s[2]) * 64 + Continuation(s[3]);
        if code < 0x1_0000 || code >= 0x11_0000 then -1 else code
      else -1
  }

  // to_utf8 gives the UTF-8 sequence of every scalar value, and nothing for any other code.
  lemma ToUtf8Decodes(code: nat)
    ensures ToUtf8(code) == "" <==> 0xD800 <= code < 0xE000 || code >= 0x11_0000
    ensures ToUtf8(code) != "" ==> FromUtf8(ToUtf8(code)) == code
  {
    SixBits(code);
  }

  lemma SixBits(code: nat)
    ensures code == code / 64 * 64 + code % 64
    ensures code == code / 4096 * 4096 + code / 64 % 64 * 64 + code % 64
    ensures code == code / 262144 * 262144 + code / 4096 % 64 * 4096 + code / 64 % 64 * 64 + code % 64
  {
    assert code / 4096 == code / 64 / 64 && code / 262144 == code / 64 / 64 / 64;
  }

  predicate WideEscapeAt(s: string, i: nat) {
    i + 1 < |s| && s[i] == '%' && s[i + 1] == 'u' && HexAt(s, i + 2, 4).Hex?
  }

  predicate ByteEscapeAt(s: string, i: nat) {
    i + 1 < |s| && s[i] == '%' && s[i + 1] != 'u' && HexAt(s, i + 1, 2).Hex?
  }

  function DecodeFrom(s: string, plus: bool, i: nat): string
    requires i <= |s|
    decreases |s| - i
  {
    if i == |s| then ""
    else if WideEscapeAt(s, i) then
      HexBound(s, i + 2, 4, 0);
      ToUtf8(HexAt(s, i + 2, 4).val) + DecodeFrom(s, plus, i + 6)
    else if ByteEscapeAt(s, i) then
      HexBound(s, i + 1, 2, 0);
      [HexAt(s, i + 1, 2).val as char] + DecodeFrom(s, plus, i + 3)
    else
      [if plus && s[i] == '+' then ' ' else s[i]] + DecodeFrom(s, plus, i + 1)
  }

  function Decode(s: string, plus: bool): string {
    DecodeFrom(s, plus, 0)
  }

  // One round of the loop: what is appended, and where the next round starts.
  method DecodeOne(s: string, plus: bool, i: nat) returns (text: string, next: nat)
    requires i < |s|
    ensures i < next <= |s| && DecodeFrom(s, plus, i) == text + DecodeFrom(s, plus, next)
  {
    hide ToUtf8, HexAt;
    text, next := [s[i]], i;
    if s[i] == '%' && i + 1 < |s| {
      if s[i + 1] == 'u' {
        var ok, val := FromHexToI(s, i + 2, 4);
        if ok {
          WideBound(s, i);
          text := ToUtf8(val);
          next := i + 5;
        }
      } else {
        var ok, val := FromHexToI(s, i + 1, 2);
        if ok {
          ByteBound(s, i);
          text := [val as char];
          next := i + 2;
        }
      }
    } else if plus && s[i] == '+' {
      text := " ";
    }
    next := next + 1;
  }

  method DecodeUrl(s: string, plus: bool) returns (result: string)
    ensures result == Decode(s, plus)
  {
    hide ToUtf8, HexAt, WideEscapeAt, ByteEscapeAt, DecodeFrom;
    result := "";
    NothingLeft(s, plus);
    var i: nat := 0;
    while i < |s|
      invariant i <= |s|
      invariant result + DecodeFrom(s, plus, i) == Decode(s, plus)
      decreases |s| - i
    {
      var text, next := DecodeOne(s, plus, i);
      Assoc(result, text, DecodeFrom(s, plus, next));
      result := result + text;
      i := next;
    }
  }

  lemma Assoc(a: string, b: string, c: string)
    ensures a + (b + c) == (a + b) + c
  {
  }

  lemma NothingLeft(s: string, plus: bool)
    ensures DecodeFrom(s, plus, |s|) == ""
  {
  }

  lemma WideBound(s: string, i: nat)
    requires HexAt(s, i + 2, 4).Hex?
    ensures HexAt(s, i + 2, 4).val < 65536
  {
    HexBound(s, i + 2, 4, 0);
  }

  lemma ByteBound(s: string, i: nat)
    requires HexAt(s, i + 1, 2).Hex?
    ensures HexAt(s, i + 1, 2).val < 256
  {
    HexBound(s, i + 1, 2, 0);
  }

  // ------------------------------------------------------------------------------------------
  // What the decoder undoes

  lemma PercentDecodes(s: string, plus: bool, i: nat, c: char)
    requires c as int < 256 && i + 3 <= |s| && s[i..i + 3] == Percent(c)
    ensures DecodeFrom(s, plus, i) == [c] + DecodeFrom(s, plus, i + 3)
  {
    var p := Percent(c);
    assert s[i] == p[0] && s[i + 1] == s[i..i + 3][1] == p[1] && s[i + 2] == s[i..i + 3][2] == p[2];
    assert HexDigit('u') < 0 && HexDigit('\0') < 0;
    var a, b := HexDigit(p[1]), HexDigit(p[2]);
    assert HexFrom(s, i + 3, 0, a * 16 + b) == Hex(a * 16 + b);
    assert HexFrom(s, i + 2, 1, a) == Hex(a * 16 + b);
    assert HexFrom(s, i + 1, 2, 0) == Hex(a * 16 + b);
  }

  lemma PlainDecodes(s: string, plus: bool, i: nat)
    requires i < |s| && s[i] != '%' && !(plus && s[i] == '+')
    ensures DecodeFrom(s, plus, i) == [s[i]] + DecodeFrom(s, plus, i + 1)
  {
  }

  // One encoded character in its place.
  lemma QueryCharDecodes(all: string, j: nat, c: char)
    requires c as int < 256
    requires var n := |EncodeQueryChar(c)|; j + n <= |all| && all[j..j + n] == EncodeQueryChar(c)
    ensures DecodeFrom(all, true, j) == [c] + DecodeFrom(all, true, j + |EncodeQueryChar(c)|)
  {
    hide DecodeFrom, Percent;
    if Unreserved(c) {
      assert all[j] == all[j..j + 1][0];
      PlainDecodes(all, true, j);
    } else {
      PercentDecodes(all, true, j, c);
    }
  }

  lemma {:induction false} EncodedQueryDecodes(all: string, j: nat, s: string)
    requires IsBytes(s) && j <= |all| && all[j..] == EncodeQuery(s)
    ensures DecodeFrom(all, true, j) == s
    decreases |s|
  {
    hide DecodeFrom, EncodeQueryChar;
    if s == "" {
      NothingLeft(all, true);
    } else {
      var code := EncodeQueryChar(s[0]);
      CutFront(all, j, code, EncodeQuery(s[1..]));
      EncodedQueryDecodes(all, j + |code|, s[1..]);
      QueryCharDecodes(all, j, s[0]);
    }
  }

  lemma CutFront(all: string, j: nat, a: string, b: string)
    requires j <= |all| && all[j..] == a + b
    ensures j + |a| <= |all| && all[j..j + |a|] == a && all[j + |a|..] == b
  {
    assert all[j..][..|a|] == all[j..j + |a|] && all[j..][|a|..] == all[j + |a|..];
  }

  // For every byte string.
  lemma QueryValueRoundTrip(s: string)
    requires IsBytes(s)
    ensures Decode(EncodeQuery(s), true) == s
  {
    assert EncodeQuery(s)[0..] == EncodeQuery(s);
    EncodedQueryDecodes(EncodeQuery(s), 0, s);
  }

  // The encoding of HTML forms: a blank as '+', any other character as encode_query_param has it.
  function FormChar(c: char): string
    requires c as int < 256
  {
    if c == ' ' then "+" else EncodeQueryChar(c)
  }

  function FormEncode(s: string): string
    requires IsBytes(s)
  {
    if s == "" then "" else FormChar(s[0]) + FormEncode(s[1..])
  }

  function PlusForBlank(s: string): string {
    if s == "" then "" else [if s[0] == ' ' then '+' else s[0]] + PlusForBlank(s[1..])
  }

  lemma FormCharDecodes(all: string, plus: bool, j: nat, c: char)
    requires c as int < 256
    requires var n := |FormChar(c)|; j + n <= |all| && all[j..j + n] == FormChar(c)
    ensures DecodeFrom(all, plus, j) ==
      [if c == ' ' && !plus then '+' else c] + DecodeFrom(all, plus, j + |FormChar(c)|)
  {
    hide Percent, HexAt, ToUtf8;
    if c == ' ' || Unreserved(c) {
      assert all[j] == all[j..j + 1][0] && all[j] != '%';
    } else {
      PercentDecodes(all, plus, j, c);
    }
  }

  lemma {:induction false} FormDecodesFrom(all: string, plus: bool, j: nat, s: string)
    requires IsBytes(s) && j <= |all| && all[j..] == FormEncode(s)
    ensures DecodeFrom(all, plus, j) == if plus then s else PlusForBlank(s)
    decreases |s|
  {
    hide DecodeFrom, FormChar;
    if s == "" {
      NothingLeft(all, plus);
    } else {
      CutFront(all, j, FormChar(s[0]), FormEncode(s[1..]));
      FormDecodesFrom(all, plus, j + |FormChar(s[0])|, s[1..]);
      FormCharDecodes(all, plus, j, s[0]);
    }
  }

  // A form field comes back where '+' is converted; otherwise its blanks come back as '+'.
  lemma FormDecodes(s: string, plus: bool)
    requires IsBytes(s)
    ensures Decode(FormEncode(s), plus) == if plus then s else PlusForBlank(s)
  {
    assert FormEncode(s)[0..] == FormEncode(s);
    FormDecodesFrom(FormEncode(s), plus, 0, s);
  }

  // ------------------------------------------------------------------------------------------
  // What the decoder reads

  // The parts every text falls into.
  datatype Token =
    | Raw(c: char)
    | Lone                                             // a '%' that opens no escape
    | Byte(hi: char, lo: char)                         // %XX
    | Wide(a: char, b: char, c: char, d: char)         // %uXXXX

  function TokenText(t: Token): string {
    match t
    case Raw(c) => [c]
    case Lone => "%"
    case Byte(hi, lo) => ['%', hi, lo]
    case Wide(a, b, c, d) => ['%', 'u', a, b, c, d]
  }

  predicate HexAhead(s: string, cnt: nat) {
    cnt <= |s| && forall i | 0 <= i < cnt :: HexDigit(s[i]) >= 0
  }

  // Whether t is a token where rest follows it.
  predicate IsToken(t: Token, rest: string) {
    match t
    case Raw(c) => c != '%'
    case Lone => !HexAhead(rest, 2) && !(rest != "" && rest[0] == 'u' && HexAhead(rest[1..], 4))
    case Byte(hi, lo) => HexAhead([hi, lo], 2)
    case Wide(a, b, c, d) => HexAhead([a, b, c, d], 4)
  }

  function TokensText(ts: seq<Token>): string {
    if ts == [] then "" else TokenText(ts[0]) + TokensText(ts[1..])
  }

  predicate AreTokens(ts: seq<Token>) {
    ts == [] || (IsToken(ts[0], TokensText(ts[1..])) && AreTokens(ts[1..]))
  }

  // text is what t stands for: a byte for %XX, for %uXXXX the UTF-8 sequence of the code, nothing for half
  // a surrogate pair.
  ghost predicate Reads(t: Token, plus: bool, text: string) {
    match t
    case Raw(c) => text == if plus && c == '+' then " " else [c]
    case Lone => text == "%"
    case Byte(hi, lo) => |text| == 1 && text[0] as int == HexDigit(hi) * 16 + HexDigit(lo)
    case Wide(a, b, c, d) =>
      var code := ((HexDigit(a) * 16 + HexDigit(b)) * 16 + HexDigit(c)) * 16 + HexDigit(d);
      if 0xD800 <= code < 0xE000 then text == "" else FromUtf8(text) == code
  }

  lemma {:induction false} HexFromAhead(s: string, i: nat, cnt: nat, val: nat)
    requires i <= |s|
    ensures HexFrom(s, i, cnt, val).Hex? <==> HexAhead(s[i..], cnt)
    decreases cnt
  {
    assert HexDigit('\0') < 0;
    if cnt > 0 && i < |s| && HexDigit(s[i]) >= 0 {
      HexFromAhead(s, i + 1, cnt - 1, val * 16 + HexDigit(s[i]));
      assert s[i..][1..] == s[i + 1..] && s[i..][0] == s[i];
      assert forall k | 0 < k < |s[i..]| :: s[i..][k] == s[i + 1..][k - 1];
    } else if cnt > 0 && i < |s| {
      assert s[i..][0] == s[i];
    }
  }

  lemma LoneDecodes(s: string, plus: bool, j: nat)
    requires j < |s| && s[j] == '%' && IsToken(Lone, s[j + 1..])
    ensures DecodeFrom(s, plus, j) == "%" + DecodeFrom(s, plus, j + 1)
  {
    hide ToUtf8;
    if j + 1 < |s| {
      HexFromAhead(s, j + 1, 2, 0);
      assert s[j + 1..][0] == s[j + 1] && s[j + 1..][1..] == s[j + 2..];
      HexFromAhead(s, j + 2, 4, 0);
    }
  }

  lemma ByteDecodes(s: string, plus: bool, j: nat, hi: char, lo: char)
    requires j + 3 <= |s| && s[j] == '%' && s[j + 1] == hi && s[j + 2] == lo && HexAhead([hi, lo], 2)
    ensures var code := HexDigit(hi) * 16 + HexDigit(lo);
      0 <= code < 256 && DecodeFrom(s, plus, j) == [code as char] + DecodeFrom(s, plus, j + 3)
  {
    hide ToUtf8;
    assert HexDigit('u') < 0 && HexDigit('\0') < 0;
    assert [hi, lo][0] == hi && [hi, lo][1] == lo;
    var a, b := HexDigit(hi), HexDigit(lo);
    assert HexFrom(s, j + 3, 0, a * 16 + b) == Hex(a * 16 + b);
    assert HexFrom(s, j + 2, 1, a) == Hex(a * 16 + b);
    assert HexFrom(s, j + 1, 2, 0) == Hex(a * 16 + b);
  }

  lemma HexOfFour(s: string, i: nat, w: string)
    requires i + 4 <= |s| && s[i..i + 4] == w && HexAhead(w, 4)
    ensures HexFrom(s, i, 4, 0) ==
      Hex(((HexDigit(w[0]) * 16 + HexDigit(w[1])) * 16 + HexDigit(w[2])) * 16 + HexDigit(w[3]))
  {
    assert HexDigit('\0') < 0;
    assert s[i] == w[0] && s[i + 1] == w[1] && s[i + 2] == w[2] && s[i + 3] == w[3];
    var a := HexDigit(w[0]);
    var b := a * 16 + HexDigit(w[1]);
    var c := b * 16 + HexDigit(w[2]);
    var d := c * 16 + HexDigit(w[3]);
    assert HexFrom(s, i + 4, 0, d) == Hex(d);
    assert HexFrom(s, i + 3, 1, c) == Hex(d);
    assert HexFrom(s, i + 2, 2, b) == Hex(d);
    assert HexFrom(s, i + 1, 3, a) == Hex(d);
  }

  lemma WideDecodes(s: string, plus: bool, j: nat, w: string) returns (text: string)
    requires j + 6 <= |s| && s[j] == '%' && s[j + 1] == 'u' && |w| == 4 && s[j + 2..j + 6] == w && HexAhead(w, 4)
    ensures Reads(Wide(w[0], w[1], w[2], w[3]), plus, text)
    ensures DecodeFrom(s, plus, j) == text + DecodeFrom(s, plus, j + 6)
  {
    hide ToUtf8, FromUtf8, HexFrom, HexDigit;
    HexOfFour(s, j + 2, w);
    WideBound(s, j);
    var code := HexAt(s, j + 2, 4).val;
    text := ToUtf8(code);
    ToUtf8Decodes(code);
  }

  lemma TokenDecodes(s: string, plus: bool, j: nat, t: Token) returns (text: string)
    requires var n := |TokenText(t)|; j + n <= |s| && s[j..j + n] == TokenText(t) && IsToken(t, s[j + n..])
    ensures Reads(t, plus, text)
    ensures DecodeFrom(s, plus, j) == text + DecodeFrom(s, plus, j + |TokenText(t)|)
  {
    hide DecodeFrom, HexAhead, HexDigit, FromUtf8;
    var w := s[j..j + |TokenText(t)|];
    assert s[j] == w[0];
    match t
    case Raw(c) =>
      RawDecodes(s, plus, j);
      text := if plus && c == '+' then " " else [c];
    case Lone =>
      LoneDecodes(s, plus, j);
      text := "%";
    case Byte(hi, lo) =>
      assert s[j + 1] == w[1] && s[j + 2] == w[2];
      ByteDecodes(s, plus, j, hi, lo);
      text := [(HexDigit(hi) * 16 + HexDigit(lo)) as char];
    case Wide(a, b, c, d) =>
      assert s[j + 1] == w[1] && s[j + 2..j + 6] == w[2..6] == [a, b, c, d];
      text := WideDecodes(s, plus, j, [a, b, c, d]);
  }

  lemma RawDecodes(s: string, plus: bool, j: nat)
    requires j < |s| && s[j] != '%'
    ensures DecodeFrom(s, plus, j) == (if plus && s[j] == '+' then " " else [s[j]]) + DecodeFrom(s, plus, j + 1)
  {
  }

  // Decoding reads a text token by token.
  lemma {:induction false} TokensDecode(s: string, plus: bool, j: nat, ts: seq<Token>) returns (texts: seq<string>)
    requires AreTokens(ts) && j <= |s| && s[j..] == TokensText(ts)
    ensures |texts| == |ts| && forall i | 0 <= i < |ts| :: Reads(ts[i], plus, texts[i])
    ensures DecodeFrom(s, plus, j) == Concat(texts)
    decreases |ts|
  {
    hide DecodeFrom, TokenText, IsToken, Reads;
    if ts == [] {
      NothingLeft(s, plus);
      texts := [];
    } else {
      var n := |TokenText(ts[0])|;
      CutFront(s, j, TokenText(ts[0]), TokensText(ts[1..]));
      var text := TokenDecodes(s, plus, j, ts[0]);
      var rest := TokensDecode(s, plus, j + n, ts[1..]);
      texts := [text] + rest;
      assert texts[1..] == rest;
      forall i | 0 <= i < |ts| ensures Reads(ts[i], plus, texts[i]) {
        if i > 0 { assert ts[i] == ts[1..][i - 1] && texts[i] == rest[i - 1]; }
      }
    }
  }

  // Every text is one of tokens.
  lemma {:induction false} EveryTextIsTokens(s: string) returns (ts: seq<Token>)
    ensures AreTokens(ts) && TokensText(ts) == s
    decreases |s|
  {
    hide HexDigit;
    if s == "" {
      ts := [];
    } else {
      var t := FirstToken(s);
      var n := |TokenText(t)|;
      var rest := EveryTextIsTokens(s[n..]);
      ts := [t] + rest;
      assert ts[1..] == rest;
      assert s == s[..n] + s[n..];
    }
  }

  lemma FirstToken(s: string) returns (t: Token)
    requires s != ""
    ensures var n := |TokenText(t)|; 0 < n <= |s| && s[..n] == TokenText(t) && IsToken(t, s[n..])
  {
    hide HexDigit;
    if s[0] != '%' {
      t := Raw(s[0]);
    } else if HexAhead(s[1..], 2) {
      t := Byte(s[1], s[2]);
      assert s[1..][0] == s[1] && s[1..][1] == s[2];
    } else if |s| > 1 && s[1] == 'u' && HexAhead(s[2..], 4) {
      t := Wide(s[2], s[3], s[4], s[5]);
      assert s[2..][0] == s[2] && s[2..][1] == s[3] && s[2..][2] == s[4] && s[2..][3] == s[5];
    } else {
      t := Lone;
      if |s| > 1 { assert s[1..][0] == s[1] && s[1..][1..] == s[2..]; }
    }
  }

  // What decode_url gives for every input: the text falls into tokens, and each is read as it should be.
  lemma DecodeReads(s: string, plus: bool) returns (ts: seq<Token>, texts: seq<string>)
    ensures AreTokens(ts) && TokensText(ts) == s
    ensures |texts| == |ts| && forall i | 0 <= i < |ts| :: Reads(ts[i], plus, texts[i])
    ensures Decode(s, plus) == Concat(texts)
  {
    hide DecodeFrom, AreTokens, TokensText, Reads;
    ts := EveryTextIsTokens(s);
    assert s[0..] == s;
    texts := TokensDecode(s, plus, 0, ts);
  }

  // ------------------------------------------------------------------------------------------
  // What the encoders leave alone

  lemma {:induction false} QueryKeeps(s: string)
    requires IsBytes(s)
    ensures |EncodeQuery(s)| >= |s|
    ensures EncodeQuery(s) == s <==>
      forall i | 0 <= i < |s| :: 'a' <= s[i] <= 'z' || 'A' <= s[i] <= 'Z' || '0' <= s[i] <= '9' || s[i] in "-_.!~*'()"
  {
    hide Percent;
    if s != "" {
      QueryKeeps(s[1..]);
      assert s == [s[0]] + s[1..];
      if EncodeQuery(s) == s { SameTail(EncodeQueryChar(s[0]), EncodeQuery(s[1..]), s); }
    }
  }

  lemma {:induction false} PathKeeps(s: string)
    requires IsBytes(s) && '\0' !in s
    ensures |EncodePath(s)| >= |s|
    ensures EncodePath(s) == s <==> forall i | 0 <= i < |s| :: s[i] as int < 128 && s[i] !in " +\r\n',;"
  {
    hide Percent;
    if s != "" {
      PathKeeps(s[1..]);
      assert s == [s[0]] + s[1..];
      if EncodePath(s) == s { SameTail(EncodePathChar(s[0]), EncodePath(s[1..]), s); }
    }
  }

  lemma SameTail(a: string, b: string, s: string)
    requires s != "" && a + b == s && a != "" && |b| >= |s| - 1
    ensures a == [s[0]] && b == s[1..]
  {
    assert (a + b)[..1] == a && (a + b)[1..] == b;
  }

  // all, from j on, is the encoding of s from i on.
  ghost predicate EncodesFrom(all: string, j: nat, s: string, i: nat) {
    IsBytes(s) && '\0' !in s && i <= |s| && j <= |all| && all[j..] == EncodePath(s[i..])
  }

  // Either both ends are reached, or a character stands for itself, or an escape stands for it.
  lemma EncodedAhead(all: string, j: nat, s: string, i: nat)
    requires EncodesFrom(all, j, s, i)
    ensures i <= |s| && j <= |all| && IsBytes(s) && (i == |s| <==> j == |all|)
    ensures i < |s| && PathChar(s[i]) ==> all[j] == s[i] && EncodesFrom(all, j + 1, s, i + 1)
    ensures i < |s| && !PathChar(s[i]) ==>
      j + 3 <= |all| && all[j..j + 3] == Percent(s[i]) && EncodesFrom(all, j + 3, s, i + 1)
  {
    hide Percent, PathChar;
    if i < |s| {
      assert s[i..][0] == s[i] && s[i..][1..] == s[i + 1..];
      var code := EncodePathChar(s[i]);
      assert all[j..] == code + EncodePath(s[i + 1..]);
      assert all[j..][0] == all[j];
      assert all[j..][|code|..] == all[j + |code|..];
      if !PathChar(s[i]) { assert all[j..][..3] == all[j..j + 3] == code; }
    }
  }

  // The encoder leaves hexadecimal digits alone and puts none where there was none.
  lemma {:induction false} SameHexAhead(all: string, j: nat, s: string, i: nat, cnt: nat, val: nat)
    requires EncodesFrom(all, j, s, i)
    ensures HexFrom(all, j, cnt, val) == HexFrom(s, i, cnt, val)
    ensures HexFrom(s, i, cnt, val).Hex? ==> EncodesFrom(all, j + cnt, s, i + cnt)
    decreases cnt
  {
    hide EncodesFrom, Percent;
    EncodedAhead(all, j, s, i);
    if cnt > 0 && i < |s| {
      if PathChar(s[i]) {
        if HexDigit(s[i]) >= 0 { SameHexAhead(all, j + 1, s, i + 1, cnt - 1, val * 16 + HexDigit(s[i])); }
      } else {
        assert all[j] == all[j..j + 3][0];
        assert HexDigit('%') < 0;
      }
    }
  }

  // An escape of s is in the encoding as it was, and the encoding makes no new one out of a '%' of s.
  lemma SameEscape(all: string, j: nat, s: string, i: nat)
    requires EncodesFrom(all, j, s, i) && i < |s| && s[i] == '%'
    ensures j < |all| && all[j] == '%' && EncodesFrom(all, j + 1, s, i + 1)
    ensures WideEscapeAt(all, j) == WideEscapeAt(s, i) && ByteEscapeAt(all, j) == ByteEscapeAt(s, i)
    ensures WideEscapeAt(s, i) ==>
      HexAt(all, j + 2, 4) == HexAt(s, i + 2, 4) && EncodesFrom(all, j + 6, s, i + 6)
    ensures ByteEscapeAt(s, i) ==>
      HexAt(all, j + 1, 2) == HexAt(s, i + 1, 2) && EncodesFrom(all, j + 3, s, i + 3)
  {
    hide EncodesFrom, Percent, HexDigit;
    EncodedAhead(all, j, s, i);
    SameHexAhead(all, j + 1, s, i + 1, 2, 0);
    EncodedAhead(all, j + 1, s, i + 1);
    if i + 1 < |s| {
      if s[i + 1] == 'u' {
        SameHexAhead(all, j + 2, s, i + 2, 4, 0);
        EncodedAhead(all, j + 2, s, i + 2);
      } else if !PathChar(s[i + 1]) {
        assert all[j + 1] == all[j + 1..j + 4][0];
      }
    }
  }

  lemma {:induction false} EncodedPathDecodes(all: string, j: nat, s: string, i: nat, plus: bool)
    requires EncodesFrom(all, j, s, i) && (plus ==> '+' !in s)
    ensures DecodeFrom(all, plus, j) == DecodeFrom(s, plus, i)
    decreases |s| - i
  {
    hide EncodesFrom, Percent, WideEscapeAt, ByteEscapeAt, HexAt, ToUtf8;
    EncodedAhead(all, j, s, i);
    if i == |s| {
    } else if !PathChar(s[i]) {
      PercentDecodes(all, plus, j, s[i]);
      PlainDecodes(s, plus, i);
      EncodedPathDecodes(all, j + 3, s, i + 1, plus);
    } else if s[i] != '%' {
      PlainDecodes(all, plus, j);
      PlainDecodes(s, plus, i);
      EncodedPathDecodes(all, j + 1, s, i + 1, plus);
    } else {
      PercentAhead(all, j, s, i, plus);
    }
  }

  lemma {:induction false} PercentAhead(all: string, j: nat, s: string, i: nat, plus: bool)
    requires EncodesFrom(all, j, s, i) && i < |s| && s[i] == '%' && (plus ==> '+' !in s)
    ensures DecodeFrom(all, plus, j) == DecodeFrom(s, plus, i)
    decreases |s| - i, 0
  {
    hide EncodesFrom, Percent, HexAt, ToUtf8;
    SameEscape(all, j, s, i);
    if WideEscapeAt(s, i) {
      EncodedPathDecodes(all, j + 6, s, i + 6, plus);
    } else if ByteEscapeAt(s, i) {
      EncodedPathDecodes(all, j + 3, s, i + 3, plus);
    } else {
      EncodedPathDecodes(all, j + 1, s, i + 1, plus);
    }
  }

  // Encoding a path first never changes what decoding gives; so the path comes back exactly when it
  // holds no escape itself.
  lemma PathDecodes(s: string, plus: bool)
    requires IsBytes(s) && '\0' !in s && (plus ==> '+' !in s)
    ensures Decode(EncodePath(s), plus) == Decode(s, plus)
    ensures Decode(EncodePath(s), plus) == s <==> !HasEscape(s, plus)
  {
    assert EncodePath(s)[0..] == EncodePath(s) && s[0..] == s;
    EncodedPathDecodes(EncodePath(s), 0, s, 0, plus);
    DecodeIsIdentity(s, plus);
  }

  // The decoder takes s[j] for something else than itself.
  predicate EscapeAt(s: string, plus: bool, j: nat) {
    WideEscapeAt(s, j) || ByteEscapeAt(s, j) || (plus && j < |s| && s[j] == '+')
  }

  ghost predicate EscapeFrom(s: string, plus: bool, i: nat) {
    exists j: nat :: i <= j < |s| && EscapeAt(s, plus, j)
  }

  // Decoding never lengthens a text, and leaves it as it is exactly when it holds no escape.
  lemma {:induction false} DecodeShortens(s: string, plus: bool, i: nat)
    requires i <= |s|
    ensures |DecodeFrom(s, plus, i)| <= |s| - i
    ensures DecodeFrom(s, plus, i) == s[i..] <==> !EscapeFrom(s, plus, i)
    decreases |s| - i
  {
    hide HexAt, ToUtf8, DecodeFrom, EscapeAt;
    NothingLeft(s, plus);
    if i < |s| {
      var next := EscapeStep(s, plus, i);
      DecodeShortens(s, plus, next);
      if !EscapeAt(s, plus, i) {
        assert s[i..] == [s[i]] + s[i + 1..];
        if EscapeFrom(s, plus, i) {
          var j: nat :| i <= j < |s| && EscapeAt(s, plus, j);
          assert i + 1 <= j;
        }
      } else {
        assert s[i..][0] == s[i];
      }
    }
  }

  // Past an escape decoding is behind, or reads a blank for a plus; past any other character it is level.
  lemma EscapeStep(s: string, plus: bool, i: nat) returns (next: nat)
    requires i < |s|
    ensures i < next <= |s|
    ensures |DecodeFrom(s, plus, i)| <= next - i + |DecodeFrom(s, plus, next)|
    ensures EscapeAt(s, plus, i) ==>
      || |DecodeFrom(s, plus, i)| < next - i + |DecodeFrom(s, plus, next)|
      || (DecodeFrom(s, plus, i) != "" && DecodeFrom(s, plus, i)[0] != s[i])
    ensures !EscapeAt(s, plus, i) ==>
      next == i + 1 && DecodeFrom(s, plus, i) == [s[i]] + DecodeFrom(s, plus, next)
  {
    hide HexAt, ToUtf8;
    if WideEscapeAt(s, i) {
      WideBound(s, i);
      next := i + 6;
    } else if ByteEscapeAt(s, i) {
      next := i + 3;
    } else {
      next := i + 1;
    }
  }

  ghost predicate HasEscape(s: string, plus: bool) { EscapeFrom(s, plus, 0) }

  lemma DecodeIsIdentity(s: string, plus: bool)
    ensures Decode(s, plus) == s <==> !HasEscape(s, plus)
  {
    DecodeShortens(s, plus, 0);
    assert s[0..] == s;
  }

  // ------------------------------------------------------------------------------------------
  // A text as it travels, through encode_url or not

  function OnWire(s: string, urlEncode: bool): string
    requires IsBytes(s)
  {
    if urlEncode then EncodePath(s) else s
  }

  lemma {:induction false} EncodePathConcat(a: string, b: string)
    requires IsBytes(a) && IsBytes(b) && '\0' !in a
    ensures IsBytes(a + b) && EncodePath(a + b) == EncodePath(a) + EncodePath(b)
  {
    hide EncodePathChar;
    if a == "" {
      assert a + b == b;
    } else {
      EncodePathConcat(a[1..], b);
      assert (a + b)[0] == a[0] && (a + b)[1..] == a[1..] + b;
    }
  }

  lemma EncodedPathChar(c: char, bad: string)
    requires c as int < 256 && (c !in bad || !PathChar(c))
    requires '%' !in bad && forall k | 0 <= k < |bad| :: !IsAlnum(bad[k])
    ensures EncodePathChar(c) != "" && Free(EncodePathChar(c), bad)
    ensures !IsSpaceOrTab(c) ==> !IsSpaceOrTab(EncodePathChar(c)[0])
    ensures !IsSpaceOrTab(c) ==> !IsSpaceOrTab(EncodePathChar(c)[|EncodePathChar(c)| - 1])
  {
    if !PathChar(c) {
      HexUpperIsAlnum(c as int / 16);
      HexUpperIsAlnum(c as int % 16);
    }
  }

  lemma HexUpperIsAlnum(d: nat)
    requires d < 16
    ensures IsAlnum(HEX_UPPER[d])
  {
  }

  // What s does not hold its encoding does not hold either, nor what encode_url escapes.
  lemma {:induction false} EncodedPathFree(s: string, bad: string)
    requires IsBytes(s) && forall i | 0 <= i < |s| :: s[i] !in bad || !PathChar(s[i])
    requires '%' !in bad && forall k | 0 <= k < |bad| :: !IsAlnum(bad[k])
    ensures Free(EncodePath(s), bad)
  {
    hide EncodePathChar, PathChar, IsAlnum;
    if s != "" {
      EncodedPathFree(s[1..], bad);
      EncodedPathChar(s[0], bad);
    }
  }

  // The edges of the encoding are blank only where those of s are.
  lemma EncodedPathTrimmed(s: string)
    requires IsBytes(s) && '\0' !in s && s != "" && s[0] != '\t' && s[|s| - 1] != '\t'
    ensures EncodePath(s) != "" && Trimmed(EncodePath(s))
  {
    hide EncodePath, EncodePathChar, Trimmed, IsSpaceOrTab;
    var n := |s| - 1;
    PathEnds(s);
    EdgeChar(s[0]);
    EdgeChar(s[n]);
    TrimmedBetween(EncodePathChar(s[0]), EncodePath(s[1..]), EncodePath(s[..n]), EncodePathChar(s[n]));
  }

  lemma PathEnds(s: string)
    requires IsBytes(s) && '\0' !in s && s != ""
    ensures var n := |s| - 1;
      && IsBytes(s[..n]) && IsBytes(s[1..])
      && EncodePath(s) == EncodePath(s[..n]) + EncodePathChar(s[n])
      && EncodePath(s) == EncodePathChar(s[0]) + EncodePath(s[1..])
  {
    hide EncodePathChar, EncodePath;
    var n := |s| - 1;
    assert s == s[..n] + [s[n]];
    EncodePathConcat(s[..n], [s[n]]);
    OneEncoded(s[n]);
    FirstEncoded(s);
  }

  lemma FirstEncoded(s: string)
    requires IsBytes(s) && s != "" && s[0] != '\0'
    ensures EncodePath(s) == EncodePathChar(s[0]) + EncodePath(s[1..])
  {
    hide EncodePathChar;
  }

  lemma OneEncoded(c: char)
    requires c as int < 256 && c != '\0'
    ensures EncodePath([c]) == EncodePathChar(c)
  {
    hide EncodePathChar;
    assert [c][1..] == "";
  }

  lemma TrimmedBetween(a: string, x: string, y: string, b: string)
    requires a + x == y + b && a != "" && b != "" && !IsSpaceOrTab(a[0]) && !IsSpaceOrTab(b[|b| - 1])
    ensures Trimmed(a + x)
  {
    assert (a + x)[0] == a[0] && (y + b)[|y + b| - 1] == b[|b| - 1];
  }

  lemma EdgeChar(c: char)
    requires c as int < 256 && c != '\t'
    ensures var e := EncodePathChar(c); e != "" && !IsSpaceOrTab(e[0]) && !IsSpaceOrTab(e[|e| - 1])
  {
    EncodedPathChar(c, " ");
  }
}
