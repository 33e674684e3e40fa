// base64_encode (section 4 of RFC 4648): the source pushes bits through one 32-bit accumulator; the
// reference encodes whole groups of three bytes; a standard decoder gives the input back.

module Base64 {
  import opened Powers

  type Byte = b: int | 0 <= b < 256

  // The lookup table in quarters.
  const LOOKUP_0: string := "ABCDEFGHIJKLMNOP"
  const LOOKUP_1: string := "QRSTUVWXYZabcdef"
  const LOOKUP_2: string := "ghijklmnopqrstuv"
  const LOOKUP_3: string := "wxyz0123456789+/"
  const UINT32: nat := 0x1_0000_0000

  function Symbol(v: nat): char
    requires v < 64
  {
    if v < 16 then LOOKUP_0[v] else if v < 32 then LOOKUP_1[v - 16]
    else if v < 48 then LOOKUP_2[v - 32] else LOOKUP_3[v - 48]
  }

  // ------------------------------------------------------------------------------------------
  // The reference

  // The four sextets of a group, missing bytes read as zero.
  function First(a: int): (v: int)
    ensures 0 <= a < 256 ==> 0 <= v < 64
  {
    a / 4
  }

  function Second(a: int, b: int): (v: int)
    ensures 0 <= a < 256 && 0 <= b < 256 ==> 0 <= v < 64
  {
    a % 4 * 16 + b / 16
  }

  function Third(b: int, c: int): (v: int)
    ensures 0 <= b < 256 && 0 <= c < 256 ==> 0 <= v < 64
  {
    b % 16 * 4 + c / 64
  }

  function Fourth(c: int): (v: int)
    ensures 0 <= v < 64
  {
    c % 64
  }

  // A group of one, two or three bytes, padded to four symbols.
  function Group(s: seq<Byte>): (r: string)
    requires 1 <= |s| <= 3
    ensures |r| == 4
  {
    if |s| == 1 then
      [Symbol(First(s[0])), Symbol(Second(s[0], 0)), '=', '=']
    else if |s| == 2 then
      [Symbol(First(s[0])), Symbol(Second(s[0], s[1])), Symbol(Third(s[1], 0)), '=']
    else
      [Symbol(First(s[0])), Symbol(Second(s[0], s[1])), Symbol(Third(s[1], s[2])), Symbol(Fourth(s[2]))]
  }

  function Encode(s: seq<Byte>): string {
    if s == [] then "" else if |s| <= 3 then Group(s) else Group(s[..3]) + Encode(s[3..])
  }

  // How many groups of three n bytes begin.
  function Groups(n: nat): nat { if n == 0 then 0 else if n <= 3 then 1 else 1 + Groups(n - 3) }

  lemma {:induction false} GroupsRoundUp(n: nat)
    ensures Groups(n) == (n + 2) / 3
  {
    if n > 3 { GroupsRoundUp(n - 3); }
  }

  lemma {:induction false} EncodeLength(s: seq<Byte>)
    ensures |Encode(s)| == 4 * Groups(|s|)
    decreases |s|
  {
    hide Group;
    if |s| > 3 { EncodeLength(s[3..]); }
  }

  // ------------------------------------------------------------------------------------------
  // The decoder

  // The value of a symbol, -1 outside the alphabet.
  function Value(c: char): (v: int)
    ensures -1 <= v < 64
  {
    if 'A' <= c <= 'Z' then c as int - 'A' as int
    else if 'a' <= c <= 'z' then c as int - 'a' as int + 26
    else if '0' <= c <= '9' then c as int - '0' as int + 52
    else if c == '+' then 62
    else if c == '/' then 63
    else -1
  }

  datatype Decoded = Malformed | Decoded(bytes: seq<Byte>)

  // Four symbols; padding is allowed where last says so, and the bits it leaves over must be zero.
  function DecodeGroup(q: string, last: bool): Decoded
    requires |q| == 4
  {
    var a, b, c, d := Value(q[0]), Value(q[1]), Value(q[2]), Value(q[3]);
    if a < 0 || b < 0 then Malformed
    else if last && q[2] == '=' && q[3] == '=' then
      if b % 16 != 0 then Malformed else Decoded([a * 4 + b / 16])
    else if c < 0 then Malformed
    else if last && q[3] == '=' then
      if c % 4 != 0 then Malformed else Decoded([a * 4 + b / 16, b % 16 * 16 + c / 4])
    else if d < 0 then Malformed
    else Decoded([a * 4 + b / 16, b % 16 * 16 + c / 4, c % 4 * 64 + d])
  }

  function Decode(t: string): Decoded {
    if t == "" then Decoded([])
    else if |t| < 4 then Malformed
    else
      var g := DecodeGroup(t[..4], |t| == 4);
      if g == Malformed then Malformed
      else
        var rest := Decode(t[4..]);
        if rest == Malformed then Malformed else Decoded(g.bytes + rest.bytes)
  }

  lemma ValueOfSymbol(v: nat)
    requires v < 64
    ensures Value(Symbol(v)) == v && Symbol(v) != '='
  {
    if v < 16 { Quarter0(v); } else if v < 32 { Quarter1(v - 16); }
    else if v < 48 { Quarter2(v - 32); } else { Quarter3(v - 48); }
  }

  lemma Quarter0(k: nat)
    requires k < 16
    ensures LOOKUP_0[k] as int == 65 + k
  {
  }

  lemma Quarter1(k: nat)
    requires k < 16
    ensures LOOKUP_1[k] as int == if k < 10 then 81 + k else 87 + k
  {
  }

  lemma Quarter2(k: nat)
    requires k < 16
    ensures LOOKUP_2[k] as int == 103 + k
  {
  }

  lemma Quarter3(k: nat)
    requires k < 16
    ensures LOOKUP_3[k] as int ==
      if k < 4 then 119 + k else if k < 14 then 44 + k else if k == 14 then 43 else 47
  {
  }

  lemma Rejoin(a: Byte, b: Byte, c: Byte)
    ensures First(a) * 4 + Second(a, b) / 16 == a
    ensures Second(a, b) % 16 * 16 + Third(b, c) / 4 == b
    ensures Third(b, c) % 4 * 64 + Fourth(c) == c
    ensures Second(a, 0) % 16 == 0 && Third(b, 0) % 4 == 0
  {
  }

  lemma GroupDecodes(s: seq<Byte>, last: bool)
    requires 1 <= |s| <= 3 && (|s| < 3 ==> last)
    ensures DecodeGroup(Group(s), last) == Decoded(s)
  {
    hide Symbol, Value, First, Second, Third, Fourth;
    ValueOfSymbol(First(s[0]));
    if |s| == 1 {
      Rejoin(s[0], 0, 0);
      ValueOfSymbol(Second(s[0], 0));
    } else {
      ValueOfSymbol(Second(s[0], s[1]));
      if |s| == 2 {
        Rejoin(s[0], s[1], 0);
        ValueOfSymbol(Third(s[1], 0));
      } else {
        Rejoin(s[0], s[1], s[2]);
        ValueOfSymbol(Third(s[1], s[2]));
        ValueOfSymbol(Fourth(s[2]));
      }
    }
  }

  // Decoding undoes encoding for every input.
  lemma {:induction false} EncodeDecodes(s: seq<Byte>)
    ensures Decode(Encode(s)) == Decoded(s)
    decreases |s|
  {
    hide Group, DecodeGroup;
    if s == [] {
    } else if |s| <= 3 {
      GroupDecodes(s, true);
      assert Group(s)[..4] == Group(s) && Group(s)[4..] == "";
    } else {
      GroupDecodes(s[..3], false);
      EncodeDecodes(s[3..]);
      var t := Encode(s);
      assert t[..4] == Group(s[..3]) && t[4..] == Encode(s[3..]);
      assert s[..3] + s[3..] == s;
    }
  }

  // ------------------------------------------------------------------------------------------
  // The accumulator loop

  // Symbols complete after the one or two bytes of an unfinished group.
  function Partial(s: seq<Byte>): string
    requires |s| <= 2
  {
    if |s| == 0 then ""
    else if |s| == 1 then [Symbol(First(s[0]))]
    else [Symbol(First(s[0])), Symbol(Second(s[0], s[1]))]
  }

  // Symbols complete after all of s.
  function Progress(s: seq<Byte>): string {
    if |s| <= 2 then Partial(s) else Group(s[..3]) + Progress(s[3..])
  }

  // The bytes of the unfinished group.
  function Tail(s: seq<Byte>): (t: seq<Byte>)
    ensures |t| <= 2
  {
    if |s| <= 2 then s else Tail(s[3..])
  }

  // valb with n bytes of a group unfinished.
  function Bits(n: nat): int { if n == 0 then -6 else if n == 1 then -4 else -2 }

  // The low bits of val hold the unfinished group.
  predicate Holds(val: nat, tail: seq<Byte>)
    requires |tail| <= 2
  {
    if |tail| == 0 then true
    else if |tail| == 1 then val % 256 == tail[0]
    else val / 256 % 256 == tail[0] && val % 256 == tail[1]
  }

  // The symbols the next byte completes.
  function Completed(tail: seq<Byte>, c: Byte): string
    requires |tail| <= 2
  {
    if |tail| == 0 then [Symbol(First(c))]
    else if |tail| == 1 then [Symbol(Second(tail[0], c))]
    else [Symbol(Third(tail[1], c)), Symbol(Fourth(c))]
  }

  lemma {:induction false} ProgressOneMore(s: seq<Byte>, c: Byte)
    ensures Tail(s + [c]) == if |Tail(s)| == 2 then [] else Tail(s) + [c]
    ensures Progress(s + [c]) == Progress(s) + Completed(Tail(s), c)
    decreases |s|
  {
    hide Symbol, First, Second, Third, Fourth;
    if |s| <= 2 {
      if |s| == 2 { assert (s + [c])[..3] == s + [c] && (s + [c])[3..] == []; }
    } else {
      hide Group, Completed;
      assert (s + [c])[..3] == s[..3] && (s + [c])[3..] == s[3..] + [c];
      ProgressOneMore(s[3..], c);
    }
  }

  // What is appended after the last byte: the started symbol of an unfinished group, and padding.
  function Finish(tail: seq<Byte>): string
    requires |tail| <= 2
  {
    if |tail| == 0 then ""
    else if |tail| == 1 then [Symbol(Second(tail[0], 0)), '=', '=']
    else [Symbol(Third(tail[1], 0)), '=']
  }

  lemma {:induction false} EncodeIsProgress(s: seq<Byte>)
    ensures Encode(s) == Progress(s) + Finish(Tail(s))
    ensures |Progress(s)| % 4 == |Tail(s)|
    decreases |s|
  {
    hide Symbol, Group, Finish, Partial;
    if |s| <= 2 {
      EncodeShort(s);
    } else {
      EncodeIsProgress(s[3..]);
      if |s| == 3 { EncodeThree(s); }
    }
  }

  lemma EncodeShort(s: seq<Byte>)
    requires |s| <= 2
    ensures Encode(s) == Partial(s) + Finish(s) && |Partial(s)| == |s|
  {
    hide Symbol, First, Second, Third, Fourth;
  }

  lemma EncodeThree(s: seq<Byte>)
    requires |s| == 3
    ensures Encode(s) == Group(s[..3]) + Encode(s[3..])
  {
    assert s[..3] == s && s[3..] == [];
  }

  // The symbols the inner loop emits from valb down to 0.
  function Pending(val: nat, valb: int): string {
    if valb == 6 then [Symbol(val / 64 % 64), Symbol(val % 64)]
    else if valb == 4 then [Symbol(val / 16 % 64)]
    else if valb == 2 then [Symbol(val / 4 % 64)]
    else if valb == 0 then [Symbol(val % 64)]
    else ""
  }

  lemma Shifts()
    ensures Pow2(0) == 1 && Pow2(2) == 4 && Pow2(4) == 16 && Pow2(6) == 64
  {
    assert Pow2(1) == 2 && Pow2(3) == 8 && Pow2(5) == 32;
  }

  // The last two bytes shifted in, whatever val held before and lost at 32 bits.
  lemma ShiftedIn(val0: nat, c: Byte) returns (q: nat)
    ensures (val0 * 256 + c) % UINT32 == 65536 * q + 256 * (val0 % 256) + c
  {
    var h := val0 / 0x100_0000;
    q := val0 % 0x100_0000 / 256;
    assert val0 == 0x100_0000 * h + 256 * q + val0 % 256;
    assert val0 * 256 + c == UINT32 * h + (65536 * q + 256 * (val0 % 256) + c);
    Remainder(h, 65536 * q + 256 * (val0 % 256) + c);
  }

  lemma Remainder(h: nat, r: nat)
    requires r < UINT32
    ensures (UINT32 * h + r) % UINT32 == r
  {
  }

  // A field of six bits: val is n whole blocks of 64 * d, then v units of d, then a rest.
  lemma Field(val: int, d: int, n: int, v: int, rest: int)
    requires d in {1, 4, 16, 64} && 0 <= v < 64 && 0 <= rest < d
    requires val == 64 * d * n + d * v + rest
    ensures val / d % 64 == v
  {
    assert val / d == 64 * n + v by {
      if d == 1 {} else if d == 4 {} else if d == 16 {} else {}
    }
  }

  lemma LowBits(q: nat, b: int, c: int)
    requires 0 <= b < 256 && 0 <= c < 256
    ensures var val := 65536 * q + 256 * b + c;
      val % 256 == c && val / 256 % 256 == b && val % 64 == c % 64 && val / 4 % 64 == c / 4
      && val / 16 % 64 == b % 4 * 16 + c / 16 && val / 64 % 64 == b % 16 * 4 + c / 64
  {
    var val := 65536 * q + 256 * b + c;
    LowBytes(q, b, c);
    Field(val, 1, 1024 * q + 4 * b + c / 64, c % 64, 0);
    Field(val, 4, 256 * q + b, c / 4, c % 4);
    Field(val, 16, 64 * q + b / 4, b % 4 * 16 + c / 16, c % 16);
    Field(val, 64, 16 * q + b / 16, b % 16 * 4 + c / 64, c % 64);
  }

  lemma LowBytes(q: nat, b: int, c: int)
    requires 0 <= b < 256 && 0 <= c < 256
    ensures (65536 * q + 256 * b + c) % 256 == c && (65536 * q + 256 * b + c) / 256 % 256 == b
  {
    assert (65536 * q + 256 * b + c) / 256 == 256 * q + b;
  }

  // What one more byte makes ready is what the groups of three say, and val again holds the
  // unfinished group.
  lemma PendingIsCompleted(val0: nat, tail: seq<Byte>, c: Byte)
    requires |tail| <= 2 && Holds(val0, tail)
    ensures var val := (val0 * 256 + c) % UINT32;
      Pending(val, Bits(|tail|) + 8) == Completed(tail, c)
      && Holds(val, if |tail| == 2 then [] else tail + [c])
  {
    hide Symbol;
    var q := ShiftedIn(val0, c);
    LowBits(q, val0 % 256, c);
  }

  // The symbol that is started but not complete at the end: its two or four bits, then zeros.
  lemma LastSymbol(val: nat, bits: nat)
    requires bits == val * 256 % UINT32
    ensures bits / 16 % 64 == val % 256 % 4 * 16 && bits / 64 % 64 == val % 256 % 16 * 4
  {
    var q := ShiftedIn(val, 0);
    LowBits(q, val % 256, 0);
  }

  // The last byte of an unfinished group, and the symbol it starts.
  lemma LastHeld(val: nat, tail: seq<Byte>)
    requires 1 <= |tail| <= 2 && Holds(val, tail)
    ensures |tail| == 1 ==> Second(tail[0], 0) == val % 256 % 4 * 16
    ensures |tail| == 2 ==> Third(tail[1], 0) == val % 256 % 16 * 4
  {
  }

  // The inner loop: six bits at a time from valb down.
  method Emit(val: nat, ready: int, out0: string) returns (valb: int, out: string)
    requires ready in {2, 4, 6}
    ensures valb == if ready == 6 then -6 else ready - 6
    ensures out == out0 + Pending(val, ready)
  {
    hide Symbol;
    valb, out := ready, out0;
    while valb >= 0
      invariant valb in {2, 4, 6, 0, -6, -4, -2}
      invariant ready == 6 ==> valb in {6, 0, -6}
      invariant ready < 6 ==> valb in {ready, ready - 6}
      invariant out + Pending(val, valb) == out0 + Pending(val, ready)
      decreases valb + 6
    {
      Shifts();
      out := out + [Symbol(val / Pow2(valb) % 64)];
      valb := valb - 6;
    }
  }

  // The byte loop. valb is -6, -4 or -2 between bytes; val wraps at 32 bits.
  method Accumulate(s: seq<Byte>) returns (val: nat, valb: int, out: string)
    ensures val < UINT32 && valb == Bits(|Tail(s)|) && Holds(val, Tail(s))
    ensures out == Progress(s)
  {
    hide Symbol, Pending, Completed, Holds, Progress, Tail;
    val, valb, out := 0, -6, "";
    Start();
    for i := 0 to |s|
      invariant val < UINT32 && valb == Bits(|Tail(s[..i])|) && Holds(val, Tail(s[..i]))
      invariant out == Progress(s[..i])
    {
      ghost var tail := Tail(s[..i]);
      PendingIsCompleted(val, tail, s[i]);
      ProgressOneMore(s[..i], s[i]);
      assert s[..i + 1] == s[..i] + [s[i]];
      val := (val * 256 + s[i]) % UINT32;
      valb, out := Emit(val, valb + 8, out);
    }
    assert s[..|s|] == s;
  }

  lemma Start()
    ensures Progress([]) == "" && Tail([]) == [] && Holds(0, [])
  {
  }

  method Pad(out0: string) returns (out: string)
    ensures |out| == (|out0| + 3) / 4 * 4 && out[..|out0|] == out0
    ensures forall k :: |out0| <= k < |out| ==> out[k] == '='
  {
    out := out0;
    while |out| % 4 != 0
      invariant |out0| <= |out| <= (|out0| + 3) / 4 * 4
      invariant out[..|out0|] == out0
      invariant forall k :: |out0| <= k < |out| ==> out[k] == '='
      decreases (|out0| + 3) / 4 * 4 - |out|
    {
      out := out + "=";
    }
  }

  lemma Padded(out0: string, out: string)
    requires |out| == (|out0| + 3) / 4 * 4 && out[..|out0|] == out0
    requires forall k :: |out0| <= k < |out| ==> out[k] == '='
    ensures |out0| % 4 == 0 ==> out == out0
    ensures |out0| % 4 == 3 ==> out == out0 + "="
    ensures |out0| % 4 == 2 ==> out == out0 + "=="
  {
    assert out == out[..|out0|] + out[|out0|..];
  }

  // After the byte loop: the started symbol, then padding.
  method FinishOff(val: nat, valb: int, symbols: string, ghost tail: seq<Byte>) returns (out: string)
    requires |tail| <= 2 && valb == Bits(|tail|) && Holds(val, tail) && |symbols| % 4 == |tail|
    ensures out == symbols + Finish(tail)
  {
    hide Symbol, First, Second, Third, Pow2, Holds;
    out := symbols;
    if valb > -6 {
      Shifts();
      LastSymbol(val, val * 256 % UINT32);
      LastHeld(val, tail);
      out := out + [Symbol(val * 256 % UINT32 / Pow2(valb + 8) % 64)];
    }
    ghost var unpadded := out;
    out := Pad(out);
    Padded(unpadded, out);
  }

  method Base64Encode(s: seq<Byte>) returns (out: string)
    ensures out == Encode(s)
    ensures |out| == 4 * ((|s| + 2) / 3)
    ensures Decode(out) == Decoded(s)
  {
    hide Symbol, Encode, Decode, Progress, Tail, Holds, Finish;
    EncodeLength(s);
    GroupsRoundUp(|s|);
    EncodeDecodes(s);
    EncodeIsProgress(s);
    var val, valb, symbols := Accumulate(s);
    out := FinishOff(val, valb, symbols, Tail(s));
  }
}
