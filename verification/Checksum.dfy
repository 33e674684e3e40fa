// The Internet checksum (sections 1 and 2 of RFC 1071) over an ICMP echo packet.  Words are read and
// written in the host's byte order, little says which one that is.

module Checksum {

  type Byte = b: int | 0 <= b < 256
  type Word = w: int | 0 <= w < 0x1_0000

  const ICMP_ECHO: Byte := 8
  const HEADER_SIZE: nat := 8
  const UINT32: nat := 0x1_0000_0000
  // The longest buffer whose word sum is sure to fit 32 bits.
  const LONGEST: nat := 131074

  function WordOf(little: bool, b0: Byte, b1: Byte): Word {
    if little then b0 + 256 * b1 else 256 * b0 + b1
  }

  function LowByte(w: Word): Byte { w % 256 }

  function HighByte(w: Word): Byte { w / 256 }

  // The two bytes of w in memory.
  function Stored(little: bool, w: Word): seq<Byte> {
    if little then [LowByte(w), HighByte(w)] else [HighByte(w), LowByte(w)]
  }

  function Swap(w: Word): Word { LowByte(w) * 256 + HighByte(w) }

  // The words of a buffer; a last odd byte counts as it is.
  function Words(little: bool, s: seq<Byte>): seq<Word> {
    if |s| == 0 then []
    else if |s| == 1 then [s[0]]
    else [WordOf(little, s[0], s[1])] + Words(little, s[2..])
  }

  function Sum(words: seq<Word>): nat {
    if words == [] then 0 else words[0] + Sum(words[1..])
  }

  // Two folds, then truncation to 16 bits.
  function Fold(sum: nat): Word {
    var once := sum / 0x1_0000 + sum % 0x1_0000;
    (once + once / 0x1_0000) % 0x1_0000
  }

  // The value the loop computes: a 32-bit accumulator, folded and complemented.
  function ChecksumOf(little: bool, s: seq<Byte>): Word {
    0xFFFF - Fold(Sum(Words(little, s)) % UINT32)
  }

  // ------------------------------------------------------------------------------------------
  // The reference: one's complement addition, carry brought round at every step

  function OnesAdd(a: Word, b: Word): Word {
    if a + b < 0x1_0000 then a + b else a + b - 0xFFFF
  }

  function OnesSum(words: seq<Word>): Word {
    if words == [] then 0 else OnesAdd(words[0], OnesSum(words[1..]))
  }

  function Multiple(k: int): int { k * 0xFFFF }

  // a represents n in one's complement: congruent modulo 0xFFFF, zero only for zero.
  ghost predicate Represents(a: Word, n: nat) {
    (a == 0 <==> n == 0) && exists k :: n == a + Multiple(k)
  }

  lemma RepresentationIsUnique(a: Word, b: Word, n: nat)
    requires Represents(a, n) && Represents(b, n)
    ensures a == b
  {
    var i, j :| n == a + Multiple(i) && n == b + Multiple(j);
    assert a - b == Multiple(j - i);
  }

  lemma FoldRepresents(n: nat)
    requires n < UINT32
    ensures Represents(Fold(n), n)
  {
    var hi, lo := n / 0x1_0000, n % 0x1_0000;
    var once := hi + lo;
    var c := once / 0x1_0000;
    assert Fold(n) == once - Multiple(c);
    assert n == Fold(n) + Multiple(hi + c);
  }

  lemma {:induction false} OnesSumRepresents(words: seq<Word>)
    ensures Represents(OnesSum(words), Sum(words))
  {
    if words == [] {
      assert 0 == 0 + Multiple(0);
    } else {
      OnesSumRepresents(words[1..]);
      AddRepresents(words[0], OnesSum(words[1..]), Sum(words[1..]));
    }
  }

  lemma AddRepresents(a: Word, b: Word, n: nat)
    requires Represents(b, n)
    ensures Represents(OnesAdd(a, b), a + n)
  {
    var k :| n == b + Multiple(k);
    assert a + n == (a + b) + Multiple(k);
    assert a + n == (a + b - 0xFFFF) + Multiple(k + 1);
  }

  lemma {:induction false} SumBound(little: bool, s: seq<Byte>)
    ensures 2 * Sum(Words(little, s)) <= 0xFFFF * (|s| + |s| % 2)
  {
    if |s| >= 2 { SumBound(little, s[2..]); }
  }

  lemma NoOverflow(little: bool, s: seq<Byte>)
    requires |s| <= LONGEST
    ensures Sum(Words(little, s)) < UINT32
  {
    SumBound(little, s);
  }

  // The deferred carries change nothing: on every buffer up to LONGEST bytes the accumulator does not
  // overflow and the result is the complement of the one's complement sum.
  lemma ChecksumIsOnesComplement(little: bool, s: seq<Byte>)
    requires |s| <= LONGEST
    ensures Sum(Words(little, s)) < UINT32
    ensures ChecksumOf(little, s) == 0xFFFF - OnesSum(Words(little, s))
    ensures Represents(0xFFFF - ChecksumOf(little, s), Sum(Words(little, s)))
  {
    hide Represents, Fold, Words, Sum, OnesSum;
    var n := Sum(Words(little, s));
    NoOverflow(little, s);
    FoldRepresents(n);
    OnesSumRepresents(Words(little, s));
    RepresentationIsUnique(Fold(n), OnesSum(Words(little, s)), n);
  }

  // LONGEST cannot be raised: two more bytes of ones and the accumulator wraps.
  lemma {:induction false} OnesSumOfOnes(little: bool, k: nat)
    ensures Sum(Words(little, seq(2 * k, _ => 255))) == 0xFFFF * k
  {
    if k > 0 {
      var s: seq<Byte> := seq(2 * k, _ => 255);
      assert s[2..] == seq(2 * (k - 1), _ => 255);
      OnesSumOfOnes(little, k - 1);
    }
  }

  lemma LongestIsSharp(little: bool)
    ensures Sum(Words(little, seq(LONGEST + 2, _ => 255))) >= UINT32
  {
    OnesSumOfOnes(little, 65538);
  }

  // ------------------------------------------------------------------------------------------
  // Byte order

  function SwapPairs(s: seq<Byte>): seq<Byte>
    requires |s| % 2 == 0
  {
    if s == [] then [] else [s[1], s[0]] + SwapPairs(s[2..])
  }

  lemma {:induction false} SwappedSum(little: bool, s: seq<Byte>) returns (k: nat)
    requires |s| % 2 == 0
    ensures |SwapPairs(s)| == |s|
    ensures 256 * Sum(Words(little, s)) == Sum(Words(little, SwapPairs(s))) + Multiple(k)
    ensures Sum(Words(little, SwapPairs(s))) == 0 <==> Sum(Words(little, s)) == 0
  {
    if s == [] {
      k := 0;
    } else {
      k := SwappedSum(little, s[2..]);
      assert SwapPairs(s)[2..] == SwapPairs(s[2..]);
      k := k + if little then s[1] else s[0];
    }
  }

  // Swapping the bytes of every word swaps the bytes of the checksum, so the bytes that end up in
  // the packet do not depend on the host's byte order.
  lemma SwappedChecksum(little: bool, s: seq<Byte>)
    requires |s| % 2 == 0 && |s| <= LONGEST
    ensures |SwapPairs(s)| == |s|
    ensures ChecksumOf(little, SwapPairs(s)) == Swap(ChecksumOf(little, s))
  {
    hide ChecksumOf, Words, Sum, Represents, SwapPairs;
    var k := SwappedSum(little, s);
    ChecksumIsOnesComplement(little, s);
    ChecksumIsOnesComplement(little, SwapPairs(s));
    var c, n, n' := ChecksumOf(little, s), Sum(Words(little, s)), Sum(Words(little, SwapPairs(s)));
    SwapRepresents(0xFFFF - c, n, n', k);
    RepresentationIsUnique(Swap(0xFFFF - c), 0xFFFF - ChecksumOf(little, SwapPairs(s)), n');
    SwapComplement(c);
  }

  lemma SwapComplement(c: Word)
    ensures Swap(0xFFFF - c) == 0xFFFF - Swap(c)
  {
    var hi, lo := c / 256, c % 256;
    assert 0xFFFF - c == 256 * (255 - hi) + (255 - lo);
  }

  lemma SwapRepresents(f: Word, n: nat, n': nat, k: nat)
    requires Represents(f, n) && 256 * n == n' + Multiple(k) && (n' == 0 <==> n == 0)
    ensures Represents(Swap(f), n')
  {
    var j :| n == f + Multiple(j);
    assert f == 256 * HighByte(f) + LowByte(f);
    assert 256 * f == Swap(f) + Multiple(HighByte(f));
    assert n' == Swap(f) + Multiple(HighByte(f) + 256 * j - k);
  }

  lemma {:induction false} OtherOrderSwaps(little: bool, s: seq<Byte>)
    requires |s| % 2 == 0
    ensures |SwapPairs(s)| == |s| && Words(!little, s) == Words(little, SwapPairs(s))
  {
    if s != [] {
      assert SwapPairs(s)[2..] == SwapPairs(s[2..]);
      OtherOrderSwaps(little, s[2..]);
    }
  }

  lemma WireBytesIgnoreByteOrder(s: seq<Byte>)
    requires |s| % 2 == 0 && |s| <= LONGEST
    ensures Stored(true, ChecksumOf(true, s)) == Stored(false, ChecksumOf(false, s))
  {
    hide Fold, Sum, Words, SwapPairs;
    SwappedChecksum(true, s);
    OtherOrderSwaps(true, s);
  }

  // ------------------------------------------------------------------------------------------
  // The last odd byte

  lemma {:induction false} PaddedSum(little: bool, s: seq<Byte>)
    requires |s| % 2 == 1
    ensures Sum(Words(little, s + [0])) == Sum(Words(little, s)) + if little then 0 else 255 * s[|s| - 1] as int
  {
    if |s| == 1 {
      assert (s + [0])[2..] == [];
    } else {
      assert (s + [0])[2..] == s[2..] + [0];
      PaddedSum(little, s[2..]);
    }
  }

  // A buffer of odd length is to be padded with a zero byte (section 2 of RFC 1071).  The code adds the
  // last byte as it is, which comes to the same exactly on a little-endian host, or when that byte is zero.
  lemma OddByteIsPadded(little: bool, s: seq<Byte>)
    requires |s| % 2 == 1 && |s| < LONGEST
    ensures ChecksumOf(little, s) == ChecksumOf(little, s + [0]) <==> little || s[|s| - 1] == 0
  {
    hide ChecksumOf, Words, Sum, Represents;
    PaddedSum(little, s);
    ChecksumIsOnesComplement(little, s);
    ChecksumIsOnesComplement(little, s + [0]);
    var f, g := 0xFFFF - ChecksumOf(little, s), 0xFFFF - ChecksumOf(little, s + [0]);
    var n, b := Sum(Words(little, s)), s[|s| - 1];
    if little || b == 0 {
      RepresentationIsUnique(f, g, n);
    } else {
      OddByteCounts(f, g, n, b);
    }
  }

  lemma OddByteCounts(f: Word, g: Word, n: nat, b: Byte)
    requires Represents(f, n) && Represents(g, n + 255 * b) && b > 0
    ensures f != g
  {
    var i, j :| n == f + Multiple(i) && n + 255 * b == g + Multiple(j);
    assert g - f == 255 * b + Multiple(i - j);
  }

  // ------------------------------------------------------------------------------------------
  // Packets

  function WithChecksum(little: bool, s: seq<Byte>, c: Word): (r: seq<Byte>)
    requires |s| >= HEADER_SIZE
    ensures |r| == |s|
  {
    s[2 := Stored(little, c)[0]][3 := Stored(little, c)[1]]
  }

  function ChecksumField(little: bool, s: seq<Byte>): Word
    requires |s| >= HEADER_SIZE
  {
    WordOf(little, s[2], s[3])
  }

  // What operator bool decides: the field equals the checksum of the packet with a zero field.
  predicate Verifies(little: bool, s: seq<Byte>)
    requires |s| >= HEADER_SIZE
  {
    ChecksumField(little, s) == ChecksumOf(little, WithChecksum(little, s, 0))
  }

  // The generator behind the payload: i <= 'z' ? i++ : i = 'a'.
  function PayloadByte(k: nat): Byte {
    if k % 27 < 26 then 97 + k % 27 else 97
  }

  // An echo request before its checksum is filled in; id and sequence number in network order.
  function Unsummed(id: Word, sequence: Word, size: nat): (s: seq<Byte>)
    requires size > HEADER_SIZE
    ensures |s| == size
  {
    [ICMP_ECHO, 0, 0, 0, HighByte(id), LowByte(id), HighByte(sequence), LowByte(sequence)] +
    seq(size - HEADER_SIZE, k requires k >= 0 => PayloadByte(k))
  }

  function EchoRequest(little: bool, id: Word, sequence: Word, size: nat): (s: seq<Byte>)
    requires size > HEADER_SIZE
    ensures |s| == size
  {
    var s := Unsummed(id, sequence, size);
    WithChecksum(little, s, ChecksumOf(little, s))
  }

  class PingPacket {
    const little: bool
    const data: array<Byte>

    constructor (little: bool, id: Word, sequence: Word, size: nat)
      requires size > HEADER_SIZE
      ensures this.little == little && fresh(data) && data[..] == EchoRequest(little, id, sequence, size)
      ensures Verifies(little, data[..])
    {
      this.little := little;
      data := new Byte[size](_ => 0);
      new;
      CreateNewPacket(id, sequence);
      EchoRequestVerifies(little, id, sequence, size);
    }

    method Checksum() returns (result: Word)
      ensures result == ChecksumOf(little, data[..])
    {
      hide Fold;
      ghost var total := Sum(Words(little, data[..]));
      var at, len := 0, data.Length;
      var sum: nat := 0;
      ghost var wraps: nat := 0;
      assert data[0..] == data[..];
      while len > 1
        invariant 0 <= at && 0 <= len && at + len == data.Length && sum < UINT32
        invariant sum + wraps * UINT32 + Sum(Words(little, data[at..])) == total
      {
        assert data[at..][2..] == data[at + 2..];
        var next := sum + WordOf(little, data[at], data[at + 1]);
        wraps := wraps + next / UINT32;
        sum := next % UINT32;
        at, len := at + 2, len - 2;
      }
      if 1 == len {
        assert Words(little, data[at..]) == [data[at]];
        var next := sum + data[at];
        wraps := wraps + next / UINT32;
        sum := next % UINT32;
      }
      assert sum + wraps * UINT32 == total;
      assert total % UINT32 == sum;
      result := Finish(sum);
    }

    static method Finish(sum0: nat) returns (result: Word)
      requires sum0 < UINT32
      ensures result == 0xFFFF - Fold(sum0)
    {
      var sum := sum0 / 0x1_0000 + sum0 % 0x1_0000;
      sum := sum + sum / 0x1_0000;
      result := 0xFFFF - sum % 0x1_0000;
    }

    method StoreChecksum(c: Word)
      requires data.Length >= HEADER_SIZE
      modifies data
      ensures data[..] == WithChecksum(little, old(data[..]), c)
    {
      data[2] := Stored(little, c)[0];
      data[3] := Stored(little, c)[1];
    }

    // std::generate over everything behind the header.
    method FillPayload()
      requires data.Length > HEADER_SIZE
      modifies data
      ensures data[..HEADER_SIZE] == old(data[..HEADER_SIZE])
      ensures forall j | HEADER_SIZE <= j < data.Length :: data[j] == PayloadByte(j - HEADER_SIZE)
    {
      ghost var header := data[..HEADER_SIZE];
      var i: Byte := 97;
      for k := HEADER_SIZE to data.Length
        invariant data[..HEADER_SIZE] == header
        invariant forall j | HEADER_SIZE <= j < k :: data[j] == PayloadByte(j - HEADER_SIZE)
        invariant i as int == 97 + (k - HEADER_SIZE) % 27
      {
        if i <= 122 {
          data[k] := i;
          i := i + 1;
        } else {
          i := 97;
          data[k] := i;
        }
      }
    }

    method CreateNewPacket(id: Word, sequence: Word)
      requires data.Length > HEADER_SIZE
      modifies data
      ensures data[..] == EchoRequest(little, id, sequence, data.Length)
    {
      data[0], data[1] := ICMP_ECHO, 0;
      StoreChecksum(0);
      data[4], data[5] := HighByte(id), LowByte(id);
      data[6], data[7] := HighByte(sequence), LowByte(sequence);
      FillPayload();
      assert data[..] == Unsummed(id, sequence, data.Length);
      var c := Checksum();
      StoreChecksum(c);
    }

    // operator bool: the field is zeroed for the computation and put back.
    method IsValid() returns (ok: bool)
      requires data.Length >= HEADER_SIZE
      modifies data
      ensures data[..] == old(data[..])
      ensures ok == Verifies(little, data[..])
    {
      ghost var before := data[..];
      var oldChecksum := WordOf(little, data[2], data[3]);
      StoreChecksum(0);
      var result := Checksum();
      StoreChecksum(oldChecksum);
      RestoresField(little, before);
      return oldChecksum == result;
    }
  }

  lemma StoredReads(little: bool, w: Word)
    ensures WordOf(little, Stored(little, w)[0], Stored(little, w)[1]) == w
  {
  }

  lemma RestoresField(little: bool, s: seq<Byte>)
    requires |s| >= HEADER_SIZE
    ensures WithChecksum(little, WithChecksum(little, s, 0), ChecksumField(little, s)) == s
  {
    var c := ChecksumField(little, s);
    assert Stored(little, c) == [s[2], s[3]];
  }

  // A packet from create_new_packet passes operator bool, whatever the checksum function is.
  lemma EchoRequestVerifies(little: bool, id: Word, sequence: Word, size: nat)
    requires size > HEADER_SIZE
    ensures Verifies(little, EchoRequest(little, id, sequence, size))
  {
    var s := Unsummed(id, sequence, size);
    var c := ChecksumOf(little, s);
    StoredReads(little, c);
    assert WithChecksum(little, WithChecksum(little, s, c), 0) == s;
  }

  const PATTERN: string := "abcdefghijklmnopqrstuvwxyza"

  // What a receiver reads: an echo request, its identifier and sequence number in network order (echo messages of
  // RFC 792), the letters over and over with the first one twice, and the checksum of the
  // packet whose checksum field is zero.
  lemma EchoRequestReads(little: bool, id: Word, sequence: Word, size: nat)
    requires size > HEADER_SIZE
    ensures var s := EchoRequest(little, id, sequence, size);
      && s[0] == 8 && s[1] == 0 && 256 * s[4] as int + s[5] == id && 256 * s[6] as int + s[7] == sequence
      && (forall k | 0 <= k < size - 8 :: s[8 + k] == PATTERN[k % 27] as int)
      && ChecksumField(little, s) == ChecksumOf(little, s[..2] + [0, 0] + s[4..])
  {
    hide ChecksumOf;
    var s, z := EchoRequest(little, id, sequence, size), Unsummed(id, sequence, size);
    StoredReads(little, ChecksumOf(little, z));
    assert s[..2] + [0, 0] + s[4..] == z;
    forall k | 0 <= k < size - 8 ensures s[8 + k] == PATTERN[k % 27] as int {
      PatternLetter(k % 27);
    }
  }

  lemma PatternLetter(i: nat)
    requires i < 27
    ensures PATTERN[i] as int == if i < 26 then 97 + i else 97
  {
  }

  // ------------------------------------------------------------------------------------------
  // operator bool against the receiver's check of RFC 1071 (sum everything, expect all ones)

  lemma SumSplitsField(little: bool, s: seq<Byte>)
    requires |s| >= HEADER_SIZE
    ensures Sum(Words(little, s)) ==
            Sum(Words(little, WithChecksum(little, s, 0))) + ChecksumField(little, s)
  {
  }

  // The two checks agree, except that operator bool rejects a stored 0xFFFF where it computes 0,
  // the other representation of the same value.
  lemma StricterThanReceiverCheck(little: bool, s: seq<Byte>)
    requires HEADER_SIZE <= |s| <= LONGEST
    ensures var stored, computed := ChecksumField(little, s), ChecksumOf(little, WithChecksum(little, s, 0));
      ChecksumOf(little, s) == 0 <==> Verifies(little, s) || (stored == 0xFFFF && computed == 0)
  {
    var z := WithChecksum(little, s, 0);
    var stored := ChecksumField(little, s);
    SumSplitsField(little, s);
    ChecksumIsOnesComplement(little, s);
    ChecksumIsOnesComplement(little, z);
    NegativeZero(Sum(Words(little, z)), 0xFFFF - ChecksumOf(little, z), stored, 0xFFFF - ChecksumOf(little, s));
  }

  // Such a packet: operator bool rejects it, a receiver accepts it.
  lemma NegativeZeroIsRejected(little: bool)
    ensures var s := [255, 255, 255, 255, 0, 0, 0, 0];
      !Verifies(little, s) && ChecksumOf(little, s) == 0
  {
    hide Words, Sum, Fold;
    var s := [255, 255, 255, 255, 0, 0, 0, 0];
    var z := [255, 255, 0, 0, 0, 0, 0, 0];
    assert WithChecksum(little, s, 0) == z;
    EightBytes(little, s);
    EightBytes(little, z);
    OnesFold();
  }

  lemma OnesFold()
    ensures Fold(0xFFFF) == 0xFFFF && Fold(0x1_FFFE) == 0xFFFF
  {
  }

  lemma EightBytes(little: bool, s: seq<Byte>)
    requires |s| == 8
    ensures Sum(Words(little, s)) == WordOf(little, s[0], s[1]) + WordOf(little, s[2], s[3])
                                   + WordOf(little, s[4], s[5]) + WordOf(little, s[6], s[7])
  {
    hide WordOf, Words, Sum;
    FirstWord(little, s);
    FirstWord(little, s[2..]);
    FirstWord(little, s[2..][2..]);
    FirstWord(little, s[2..][2..][2..]);
    assert s[2..][2..][2..][2..] == [];
    NoWords(little);
  }

  lemma FirstWord(little: bool, s: seq<Byte>)
    requires |s| >= 2
    ensures Sum(Words(little, s)) == WordOf(little, s[0], s[1]) + Sum(Words(little, s[2..]))
  {
  }

  lemma NoWords(little: bool)
    ensures Sum(Words(little, [])) == 0
  {
  }

  // What the packet is for: every receiver that follows RFC 1071 accepts it.
  lemma EchoRequestIsAccepted(little: bool, id: Word, sequence: Word, size: nat)
    requires HEADER_SIZE < size <= LONGEST
    ensures ChecksumOf(little, EchoRequest(little, id, sequence, size)) == 0
  {
    hide ChecksumOf;
    EchoRequestVerifies(little, id, sequence, size);
    StricterThanReceiverCheck(little, EchoRequest(little, id, sequence, size));
  }

  lemma NegativeZero(n: nat, f: Word, c: Word, g: Word)
    requires Represents(f, n) && Represents(g, n + c)
    ensures g == 0xFFFF <==> c == 0xFFFF - f || (c == 0xFFFF && f == 0xFFFF)
  {
    var i, j :| n == f + Multiple(i) && n + c == g + Multiple(j);
    assert f + c == g + Multiple(j - i);
  }
}
