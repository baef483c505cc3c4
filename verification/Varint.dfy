/** Base 128 varints: the encoder, its exact size, and the shift-by-7 decode loop
    that the generated 08-wasm codecs inline before every tag, length and integer.
    Shifts and masks of unsigned words are written as division, remainder and product. */
module Varint {
  const TWO31: int := 0x8000_0000
  const TWO32: int := 0x1_0000_0000
  const TWO63: int := 0x8000_0000_0000_0000
  const TWO64: int := 0x1_0000_0000_0000_0000

  type byte = b: int | 0 <= b < 256
  type uint64 = v: int | 0 <= v < TWO64

  datatype Error =
    | NoError | IntOverflow | UnexpectedEOF | InvalidLength | UnexpectedEndOfGroup
    | IllegalWireType | EndGroupTag | IllegalTag | WrongWireType | NestedFailed

  /** Go's conversion of a 64-bit pattern to a signed int, also for sums that wrap. */
  function ToInt64(x: int): (r: int)
    ensures -TWO63 <= r < TWO63
    ensures 0 <= x < TWO63 ==> r == x
    ensures TWO63 <= x < TWO64 ==> r == x - TWO64
  {
    var u := x % TWO64;
    if u >= TWO63 then u - TWO64 else u
  }

  /** The reference encoding: 7-bit groups, least significant first. */
  function Encode(v: nat): (bs: seq<byte>)
  {
    if v < 128 then [v] else [v % 128 + 128] + Encode(v / 128)
  }

  /** What a run of groups denotes, before truncation to 64 bits. */
  function Number(bs: seq<byte>): nat
  {
    if bs == [] then 0 else bs[0] % 128 + 128 * Number(bs[1..])
  }

  /** Weight of group k, that is 2 to the power 7k. */
  function Weight(k: nat): (w: nat)
    ensures w > 0
  {
    if k == 0 then 1 else 128 * Weight(k - 1)
  }

  /** A complete varint as the decoder accepts it, canonical or padded. */
  predicate IsVarint(bs: seq<byte>)
  {
    1 <= |bs| <= 10 && bs[|bs| - 1] < 128 && forall k :: 0 <= k < |bs| - 1 ==> bs[k] >= 128
  }

  /** The 64-bit word that a complete varint is decoded to. */
  function Word(bs: seq<byte>): uint64
  {
    Number(bs) % TWO64
  }

  // ---------------------------------------------------------------- size

  /** math/bits.Len64 */
  function Len64(x: nat): nat
  {
    if x == 0 then 0 else 1 + Len64(x / 2)
  }

  /** sovTx and sovWasm */
  function Sov(x: nat): nat
  {
    (Len64(if x % 2 == 0 then x + 1 else x) + 6) / 7
  }

  lemma Len64Shift7(x: nat)
    requires x >= 128
    ensures Len64(x) == 7 + Len64(x / 128)
  {
    var a, b, c := x / 2, x / 4, x / 8;
    assert a / 2 == b && b / 2 == c;
    var e, f, g := x / 16, x / 32, x / 64;
    assert c / 2 == e && e / 2 == f && f / 2 == g && g / 2 == x / 128;
    assert Len64(x) == 1 + Len64(a) == 2 + Len64(b) == 3 + Len64(c);
    assert Len64(c) == 1 + Len64(e) == 2 + Len64(f) == 3 + Len64(g);
  }

  /** The closed form of the size is the number of groups the loop writes. */
  lemma {:induction false} SovIsEncodedLength(v: nat)
    ensures |Encode(v)| == Sov(v)
  {
    var odd := if v % 2 == 0 then v + 1 else v;
    if v < 128 {
      assert 1 <= Len64(odd) <= 7 by { Len64Small(odd); }
    } else {
      SovIsEncodedLength(v / 128);
      var w := v / 128;
      var oddW := if w % 2 == 0 then w + 1 else w;
      Len64Shift7(odd);
      assert odd / 128 == w;
      assert Len64(oddW) == Len64(w) by { assert oddW / 2 == w / 2; }
    }
  }

  lemma Len64Small(x: nat)
    requires 1 <= x < 128
    ensures 1 <= Len64(x) <= 7
  {
    if x >= 2 { Len64Below(x, 7); }
  }

  lemma {:induction false} Len64Below(x: nat, n: nat)
    requires x < Pow2(n)
    ensures Len64(x) <= n
  {
    if x == 0 {
    } else {
      Len64Below(x / 2, n - 1);
    }
  }

  function Pow2(n: nat): nat { if n == 0 then 1 else 2 * Pow2(n - 1) }

  // ---------------------------------------------------------------- value

  lemma {:induction false} ValueOfEncode(v: nat)
    ensures Number(Encode(v)) == v
  {
    if v < 128 {
    } else {
      ValueOfEncode(v / 128);
      assert Encode(v)[1..] == Encode(v / 128);
    }
  }

  lemma {:induction false} EncodeTerminated(v: nat)
    ensures |Encode(v)| >= 1 && Encode(v)[|Encode(v)| - 1] < 128
    ensures forall k :: 0 <= k < |Encode(v)| - 1 ==> Encode(v)[k] >= 128
  {
    if v < 128 {
    } else {
      EncodeTerminated(v / 128);
    }
  }

  lemma {:induction false} EncodedLengthBound(v: nat, k: nat)
    requires v < Weight(k) && k >= 1
    ensures |Encode(v)| <= k
  {
    if v < 128 {
    } else {
      EncodedLengthBound(v / 128, k - 1);
    }
  }

  lemma Weights()
    ensures Weight(9) == TWO63 && Weight(10) == 128 * TWO63 && Weight(1) == 128
  {
    assert Weight(1) == 128 && Weight(2) == 128 * 128;
    assert Weight(3) == 0x20_0000;
    assert Weight(4) == 0x1000_0000;
    assert Weight(5) == 0x8_0000_0000;
    assert Weight(6) == 0x400_0000_0000;
    assert Weight(7) == 0x2_0000_0000_0000;
    assert Weight(8) == 0x100_0000_0000_0000;
  }

  /** Every 64-bit word is written as a complete varint that denotes it. */
  lemma EncodeIsVarint(v: uint64)
    ensures IsVarint(Encode(v)) && Word(Encode(v)) == v
  {
    Weights();
    EncodedLengthBound(v, 10);
    EncodeTerminated(v);
    ValueOfEncode(v);
  }

  /** No varint that denotes v, padded or not, is shorter than the one the encoder writes. */
  lemma {:induction false} EncodeIsShortest(bs: seq<byte>)
    requires bs != []
    ensures |Encode(Number(bs))| <= |bs|
  {
    ValueBound(bs);
    EncodedLengthBound(Number(bs), |bs|);
  }

  lemma {:induction false} ValueBound(bs: seq<byte>)
    ensures Number(bs) < Weight(|bs|)
  {
    if bs == [] {
    } else {
      ValueBound(bs[1..]);
    }
  }

  lemma {:induction false} ValueSnoc(bs: seq<byte>, b: byte)
    ensures Number(bs + [b]) == Number(bs) + b % 128 * Weight(|bs|)
  {
    if bs == [] {
      assert ([b])[1..] == [];
    } else {
      assert (bs + [b])[1..] == bs[1..] + [b];
      ValueSnoc(bs[1..], b);
      var w := Weight(|bs| - 1);
      assert 128 * (b % 128 * w) == b % 128 * (128 * w);
    }
  }

  // ---------------------------------------------------------------- decoding

  /** A group moved to its place in a 64-bit word, losing the bits beyond it. */
  function Shifted(group: nat, weight: nat): uint64
  {
    group * weight % TWO64
  }

  /** Bytes the decode loop reads from i on when it may still read `budget` of them. */
  function Reads(d: seq<byte>, i: nat, budget: nat): (n: nat)
    requires i <= |d|
    ensures n <= budget && i + n <= |d|
    decreases budget
  {
    if budget == 0 || i == |d| then 0
    else if d[i] < 128 then 1
    else 1 + Reads(d, i + 1, budget - 1)
  }

  /** State in which a decode loop leaves off: the word gathered, the next index, the error. */
  datatype Scan = Scan(value: uint64, next: nat, err: Error)

  function ScanOf(bs: seq<byte>, next: nat): Scan
  {
    Scan(Word(bs), next,
         if bs != [] && bs[|bs| - 1] < 128 then NoError else if |bs| == 10 then IntOverflow else UnexpectedEOF)
  }

  function Decode(d: seq<byte>, i: nat): (s: Scan)
    requires i <= |d|
    ensures i <= s.next <= |d| && (s.err == NoError ==> i < s.next)
  {
    var next := i + Reads(d, i, 10);
    ScanOf(d[i..next], next)
  }

  lemma {:induction false} ReadsVarint(d: seq<byte>, i: nat, bs: seq<byte>, budget: nat)
    requires 1 <= |bs| <= budget && i + |bs| <= |d| && d[i..i + |bs|] == bs
    requires bs[|bs| - 1] < 128 && forall k :: 0 <= k < |bs| - 1 ==> bs[k] >= 128
    ensures Reads(d, i, budget) == |bs|
    decreases budget
  {
    assert d[i] == bs[0];
    if |bs| == 1 {
    } else {
      assert d[i + 1..i + |bs|] == bs[1..];
      ReadsVarint(d, i + 1, bs[1..], budget - 1);
    }
  }

  /** A complete varint is decoded to its word, whatever follows it. */
  lemma DecodesVarint(d: seq<byte>, i: nat, bs: seq<byte>)
    requires IsVarint(bs) && i + |bs| <= |d| && d[i..i + |bs|] == bs
    ensures Decode(d, i) == Scan(Word(bs), i + |bs|, NoError)
  {
    ReadsVarint(d, i, bs, 10);
  }

  lemma {:induction false} ReadsShape(d: seq<byte>, i: nat, budget: nat)
    requires i <= |d|
    ensures forall k :: i <= k < i + Reads(d, i, budget) - 1 ==> d[k] >= 128
    decreases budget
  {
    if budget > 0 && i < |d| && d[i] >= 128 { ReadsShape(d, i + 1, budget - 1); }
  }

  /** Whatever the decoder accepts is a complete varint. */
  lemma DecodedIsVarint(d: seq<byte>, i: nat)
    requires i <= |d| && Decode(d, i).err == NoError
    ensures var s := Decode(d, i); IsVarint(d[i..s.next]) && s.value == Word(d[i..s.next])
  {
    ReadsShape(d, i, 10);
  }

  /** How a decode loop ends, by the bytes alone: well when one of the next ten is below 0x80; with
      an overflow when ten of them are not; and else at the end of the input. */
  lemma DecodeEnds(d: seq<byte>, i: nat)
    requires i <= |d|
    ensures Decode(d, i).err == NoError <==> exists k :: i <= k < |d| && k < i + 10 && d[k] < 128
    ensures Decode(d, i).err == IntOverflow <==>
            i + 10 <= |d| && forall k :: i <= k < i + 10 ==> d[k] >= 128
    ensures Decode(d, i).err == UnexpectedEOF <==>
            |d| < i + 10 && forall k :: i <= k < |d| ==> d[k] >= 128
    ensures Decode(d, i).err in {NoError, IntOverflow, UnexpectedEOF}
  {
    ReadsEnds(d, i, 10);
    ReadsShape(d, i, 10);
    hide Reads;
    var n := Reads(d, i, 10);
    assert n > 0 ==> d[i..i + n][n - 1] == d[i + n - 1];
  }

  lemma {:induction false} ReadsEnds(d: seq<byte>, i: nat, budget: nat)
    requires i <= |d|
    ensures var n := Reads(d, i, budget); n == budget || i + n == |d| || (n > 0 && d[i + n - 1] < 128)
    decreases budget
  {
    if budget == 0 || i == |d| || d[i] < 128 {
    } else {
      ReadsEnds(d, i + 1, budget - 1);
    }
  }

  /** Encoding then decoding gives the word back and consumes exactly Sov(v) bytes. */
  lemma RoundTrip(v: uint64, prefix: seq<byte>, suffix: seq<byte>)
    ensures Decode(prefix + Encode(v) + suffix, |prefix|) == Scan(v, |prefix| + Sov(v), NoError)
  {
    var d := prefix + Encode(v) + suffix;
    EncodeIsVarint(v);
    SovIsEncodedLength(v);
    assert d[|prefix|..|prefix| + |Encode(v)|] == Encode(v);
    DecodesVarint(d, |prefix|, Encode(v));
  }

  // ---------------------------------------------------------------- loops

  /** uint8(v&0x7f | 0x80) */
  function Continued(v: nat): byte
  {
    v % 128 + 128
  }

  /** v >> 7 */
  function Shift7(v: nat): (r: nat)
    ensures v >= 128 ==> r < v
  {
    v / 128
  }

  /** A buffer after src has been written at index i, all other bytes as before. */
  function Patched(buf: seq<byte>, i: nat, src: seq<byte>): (r: seq<byte>)
    requires i + |src| <= |buf|
    ensures |r| == |buf|
  {
    buf[..i] + src + buf[i + |src|..]
  }

  lemma PatchNothing(buf: seq<byte>, i: nat)
    requires i <= |buf|
    ensures Patched(buf, i, []) == buf
  {
    assert buf[..i] + buf[i..] == buf;
  }

  /** encodeVarintTx and encodeVarintWasm: fills the bytes that end at offset, in place. */
  method EncodeVarint(dAtA: array<byte>, offset: nat, v: uint64) returns (base: nat)
    requires Sov(v) <= offset <= dAtA.Length
    modifies dAtA
    ensures base == offset - Sov(v) == offset - |Encode(v)|
    ensures dAtA[..] == Patched(old(dAtA[..]), base, Encode(v))
  {
    hide Sov, Encode, Continued, Shift7, Patched;
    SovIsEncodedLength(v);
    base := offset - Sov(v);
    var at, rest := base, v;
    ghost var buf, done := dAtA[..], [];
    PatchNothing(buf, base);
    while rest >= 128
      invariant 0 <= rest <= v && done + Encode(rest) == Encode(v)
      invariant at == base + |done| && at + |Encode(rest)| == offset
      invariant dAtA[..] == Patched(buf, base, done)
    {
      EncodeGroup(rest);
      JoinGroup(done, Continued(rest), Encode(Shift7(rest)));
      SetByte(dAtA, at, Continued(rest), buf, base, done);
      done, rest, at := done + [Continued(rest)], Shift7(rest), at + 1;
    }
    EncodeGroup(rest);
    SetByte(dAtA, at, rest, buf, base, done);
  }

  /** The next byte behind those written. */
  method SetByte(dAtA: array<byte>, at: nat, b: byte, ghost buf: seq<byte>, ghost base: nat, ghost done: seq<byte>)
    requires at == base + |done| < dAtA.Length == |buf| && dAtA[..] == Patched(buf, base, done)
    modifies dAtA
    ensures dAtA[..] == Patched(buf, base, done + [b])
  {
    dAtA[at] := b;
  }

  lemma JoinGroup(done: seq<byte>, b: byte, rest: seq<byte>)
    ensures done + ([b] + rest) == (done + [b]) + rest
  {
  }

  lemma EncodeGroup(v: nat)
    ensures v < 128 ==> Encode(v) == [v]
    ensures v >= 128 ==> Encode(v) == [Continued(v)] + Encode(Shift7(v))
  {
  }

  /** n continuation bytes have been read from index on. */
  ghost predicate Reading(d: seq<byte>, index: nat, n: nat)
  {
    n <= 10 && index + n <= |d| &&
    Reads(d, index, 10) == n + Reads(d, index + n, 10 - n) &&
    (n > 0 ==> d[index + n - 1] >= 128)
  }

  lemma ReadingStarts(d: seq<byte>, index: nat)
    requires index <= |d|
    ensures Reading(d, index, 0) && Word(d[index..index + 0]) == 0
  {
  }

  lemma ReadingStep(d: seq<byte>, index: nat, n: nat)
    requires Reading(d, index, n) && n < 10 && index + n < |d|
    ensures d[index + n] >= 128 ==> Reading(d, index, n + 1)
    ensures d[index + n] < 128 ==>
              Decode(d, index) == Scan(Word(d[index..index + n + 1]), index + n + 1, NoError)
  {
  }

  lemma ReadingStops(d: seq<byte>, index: nat, n: nat)
    requires Reading(d, index, n) && (n == 10 || index + n == |d|)
    ensures Decode(d, index) == Scan(Word(d[index..index + n]), index + n,
                                     if n == 10 then IntOverflow else UnexpectedEOF)
  {
  }

  /** One step of the loop: the group at index + n joins the word already gathered. */
  method OrGroup(d: seq<byte>, index: nat, n: nat, value: uint64) returns (r: uint64)
    requires index + n < |d| && n <= 9 && value == Word(d[index..index + n])
    ensures r == Word(d[index..index + n + 1])
  {
    AddGroup(d[index..index + n], d[index + n]);
    assert d[index..index + n + 1] == d[index..index + n] + [d[index + n]];
    r := value + Shifted(d[index + n] % 128, Weight(n));
  }

  /** The decode loop: `shift` grows by 7 until a byte below 0x80, the end, or 64. */
  method ReadVarint(dAtA: seq<byte>, index: nat) returns (value: uint64, iNdEx: nat, err: Error)
    requires index <= |dAtA|
    ensures Scan(value, iNdEx, err) == Decode(dAtA, index)
  {
    hide Word, Decode, Reading, Reads;
    value, iNdEx := 0, index;
    var shift, n := 0, 0;
    ReadingStarts(dAtA, index);
    while true
      invariant shift == 7 * n && n <= 10 && iNdEx == index + n <= |dAtA|
      invariant Reading(dAtA, index, n)
      invariant value == Word(dAtA[index..index + n])
      decreases 10 - n
    {
      if shift >= 64 {
        ReadingStops(dAtA, index, n);
        return value, iNdEx, IntOverflow;
      }
      if iNdEx >= |dAtA| {
        ReadingStops(dAtA, index, n);
        return value, iNdEx, UnexpectedEOF;
      }
      var b := dAtA[iNdEx];
      ReadingStep(dAtA, index, n);
      value := OrGroup(dAtA, index, n, value);
      iNdEx := iNdEx + 1;
      if b < 128 { return value, iNdEx, NoError; }
      shift, n := shift + 7, n + 1;
    }
  }

  /** Adding a shifted group keeps the word, also when the tenth group is cut off at bit 64. */
  lemma AddGroup(bs: seq<byte>, b: byte)
    requires |bs| <= 9
    ensures Word(bs + [b]) == Word(bs) + Shifted(b % 128, Weight(|bs|))
  {
    hide Number, Weight, Shifted;
    ValueSnoc(bs, b);
    ValueBound(bs);
    GroupWeight(|bs|);
    GroupSum(Number(bs), b % 128, Weight(|bs|));
  }

  lemma GroupWeight(n: nat)
    requires n <= 9
    ensures 128 * Weight(n) <= TWO63 || Weight(n) == TWO63
  {
    Weights();
    if n < 9 { WeightMonotone(n + 1, 9); }
  }

  lemma GroupSum(v: nat, g: nat, w: nat)
    requires v < w && g < 128 && (128 * w <= TWO63 || w == TWO63)
    ensures (v + g * w) % TWO64 == v % TWO64 + Shifted(g, w)
  {
    if w == TWO63 {
      TenthGroup(v, g);
    } else {
      assert g * w <= 127 * w;
      SmallSum(v, g * w);
    }
  }

  lemma TenthGroup(v: nat, g: nat)
    requires v < TWO63
    ensures (v + g * TWO63) % TWO64 == v % TWO64 + g * TWO63 % TWO64
  {
    var q, r := g / 2, g % 2;
    assert g * 0x8000_0000_0000_0000 == q * 0x1_0000_0000_0000_0000 + r * 0x8000_0000_0000_0000;
  }

  lemma SmallSum(v: nat, g: nat)
    requires v + g < TWO64
    ensures (v + g) % TWO64 == v % TWO64 + g % TWO64
  {
  }

  lemma {:induction false} WeightMonotone(j: nat, k: nat)
    requires j <= k
    ensures Weight(j) <= Weight(k)
  {
    if j == k {
    } else {
      WeightMonotone(j, k - 1);
    }
  }
}
