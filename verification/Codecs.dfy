/** The generated codecs themselves: buffers filled in place from the back, inputs read by a
    cursor, message fields assigned as they are met. */
module Codecs {
  import opened Varint
  import opened Wire
  import opened Message

  /** For messages without a nested message. */
  const FLAT: Codec<()> := Codec((), h => [], h => false, (h, d) => (h, NoError))

  /** Messages without a nested one need no assumption for their round trip. */
  lemma FlatRoundTrip(m: seq<Value<()>>)
    requires Encodable(FLAT, m) && |MessageBytes(FLAT, m, 1)| < TWO63
    ensures Message.Unmarshal(FLAT, Fresh(FLAT, m), MessageBytes(FLAT, m, 1)) == Outcome(m, NoError)
  {
    hide MessageBytes, Message.Unmarshal;
    forall h ensures FLAT.merge(FLAT.zero, FLAT.encode(h)).0 == h { assert h == (); }
    Message.RoundTrip(FLAT, m);
  }

  // ---------------------------------------------------------------- writing

  /** Writing ends right before what was written last: the two writes are one. */
  lemma PatchBefore(buf: seq<byte>, i: nat, back: seq<byte>, front: seq<byte>)
    requires |front| <= i && i + |back| <= |buf|
    ensures Patched(Patched(buf, i, back), i - |front|, front) == Patched(buf, i - |front|, front + back)
  {
    var once := Patched(buf, i, back);
    assert once[..i - |front|] == buf[..i - |front|];
    assert once[i..] == back + buf[i + |back|..];
  }

  method CopyAt(dAtA: array<byte>, i: nat, src: seq<byte>)
    requires i + |src| <= dAtA.Length
    modifies dAtA
    ensures dAtA[..] == Patched(old(dAtA[..]), i, src)
  {
    forall k | 0 <= k < |src| { dAtA[i + k] := src[k]; }
  }

  /** encodeVarint in front of the bytes that start at index i. */
  method PutVarint(dAtA: array<byte>, i: nat, v: uint64, ghost buf: seq<byte>, ghost back: seq<byte>)
      returns (j: nat)
    requires |Encode(v)| <= i && i + |back| <= dAtA.Length == |buf| && dAtA[..] == Patched(buf, i, back)
    modifies dAtA
    ensures j == i - |Encode(v)| && dAtA[..] == Patched(buf, j, Encode(v) + back)
  {
    hide Encode, Patched;
    SovIsEncodedLength(v);
    PatchBefore(buf, i, back, Encode(v));
    j := EncodeVarint(dAtA, i, v);
  }

  /** `i--; dAtA[i] = tag` */
  method PutTag(dAtA: array<byte>, i: nat, tag: byte, ghost buf: seq<byte>, ghost back: seq<byte>) returns (j: nat)
    requires 1 <= i && i + |back| <= dAtA.Length == |buf| && dAtA[..] == Patched(buf, i, back)
    modifies dAtA
    ensures j == i - 1 && dAtA[..] == Patched(buf, j, [tag] + back)
  {
    PatchBefore(buf, i, back, [tag]);
    j := i - 1;
    dAtA[j] := tag;
  }

  /** Payload, length and tag of field k, written backwards from i. */
  method PutDelimited(dAtA: array<byte>, i: nat, k: nat, payload: seq<byte>,
                      ghost buf: seq<byte>, ghost back: seq<byte>)
      returns (j: nat)
    requires 1 <= k <= MAX_FIELDS && |payload| < TWO63 && |Encode(|payload|)| + |payload| < i
    requires i + |back| <= dAtA.Length == |buf| && dAtA[..] == Patched(buf, i, back)
    modifies dAtA
    ensures j == i - |[TagByte(k, 2)] + Encode(|payload|) + payload|
    ensures dAtA[..] == Patched(buf, j, [TagByte(k, 2)] + Encode(|payload|) + payload + back)
  {
    hide Encode, Patched;
    PatchBefore(buf, i, back, payload);
    CopyAt(dAtA, i - |payload|, payload);
    j := PutVarint(dAtA, i - |payload|, |payload|, buf, payload + back);
    j := PutTag(dAtA, j, TagByte(k, 2), buf, Encode(|payload|) + (payload + back));
    assert [TagByte(k, 2)] + (Encode(|payload|) + (payload + back)) ==
           [TagByte(k, 2)] + Encode(|payload|) + payload + back;
  }

  /** The block for a bytes or string field: nothing when it is empty. */
  method PutBytes<H>(ghost c: Codec<H>, dAtA: array<byte>, i: nat, k: nat, bytes: seq<byte>,
                     ghost buf: seq<byte>, ghost back: seq<byte>)
      returns (j: nat)
    requires 1 <= k <= MAX_FIELDS && |bytes| < TWO63 && |FieldBytes(c, k, BytesValue(bytes))| <= i
    requires i + |back| <= dAtA.Length == |buf| && dAtA[..] == Patched(buf, i, back)
    modifies dAtA
    ensures j == i - |FieldBytes(c, k, BytesValue(bytes))|
    ensures dAtA[..] == Patched(buf, j, FieldBytes(c, k, BytesValue(bytes)) + back)
  {
    hide Encode, Patched;
    j := i;
    assert [] + back == back;
    if |bytes| > 0 { j := PutDelimited(dAtA, i, k, bytes, buf, back); }
  }

  /** A number and the tag of field k, written backwards from i. */
  method PutNumber(dAtA: array<byte>, i: nat, k: nat, word: uint64, ghost buf: seq<byte>, ghost back: seq<byte>)
      returns (j: nat)
    requires 1 <= k <= MAX_FIELDS && |Encode(word)| < i
    requires i + |back| <= dAtA.Length == |buf| && dAtA[..] == Patched(buf, i, back)
    modifies dAtA
    ensures j == i - |[TagByte(k, 0)] + Encode(word)|
    ensures dAtA[..] == Patched(buf, j, [TagByte(k, 0)] + Encode(word) + back)
  {
    hide Encode, Patched;
    j := PutVarint(dAtA, i, word, buf, back);
    j := PutTag(dAtA, j, TagByte(k, 0), buf, Encode(word) + back);
    assert [TagByte(k, 0)] + (Encode(word) + back) == [TagByte(k, 0)] + Encode(word) + back;
  }

  /** The block for an integer field: nothing when it is zero. */
  method PutUint<H>(ghost c: Codec<H>, dAtA: array<byte>, i: nat, k: nat, word: uint64,
                    ghost buf: seq<byte>, ghost back: seq<byte>)
      returns (j: nat)
    requires 1 <= k <= MAX_FIELDS && |FieldBytes(c, k, UintValue(word))| <= i
    requires i + |back| <= dAtA.Length == |buf| && dAtA[..] == Patched(buf, i, back)
    modifies dAtA
    ensures j == i - |FieldBytes(c, k, UintValue(word))|
    ensures dAtA[..] == Patched(buf, j, FieldBytes(c, k, UintValue(word)) + back)
  {
    hide Encode, Patched;
    j := i;
    assert [] + back == back;
    if word != 0 { j := PutNumber(dAtA, i, k, word, buf, back); }
  }

  /** MarshalToSizedBuffer of the nested message, called on dAtA[:i]: its assumed contract. It fills
      the end of what it is given, or fails, and then may have written anything there. */
  method MarshalNested<H>(c: Codec<H>, dAtA: array<byte>, i: nat, nested: H) returns (size: nat, err: Error)
    requires |c.encode(nested)| <= i <= dAtA.Length
    modifies dAtA
    ensures err == if c.refuses(nested) then NestedFailed else NoError
    ensures dAtA[i..] == old(dAtA[i..])
    ensures err == NoError ==>
              size == |c.encode(nested)| && dAtA[..] == Patched(old(dAtA[..]), i - size, c.encode(nested))
  {
    if c.refuses(nested) {
      if i > 0 { dAtA[i - 1] := *; }
      return 0, NestedFailed;
    }
    size := |c.encode(nested)|;
    CopyAt(dAtA, i - size, c.encode(nested));
    return size, NoError;
  }

  /** The block for a nested message, which is always written, in front of index i. */
  method PutNested<H>(c: Codec<H>, dAtA: array<byte>, i: nat, k: nat, nested: H) returns (j: nat, err: Error)
    requires 1 <= k <= MAX_FIELDS && |c.encode(nested)| < TWO63
    requires |FieldBytes(c, k, NestedValue(nested))| <= i <= dAtA.Length
    modifies dAtA
    ensures err == if c.refuses(nested) then NestedFailed else NoError
    ensures dAtA[i..] == old(dAtA[i..])
    ensures err == NoError ==>
              j == i - |FieldBytes(c, k, NestedValue(nested))|
              && dAtA[..] == Patched(old(dAtA[..]), j, FieldBytes(c, k, NestedValue(nested)))
  {
    hide Encode, Patched;
    ghost var buf, payload := dAtA[..], c.encode(nested);
    var size;
    size, err := MarshalNested(c, dAtA, i, nested);
    if err != NoError { return i, err; }
    j := PutVarint(dAtA, i - size, size, buf, payload);
    j := PutTag(dAtA, j, TagByte(k, 2), buf, Encode(|payload|) + payload);
    NestedBlock(c, k, nested);
    PatchKeepsEnd(buf, j, FieldBytes(c, k, NestedValue(nested)), i);
  }

  lemma NestedBlock<H>(c: Codec<H>, k: nat, nested: H)
    requires 1 <= k <= MAX_FIELDS
    ensures FieldBytes(c, k, NestedValue(nested)) ==
            [TagByte(k, 2)] + (Encode(|c.encode(nested)|) + c.encode(nested))
  {
    hide Encode;
  }

  lemma PatchKeepsEnd(buf: seq<byte>, j: nat, src: seq<byte>, i: nat)
    requires i == j + |src| <= |buf|
    ensures Patched(buf, j, src)[i..] == buf[i..]
  {
  }

  /** What Size() adds for a field with l payload bytes behind a length. */
  method SizeDelimited(ghost k: nat, ghost payload: seq<byte>, l: nat) returns (n: nat)
    requires l == |payload| && 1 <= k <= MAX_FIELDS
    ensures n == |[TagByte(k, 2)] + Encode(|payload|) + payload|
  {
    SovIsEncodedLength(l);
    n := 1 + l + Sov(l);
  }

  method SizeBytes<H>(ghost c: Codec<H>, ghost k: nat, bytes: seq<byte>) returns (n: nat)
    requires 1 <= k <= MAX_FIELDS
    ensures n == |FieldBytes(c, k, BytesValue(bytes))|
  {
    hide Encode;
    n := 0;
    var l := |bytes|;
    if l > 0 { n := SizeDelimited(k, bytes, l); }
  }

  method SizeUint<H>(ghost c: Codec<H>, ghost k: nat, word: uint64) returns (n: nat)
    requires 1 <= k <= MAX_FIELDS
    ensures n == |FieldBytes(c, k, UintValue(word))|
  {
    hide Encode;
    SovIsEncodedLength(word);
    n := if word != 0 then 1 + Sov(word) else 0;
  }

  method SizeNested<H>(c: Codec<H>, ghost k: nat, nested: H) returns (n: nat)
    requires 1 <= k <= MAX_FIELDS
    ensures n == |FieldBytes(c, k, NestedValue(nested))|
  {
    hide Encode;
    n := SizeDelimited(k, c.encode(nested), |c.encode(nested)|);
  }

  lemma Unrolled<H>(c: Codec<H>, m: seq<Value<H>>)
    requires 1 <= |m| <= 3
    ensures |m| == 1 ==> MessageBytes(c, m, 1) == FieldBytes(c, 1, m[0])
    ensures |m| == 2 ==> MessageBytes(c, m, 1) == FieldBytes(c, 1, m[0]) + FieldBytes(c, 2, m[1])
    ensures |m| == 3 ==> MessageBytes(c, m, 1) ==
                         FieldBytes(c, 1, m[0]) + (FieldBytes(c, 2, m[1]) + FieldBytes(c, 3, m[2]))
  {
    hide FieldBytes;
    assert MessageBytes(c, m, |m| + 1) == [];
    assert MessageBytes(c, m, |m|) == FieldBytes(c, |m|, m[|m| - 1]);
  }

  // ---------------------------------------------------------------- reading

  method ReadExtent(dAtA: seq<byte>, i: nat) returns (start: nat, end: nat, err: Error)
    requires i <= |dAtA| < TWO63
    ensures Extent(start, end, err) == ExtentAt(dAtA, i)
  {
    hide Decode, Word;
    var word, at, e := ReadVarint(dAtA, i);
    if e != NoError { return at, at, e; }
    var length := ToInt64(word);
    if length < 0 { return at, at, InvalidLength; }
    var postIndex := Jump(at, length);
    if postIndex < 0 { return at, at, InvalidLength; }
    if postIndex > |dAtA| { return at, at, UnexpectedEOF; }
    return at, postIndex, NoError;
  }

  /** The default branch of every decode loop. */
  method SkipUnknown<H>(ghost m: seq<Value<H>>, dAtA: seq<byte>, preIndex: nat) returns (next: nat, err: Error)
    requires preIndex <= |dAtA| < TWO63
    ensures Turn(m, next, err) == SkipField(m, dAtA, preIndex)
  {
    hide SkipFrom;
    var skippy, e := Skip(dAtA[preIndex..]);
    if e != NoError { return preIndex, e; }
    if skippy < 0 || ToInt64(preIndex + skippy) < 0 { return preIndex, InvalidLength; }
    if preIndex + skippy > |dAtA| { return preIndex, UnexpectedEOF; }
    return preIndex + skippy, NoError;
  }

  // ---------------------------------------------------------------- messages

  /** tx.pb.go: a signer and a code. */
  class MsgStoreCode {
    var signer: seq<byte>
    var code: seq<byte>

    constructor ()
      ensures View() == [BytesValue([]), BytesValue([])]
    {
      signer, code := [], [];
    }

    ghost function View(): (m: seq<Value<()>>)
      reads this
      ensures |m| == 2 && m[0] == BytesValue(signer) && m[1] == BytesValue(code)
    {
      [BytesValue(signer), BytesValue(code)]
    }

    ghost function WireBytes(): seq<byte>
      reads this
    {
      MessageBytes(FLAT, View(), 1)
    }

    /** The bytes in full, tag by tag. */
    lemma WireBytesAre()
      ensures WireBytes() ==
              (if signer == [] then [] else [0x0a] + Encode(|signer|) + signer) +
              (if code == [] then [] else [0x12] + Encode(|code|) + code)
    {
      hide MessageBytes, Encode;
      Unrolled(FLAT, View());
    }

    method Size() returns (n: nat)
      ensures n == |WireBytes()|
    {
      hide FieldBytes, MessageBytes;
      Unrolled(FLAT, View());
      var n1 := SizeBytes(FLAT, 1, signer);
      var n2 := SizeBytes(FLAT, 2, code);
      n := n1 + n2;
    }

    method MarshalToSizedBuffer(dAtA: array<byte>, n: nat) returns (written: nat)
      requires Encodable(FLAT, View()) && |WireBytes()| <= n <= dAtA.Length
      modifies dAtA
      ensures written == |WireBytes()|
      ensures dAtA[..] == Patched(old(dAtA[..]), n - written, WireBytes())
    {
      hide FieldBytes, MessageBytes, Patched;
      ghost var buf, m := dAtA[..], View();
      Unrolled(FLAT, m);
      PatchNothing(buf, n);
      assert Payload(FLAT, m[0]) == signer && Payload(FLAT, m[1]) == code;
      var i := PutBytes(FLAT, dAtA, n, 2, code, buf, []);
      assert FieldBytes(FLAT, 2, m[1]) + [] == FieldBytes(FLAT, 2, m[1]);
      i := PutBytes(FLAT, dAtA, i, 1, signer, buf, FieldBytes(FLAT, 2, m[1]));
      return n - i;
    }

    method Marshal() returns (bz: seq<byte>)
      requires Encodable(FLAT, View())
      ensures bz == WireBytes()
      ensures bz ==
              (if signer == [] then [] else [0x0a] + Encode(|signer|) + signer) +
              (if code == [] then [] else [0x12] + Encode(|code|) + code)
    {
      hide MessageBytes, Encode;
      WireBytesAre();
      var size := Size();
      var dAtA := new byte[size];
      var n := MarshalToSizedBuffer(dAtA, size);
      return dAtA[..n];
    }

    method Unmarshal(dAtA: seq<byte>) returns (err: Error)
      requires |dAtA| < TWO63
      modifies `signer, `code
      ensures Outcome(View(), err) == Message.Unmarshal(FLAT, old(View()), dAtA)
      ensures forall r :: IsField(r, dAtA, 1) && r.Delimited? ==>
                err == NoError && signer == r.payload && code == old(code)
      ensures forall r :: IsField(r, dAtA, 2) && r.Delimited? ==>
                err == NoError && code == r.payload && signer == old(signer)
    {
      hide Decode, Word, SkipField, ExtentAt, WireType, FieldNum, IsField;
      SetsField(FLAT, View(), dAtA, 1);
      SetsField(FLAT, View(), dAtA, 2);
      var iNdEx := 0;
      while iNdEx < |dAtA|
        invariant iNdEx <= |dAtA|
        invariant UnmarshalFrom(FLAT, View(), dAtA, iNdEx) == Message.Unmarshal(FLAT, old(View()), dAtA)
      {
        ghost var m := View();
        var wire, at, e := ReadVarint(dAtA, iNdEx);
        if e != NoError { return e; }
        var fieldNum, wireType := FieldNum(wire), WireType(wire);
        if wireType == 4 { return EndGroupTag; }
        if fieldNum <= 0 { return IllegalTag; }
        if fieldNum == 1 {
          if wireType != 2 { return WrongWireType; }
          var start, end, e := ReadExtent(dAtA, at);
          if e != NoError { return e; }
          signer, iNdEx := dAtA[start..end], end;
          assert View() == m[0 := BytesValue(signer)];
        } else if fieldNum == 2 {
          if wireType != 2 { return WrongWireType; }
          var start, end, e := ReadExtent(dAtA, at);
          if e != NoError { return e; }
          code, iNdEx := dAtA[start..end], end;
          assert View() == m[1 := BytesValue(code)];
        } else {
          var next, e := SkipUnknown(View(), dAtA, iNdEx);
          if e != NoError { return e; }
          iNdEx := next;
        }
      }
      return NoError;
    }
  }

  /** MsgStoreCodeResponse and Misbehaviour: a single bytes field, code id or data. */
  class BytesMessage {
    var data: seq<byte>

    constructor ()
      ensures View() == [BytesValue([])]
    {
      data := [];
    }

    ghost function View(): (m: seq<Value<()>>)
      reads this
      ensures |m| == 1 && m[0] == BytesValue(data)
    {
      [BytesValue(data)]
    }

    ghost function WireBytes(): seq<byte>
      reads this
    {
      MessageBytes(FLAT, View(), 1)
    }

    /** The bytes in full, tag by tag. */
    lemma WireBytesAre()
      ensures WireBytes() ==
              (if data == [] then [] else [0x0a] + Encode(|data|) + data)
    {
      hide MessageBytes, Encode;
      Unrolled(FLAT, View());
    }

    method Size() returns (n: nat)
      ensures n == |WireBytes()|
    {
      hide FieldBytes, MessageBytes;
      Unrolled(FLAT, View());
      var n1 := SizeBytes(FLAT, 1, data);
      n := n1;
    }

    method MarshalToSizedBuffer(dAtA: array<byte>, n: nat) returns (written: nat)
      requires Encodable(FLAT, View()) && |WireBytes()| <= n <= dAtA.Length
      modifies dAtA
      ensures written == |WireBytes()|
      ensures dAtA[..] == Patched(old(dAtA[..]), n - written, WireBytes())
    {
      hide FieldBytes, MessageBytes, Patched;
      ghost var buf, m := dAtA[..], View();
      Unrolled(FLAT, m);
      PatchNothing(buf, n);
      assert Payload(FLAT, m[0]) == data;
      var i := PutBytes(FLAT, dAtA, n, 1, data, buf, []);
      assert FieldBytes(FLAT, 1, m[0]) + [] == FieldBytes(FLAT, 1, m[0]);
      return n - i;
    }

    method Marshal() returns (bz: seq<byte>)
      requires Encodable(FLAT, View())
      ensures bz == WireBytes()
      ensures bz ==
              (if data == [] then [] else [0x0a] + Encode(|data|) + data)
    {
      hide MessageBytes, Encode;
      WireBytesAre();
      var size := Size();
      var dAtA := new byte[size];
      var n := MarshalToSizedBuffer(dAtA, size);
      return dAtA[..n];
    }

    method Unmarshal(dAtA: seq<byte>) returns (err: Error)
      requires |dAtA| < TWO63
      modifies `data
      ensures Outcome(View(), err) == Message.Unmarshal(FLAT, old(View()), dAtA)
      ensures forall r :: IsField(r, dAtA, 1) && r.Delimited? ==>
                err == NoError && data == r.payload
    {
      hide Decode, Word, SkipField, ExtentAt, WireType, FieldNum, IsField;
      SetsField(FLAT, View(), dAtA, 1);
      var iNdEx := 0;
      while iNdEx < |dAtA|
        invariant iNdEx <= |dAtA|
        invariant UnmarshalFrom(FLAT, View(), dAtA, iNdEx) == Message.Unmarshal(FLAT, old(View()), dAtA)
      {
        ghost var m := View();
        var wire, at, e := ReadVarint(dAtA, iNdEx);
        if e != NoError { return e; }
        var fieldNum, wireType := FieldNum(wire), WireType(wire);
        if wireType == 4 { return EndGroupTag; }
        if fieldNum <= 0 { return IllegalTag; }
        if fieldNum == 1 {
          if wireType != 2 { return WrongWireType; }
          var start, end, e := ReadExtent(dAtA, at);
          if e != NoError { return e; }
          data, iNdEx := dAtA[start..end], end;
          assert View() == m[0 := BytesValue(data)];
        } else {
          var next, e := SkipUnknown(View(), dAtA, iNdEx);
          if e != NoError { return e; }
          iNdEx := next;
        }
      }
      return NoError;
    }
  }

  /** wasm.pb.go: data and a timestamp. */
  class ConsensusState {
    var data: seq<byte>
    var timestamp: uint64

    constructor ()
      ensures View() == [BytesValue([]), UintValue(0)]
    {
      data, timestamp := [], 0;
    }

    ghost function View(): (m: seq<Value<()>>)
      reads this
      ensures |m| == 2 && m[0] == BytesValue(data) && m[1] == UintValue(timestamp)
    {
      [BytesValue(data), UintValue(timestamp)]
    }

    ghost function WireBytes(): seq<byte>
      reads this
    {
      MessageBytes(FLAT, View(), 1)
    }

    /** The bytes in full, tag by tag. */
    lemma WireBytesAre()
      ensures WireBytes() ==
              (if data == [] then [] else [0x0a] + Encode(|data|) + data) +
              (if timestamp == 0 then [] else [0x10] + Encode(timestamp))
    {
      hide MessageBytes, Encode;
      Unrolled(FLAT, View());
    }

    method Size() returns (n: nat)
      ensures n == |WireBytes()|
    {
      hide FieldBytes, MessageBytes;
      Unrolled(FLAT, View());
      var n1 := SizeBytes(FLAT, 1, data);
      var n2 := SizeUint(FLAT, 2, timestamp);
      n := n1 + n2;
    }

    method MarshalToSizedBuffer(dAtA: array<byte>, n: nat) returns (written: nat)
      requires Encodable(FLAT, View()) && |WireBytes()| <= n <= dAtA.Length
      modifies dAtA
      ensures written == |WireBytes()|
      ensures dAtA[..] == Patched(old(dAtA[..]), n - written, WireBytes())
    {
      hide FieldBytes, MessageBytes, Patched;
      ghost var buf, m := dAtA[..], View();
      Unrolled(FLAT, m);
      PatchNothing(buf, n);
      assert Payload(FLAT, m[0]) == data;
      var i := PutUint(FLAT, dAtA, n, 2, timestamp, buf, []);
      assert FieldBytes(FLAT, 2, m[1]) + [] == FieldBytes(FLAT, 2, m[1]);
      i := PutBytes(FLAT, dAtA, i, 1, data, buf, FieldBytes(FLAT, 2, m[1]));
      return n - i;
    }

    method Marshal() returns (bz: seq<byte>)
      requires Encodable(FLAT, View())
      ensures bz == WireBytes()
      ensures bz ==
              (if data == [] then [] else [0x0a] + Encode(|data|) + data) +
              (if timestamp == 0 then [] else [0x10] + Encode(timestamp))
    {
      hide MessageBytes, Encode;
      WireBytesAre();
      var size := Size();
      var dAtA := new byte[size];
      var n := MarshalToSizedBuffer(dAtA, size);
      return dAtA[..n];
    }

    method Unmarshal(dAtA: seq<byte>) returns (err: Error)
      requires |dAtA| < TWO63
      modifies `data, `timestamp
      ensures Outcome(View(), err) == Message.Unmarshal(FLAT, old(View()), dAtA)
      ensures forall r :: IsField(r, dAtA, 1) && r.Delimited? ==>
                err == NoError && data == r.payload && timestamp == old(timestamp)
      ensures forall r :: IsField(r, dAtA, 2) && r.VarintField? ==>
                err == NoError && timestamp == Word(r.value) && data == old(data)
    {
      hide Decode, Word, SkipField, ExtentAt, WireType, FieldNum, IsField;
      SetsField(FLAT, View(), dAtA, 1);
      SetsField(FLAT, View(), dAtA, 2);
      var iNdEx := 0;
      while iNdEx < |dAtA|
        invariant iNdEx <= |dAtA|
        invariant UnmarshalFrom(FLAT, View(), dAtA, iNdEx) == Message.Unmarshal(FLAT, old(View()), dAtA)
      {
        ghost var m := View();
        var wire, at, e := ReadVarint(dAtA, iNdEx);
        if e != NoError { return e; }
        var fieldNum, wireType := FieldNum(wire), WireType(wire);
        if wireType == 4 { return EndGroupTag; }
        if fieldNum <= 0 { return IllegalTag; }
        if fieldNum == 1 {
          if wireType != 2 { return WrongWireType; }
          var start, end, e := ReadExtent(dAtA, at);
          if e != NoError { return e; }
          data, iNdEx := dAtA[start..end], end;
          assert View() == m[0 := BytesValue(data)];
        } else if fieldNum == 2 {
          if wireType != 0 { return WrongWireType; }
          var next, e;
          timestamp, next, e := ReadVarint(dAtA, at);
          assert View() == m[1 := UintValue(timestamp)];
          if e != NoError { return e; }
          iNdEx := next;
        } else {
          var next, e := SkipUnknown(View(), dAtA, iNdEx);
          if e != NoError { return e; }
          iNdEx := next;
        }
      }
      return NoError;
    }
  }

  /** wasm.pb.go: data, code id and a nested height. */
  class ClientState<H> {
    var data: seq<byte>
    var codeId: seq<byte>
    var latestHeight: H
    const codec: Codec<H>

    constructor (c: Codec<H>)
      ensures codec == c && View() == [BytesValue([]), BytesValue([]), NestedValue(c.zero)]
    {
      codec := c;
      data, codeId, latestHeight := [], [], c.zero;
    }

    ghost function View(): (m: seq<Value<H>>)
      reads this
      ensures |m| == 3 && m[0] == BytesValue(data) && m[1] == BytesValue(codeId) && m[2] == NestedValue(latestHeight)
    {
      [BytesValue(data), BytesValue(codeId), NestedValue(latestHeight)]
    }

    ghost function WireBytes(): seq<byte>
      reads this
    {
      MessageBytes(codec, View(), 1)
    }

    /** The bytes in full, tag by tag. */
    lemma WireBytesAre()
      ensures WireBytes() ==
              (if data == [] then [] else [0x0a] + Encode(|data|) + data) +
              (if codeId == [] then [] else [0x12] + Encode(|codeId|) + codeId) +
              ([0x1a] + Encode(|codec.encode(latestHeight)|) + codec.encode(latestHeight))
    {
      hide MessageBytes, Encode;
      Unrolled(codec, View());
    }

    method Size() returns (n: nat)
      ensures n == |WireBytes()|
    {
      hide FieldBytes, MessageBytes;
      Unrolled(codec, View());
      var n1 := SizeBytes(codec, 1, data);
      var n2 := SizeBytes(codec, 2, codeId);
      var n3 := SizeNested(codec, 3, latestHeight);
      n := n1 + n2 + n3;
    }

    method MarshalToSizedBuffer(dAtA: array<byte>, n: nat) returns (written: nat, err: Error)
      requires Encodable(codec, View()) && |WireBytes()| <= n <= dAtA.Length
      modifies dAtA
      ensures err == if codec.refuses(latestHeight) then NestedFailed else NoError
      ensures err == NoError ==> written == |WireBytes()|
      ensures err == NoError ==> dAtA[..] == Patched(old(dAtA[..]), n - written, WireBytes())
      ensures err != NoError ==> written == 0 && dAtA[n..] == old(dAtA[n..])
    {
      hide FieldBytes, MessageBytes, Patched;
      ghost var buf, m := dAtA[..], View();
      Unrolled(codec, m);
      assert Payload(codec, m[0]) == data && Payload(codec, m[1]) == codeId;
      assert Payload(codec, m[2]) == codec.encode(latestHeight);
      var i;
      i, err := PutNested(codec, dAtA, n, 3, latestHeight);
      if err != NoError { return 0, err; }
      i := PutBytes(codec, dAtA, i, 2, codeId, buf, FieldBytes(codec, 3, m[2]));
      i := PutBytes(codec, dAtA, i, 1, data, buf, FieldBytes(codec, 2, m[1]) + FieldBytes(codec, 3, m[2]));
      return n - i, NoError;
    }

    method Marshal() returns (bz: seq<byte>, err: Error)
      requires Encodable(codec, View())
      ensures err == if codec.refuses(latestHeight) then NestedFailed else NoError
      ensures bz == if err == NoError then WireBytes() else []
      ensures err == NoError ==>
                bz ==
                (if data == [] then [] else [0x0a] + Encode(|data|) + data) +
                (if codeId == [] then [] else [0x12] + Encode(|codeId|) + codeId) +
                ([0x1a] + Encode(|codec.encode(latestHeight)|) + codec.encode(latestHeight))
    {
      hide MessageBytes, Encode;
      WireBytesAre();
      var size := Size();
      var dAtA := new byte[size];
      var n;
      n, err := MarshalToSizedBuffer(dAtA, size);
      if err != NoError { return [], err; }
      return dAtA[..n], NoError;
    }

    method Unmarshal(dAtA: seq<byte>) returns (err: Error)
      requires |dAtA| < TWO63
      modifies `data, `codeId, `latestHeight
      ensures Outcome(View(), err) == Message.Unmarshal(codec, old(View()), dAtA)
      ensures forall r :: IsField(r, dAtA, 1) && r.Delimited? ==>
                err == NoError && data == r.payload && codeId == old(codeId) && latestHeight == old(latestHeight)
      ensures forall r :: IsField(r, dAtA, 2) && r.Delimited? ==>
                err == NoError && codeId == r.payload && data == old(data) && latestHeight == old(latestHeight)
      ensures forall r :: IsField(r, dAtA, 3) && r.Delimited? ==>
                && (latestHeight, err) == codec.merge(old(latestHeight), r.payload)
                && data == old(data) && codeId == old(codeId)
    {
      hide Decode, Word, SkipField, ExtentAt, WireType, FieldNum, IsField;
      SetsField(codec, View(), dAtA, 1);
      SetsField(codec, View(), dAtA, 2);
      SetsField(codec, View(), dAtA, 3);
      var iNdEx := 0;
      while iNdEx < |dAtA|
        invariant iNdEx <= |dAtA|
        invariant UnmarshalFrom(codec, View(), dAtA, iNdEx) == Message.Unmarshal(codec, old(View()), dAtA)
      {
        ghost var m := View();
        var wire, at, e := ReadVarint(dAtA, iNdEx);
        if e != NoError { return e; }
        var fieldNum, wireType := FieldNum(wire), WireType(wire);
        if wireType == 4 { return EndGroupTag; }
        if fieldNum <= 0 { return IllegalTag; }
        if fieldNum == 1 {
          if wireType != 2 { return WrongWireType; }
          var start, end, e := ReadExtent(dAtA, at);
          if e != NoError { return e; }
          data, iNdEx := dAtA[start..end], end;
          assert View() == m[0 := BytesValue(data)];
        } else if fieldNum == 2 {
          if wireType != 2 { return WrongWireType; }
          var start, end, e := ReadExtent(dAtA, at);
          if e != NoError { return e; }
          codeId, iNdEx := dAtA[start..end], end;
          assert View() == m[1 := BytesValue(codeId)];
        } else if fieldNum == 3 {
          if wireType != 2 { return WrongWireType; }
          var start, end, e := ReadExtent(dAtA, at);
          if e != NoError { return e; }
          var (merged, e') := codec.merge(latestHeight, dAtA[start..end]);
          latestHeight := merged;
          assert View() == m[2 := NestedValue(latestHeight)];
          if e' != NoError { return e'; }
          iNdEx := end;
        } else {
          var next, e := SkipUnknown(View(), dAtA, iNdEx);
          if e != NoError { return e; }
          iNdEx := next;
        }
      }
      return NoError;
    }
  }

  /** wasm.pb.go: data and a nested height. */
  class Header<H> {
    var data: seq<byte>
    var height: H
    const codec: Codec<H>

    constructor (c: Codec<H>)
      ensures codec == c && View() == [BytesValue([]), NestedValue(c.zero)]
    {
      codec := c;
      data, height := [], c.zero;
    }

    ghost function View(): (m: seq<Value<H>>)
      reads this
      ensures |m| == 2 && m[0] == BytesValue(data) && m[1] == NestedValue(height)
    {
      [BytesValue(data), NestedValue(height)]
    }

    ghost function WireBytes(): seq<byte>
      reads this
    {
      MessageBytes(codec, View(), 1)
    }

    /** The bytes in full, tag by tag. */
    lemma WireBytesAre()
      ensures WireBytes() ==
              (if data == [] then [] else [0x0a] + Encode(|data|) + data) +
              ([0x12] + Encode(|codec.encode(height)|) + codec.encode(height))
    {
      hide MessageBytes, Encode;
      Unrolled(codec, View());
    }

    method Size() returns (n: nat)
      ensures n == |WireBytes()|
    {
      hide FieldBytes, MessageBytes;
      Unrolled(codec, View());
      var n1 := SizeBytes(codec, 1, data);
      var n2 := SizeNested(codec, 2, height);
      n := n1 + n2;
    }

    method MarshalToSizedBuffer(dAtA: array<byte>, n: nat) returns (written: nat, err: Error)
      requires Encodable(codec, View()) && |WireBytes()| <= n <= dAtA.Length
      modifies dAtA
      ensures err == if codec.refuses(height) then NestedFailed else NoError
      ensures err == NoError ==> written == |WireBytes()|
      ensures err == NoError ==> dAtA[..] == Patched(old(dAtA[..]), n - written, WireBytes())
      ensures err != NoError ==> written == 0 && dAtA[n..] == old(dAtA[n..])
    {
      hide FieldBytes, MessageBytes, Patched;
      ghost var buf, m := dAtA[..], View();
      Unrolled(codec, m);
      assert Payload(codec, m[0]) == data && Payload(codec, m[1]) == codec.encode(height);
      var i;
      i, err := PutNested(codec, dAtA, n, 2, height);
      if err != NoError { return 0, err; }
      i := PutBytes(codec, dAtA, i, 1, data, buf, FieldBytes(codec, 2, m[1]));
      return n - i, NoError;
    }

    method Marshal() returns (bz: seq<byte>, err: Error)
      requires Encodable(codec, View())
      ensures err == if codec.refuses(height) then NestedFailed else NoError
      ensures bz == if err == NoError then WireBytes() else []
      ensures err == NoError ==>
                bz ==
                (if data == [] then [] else [0x0a] + Encode(|data|) + data) +
                ([0x12] + Encode(|codec.encode(height)|) + codec.encode(height))
    {
      hide MessageBytes, Encode;
      WireBytesAre();
      var size := Size();
      var dAtA := new byte[size];
      var n;
      n, err := MarshalToSizedBuffer(dAtA, size);
      if err != NoError { return [], err; }
      return dAtA[..n], NoError;
    }

    method Unmarshal(dAtA: seq<byte>) returns (err: Error)
      requires |dAtA| < TWO63
      modifies `data, `height
      ensures Outcome(View(), err) == Message.Unmarshal(codec, old(View()), dAtA)
      ensures forall r :: IsField(r, dAtA, 1) && r.Delimited? ==>
                err == NoError && data == r.payload && height == old(height)
      ensures forall r :: IsField(r, dAtA, 2) && r.Delimited? ==>
                (height, err) == codec.merge(old(height), r.payload) && data == old(data)
    {
      hide Decode, Word, SkipField, ExtentAt, WireType, FieldNum, IsField;
      SetsField(codec, View(), dAtA, 1);
      SetsField(codec, View(), dAtA, 2);
      var iNdEx := 0;
      while iNdEx < |dAtA|
        invariant iNdEx <= |dAtA|
        invariant UnmarshalFrom(codec, View(), dAtA, iNdEx) == Message.Unmarshal(codec, old(View()), dAtA)
      {
        ghost var m := View();
        var wire, at, e := ReadVarint(dAtA, iNdEx);
        if e != NoError { return e; }
        var fieldNum, wireType := FieldNum(wire), WireType(wire);
        if wireType == 4 { return EndGroupTag; }
        if fieldNum <= 0 { return IllegalTag; }
        if fieldNum == 1 {
          if wireType != 2 { return WrongWireType; }
          var start, end, e := ReadExtent(dAtA, at);
          if e != NoError { return e; }
          data, iNdEx := dAtA[start..end], end;
          assert View() == m[0 := BytesValue(data)];
        } else if fieldNum == 2 {
          if wireType != 2 { return WrongWireType; }
          var start, end, e := ReadExtent(dAtA, at);
          if e != NoError { return e; }
          var (merged, e') := codec.merge(height, dAtA[start..end]);
          height := merged;
          assert View() == m[1 := NestedValue(height)];
          if e' != NoError { return e'; }
          iNdEx := end;
        } else {
          var next, e := SkipUnknown(View(), dAtA, iNdEx);
          if e != NoError { return e; }
          iNdEx := next;
        }
      }
      return NoError;
    }
  }

  // ---------------------------------------------------------------- round trips

  /** What a MsgStoreCode marshals to, a new one unmarshals as the same. */
  method MsgStoreCodeRoundTrip(m: MsgStoreCode) returns (z: MsgStoreCode)
    requires Encodable(FLAT, m.View()) && |m.WireBytes()| < TWO63
    ensures fresh(z) && z.View() == m.View()
  {
    hide MessageBytes, Message.Unmarshal;
    FlatRoundTrip(m.View());
    var bz := m.Marshal();
    z := new MsgStoreCode();
    assert z.View() == Fresh(FLAT, m.View());
    var err := z.Unmarshal(bz);
    assert err == NoError;
  }

  /** What a BytesMessage marshals to, a new one unmarshals as the same. */
  method BytesMessageRoundTrip(m: BytesMessage) returns (z: BytesMessage)
    requires Encodable(FLAT, m.View()) && |m.WireBytes()| < TWO63
    ensures fresh(z) && z.View() == m.View()
  {
    hide MessageBytes, Message.Unmarshal;
    FlatRoundTrip(m.View());
    var bz := m.Marshal();
    z := new BytesMessage();
    assert z.View() == Fresh(FLAT, m.View());
    var err := z.Unmarshal(bz);
    assert err == NoError;
  }

  /** What a ConsensusState marshals to, a new one unmarshals as the same. */
  method ConsensusStateRoundTrip(m: ConsensusState) returns (z: ConsensusState)
    requires Encodable(FLAT, m.View()) && |m.WireBytes()| < TWO63
    ensures fresh(z) && z.View() == m.View()
  {
    hide MessageBytes, Message.Unmarshal;
    FlatRoundTrip(m.View());
    var bz := m.Marshal();
    z := new ConsensusState();
    assert z.View() == Fresh(FLAT, m.View());
    var err := z.Unmarshal(bz);
    assert err == NoError;
  }

  /** The same for a ClientState, unless its height cannot be marshalled. */
  method ClientStateRoundTrip<H(!new)>(m: ClientState<H>) returns (z: ClientState<H>, err: Error)
    requires Lawful(m.codec) && Encodable(m.codec, m.View()) && |m.WireBytes()| < TWO63
    ensures err == if m.codec.refuses(m.latestHeight) then NestedFailed else NoError
    ensures fresh(z) && (err == NoError ==> z.View() == m.View())
  {
    hide MessageBytes, Message.Unmarshal;
    Message.RoundTrip(m.codec, m.View());
    var bz;
    bz, err := m.Marshal();
    z := new ClientState(m.codec);
    if err == NoError {
      assert z.View() == Fresh(m.codec, m.View());
      err := z.Unmarshal(bz);
    }
  }

  /** The same for a Header, unless its height cannot be marshalled. */
  method HeaderRoundTrip<H(!new)>(m: Header<H>) returns (z: Header<H>, err: Error)
    requires Lawful(m.codec) && Encodable(m.codec, m.View()) && |m.WireBytes()| < TWO63
    ensures err == if m.codec.refuses(m.height) then NestedFailed else NoError
    ensures fresh(z) && (err == NoError ==> z.View() == m.View())
  {
    hide MessageBytes, Message.Unmarshal;
    Message.RoundTrip(m.codec, m.View());
    var bz;
    bz, err := m.Marshal();
    z := new Header(m.codec);
    if err == NoError {
      assert z.View() == Fresh(m.codec, m.View());
      err := z.Unmarshal(bz);
    }
  }
}
