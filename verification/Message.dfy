/** The meaning of the generated Marshal and Unmarshal methods, once for all six messages.
    A message is the list of its field values; field k has number k. */
module Message {
  import opened Varint
  import opened Wire

  /** What the nested message type `types.Height` offers: its marshalled bytes, whether its
      marshaller reports an error instead of writing them, and an Unmarshal that merges into the
      value it is called on and may fail half way. */
  datatype Codec<!H> =
    Codec(zero: H, encode: H -> seq<byte>, refuses: H -> bool, merge: (H, seq<byte>) -> (H, Error))

  /** The contract assumed of a nested codec: its own output decodes into anything, and
      decodes into the zero value as what was encoded. */
  ghost predicate Lawful<H(!new)>(c: Codec<H>)
  {
    && (forall g, h :: c.merge(g, c.encode(h)).1 == NoError)
    && (forall h :: c.merge(c.zero, c.encode(h)).0 == h)
    && (forall h :: |c.encode(h)| < TWO63)
  }

  datatype Value<H> =
    | BytesValue(bytes: seq<byte>)
    | UintValue(word: uint64)
    | NestedValue(nested: H)

  /** Whether the marshaller leaves the field out. A nested message is always written. */
  predicate IsDefault<H>(v: Value<H>)
  {
    match v
    case BytesValue(b) => b == []
    case UintValue(w) => w == 0
    case NestedValue(_) => false
  }

  function ZeroValue<H>(c: Codec<H>, v: Value<H>): Value<H>
  {
    match v
    case BytesValue(_) => BytesValue([])
    case UintValue(_) => UintValue(0)
    case NestedValue(_) => NestedValue(c.zero)
  }

  /** A freshly allocated message of the same type as m. */
  function Fresh<H>(c: Codec<H>, m: seq<Value<H>>): (z: seq<Value<H>>)
    ensures |z| == |m|
  {
    seq(|m|, k requires 0 <= k < |m| => ZeroValue(c, m[k]))
  }

  /** The field numbers the tag byte has room for. */
  const MAX_FIELDS: int := 15

  predicate Encodable<H>(c: Codec<H>, m: seq<Value<H>>)
  {
    |m| <= MAX_FIELDS && forall k :: 0 <= k < |m| ==> |Payload(c, m[k])| < TWO63
  }

  function Payload<H>(c: Codec<H>, v: Value<H>): seq<byte>
  {
    match v
    case BytesValue(b) => b
    case UintValue(w) => Encode(w)
    case NestedValue(h) => c.encode(h)
  }

  // ---------------------------------------------------------------- marshalling

  function TagByte(k: nat, wireType: nat): byte
    requires 1 <= k <= MAX_FIELDS && wireType < 8
  {
    8 * k + wireType
  }

  /** Field k as the wire format prescribes it: nothing when default, else tag and value. */
  function FieldBytes<H>(c: Codec<H>, k: nat, v: Value<H>): seq<byte>
    requires 1 <= k <= MAX_FIELDS
  {
    if IsDefault(v) then []
    else if v.UintValue? then [TagByte(k, 0)] + Payload(c, v)
    else [TagByte(k, 2)] + Encode(|Payload(c, v)|) + Payload(c, v)
  }

  /** Fields k, k + 1, ... in field order. */
  function MessageBytes<H>(c: Codec<H>, m: seq<Value<H>>, k: nat): seq<byte>
    requires 1 <= k <= |m| + 1 && |m| <= MAX_FIELDS
    decreases |m| - k
  {
    if k > |m| then [] else FieldBytes(c, k, m[k - 1]) + MessageBytes(c, m, k + 1)
  }

  /** The same bytes as records. */
  function FieldRecords<H>(c: Codec<H>, k: nat, v: Value<H>): seq<Record>
    requires 1 <= k <= MAX_FIELDS
  {
    if IsDefault(v) then []
    else if v.UintValue? then [VarintField([TagByte(k, 0)], Payload(c, v))]
    else [Delimited([TagByte(k, 2)], Encode(|Payload(c, v)|), Payload(c, v))]
  }

  function MessageRecords<H>(c: Codec<H>, m: seq<Value<H>>, k: nat): seq<Record>
    requires 1 <= k <= |m| + 1 && |m| <= MAX_FIELDS
    decreases |m| - k
  {
    if k > |m| then [] else FieldRecords(c, k, m[k - 1]) + MessageRecords(c, m, k + 1)
  }

  // ---------------------------------------------------------------- unmarshalling

  /** The message as far as it has been filled, and the error that stopped the decoder. */
  datatype Outcome<H> = Outcome(m: seq<Value<H>>, err: Error)

  /** One turn of the decode loop: the message and index it leaves, or an error. */
  datatype Turn<H> = Turn(m: seq<Value<H>>, next: nat, err: Error)

  /** The bounds of a length-delimited payload whose length varint stands at i. */
  datatype Extent = Extent(start: nat, end: nat, err: Error)

  function ExtentAt(d: seq<byte>, i: nat): (e: Extent)
    requires i <= |d| < TWO63
    ensures e.err == NoError ==> i < e.start <= e.end <= |d|
  {
    var s := Decode(d, i);
    if s.err != NoError then Extent(s.next, s.next, s.err)
    else if ToInt64(s.value) < 0 then Extent(s.next, s.next, InvalidLength)
    else
      var end := Jump(s.next, ToInt64(s.value));
      if end < 0 then Extent(s.next, s.next, InvalidLength)
      else if end > |d| then Extent(s.next, s.next, UnexpectedEOF)
      else Extent(s.next, end, NoError)
  }

  /** Reading the value of known field k, whose tag has been read, from index i on. */
  function ReadField<H>(c: Codec<H>, m: seq<Value<H>>, d: seq<byte>, k: nat, wireType: int, i: nat): (t: Turn<H>)
    requires 1 <= k <= |m| && i <= |d| < TWO63
    ensures |t.m| == |m| && (t.err == NoError ==> i < t.next <= |d|)
  {
    if m[k - 1].UintValue? then
      if wireType != 0 then Turn(m, i, WrongWireType)
      else
        var s := Decode(d, i);
        Turn(m[k - 1 := UintValue(s.value)], s.next, s.err)
    else if wireType != 2 then Turn(m, i, WrongWireType)
    else
      var e := ExtentAt(d, i);
      if e.err != NoError then Turn(m, i, e.err)
      else
        var r := StorePayload(c, m, k, d[e.start..e.end]);
        Turn(r.m, e.end, r.err)
  }

  function StorePayload<H>(c: Codec<H>, m: seq<Value<H>>, k: nat, payload: seq<byte>): (r: Outcome<H>)
    requires 1 <= k <= |m| && !m[k - 1].UintValue?
    ensures |r.m| == |m|
  {
    match m[k - 1]
    case BytesValue(_) => Outcome(m[k - 1 := BytesValue(payload)], NoError)
    case NestedValue(h) =>
      var (h', err) := c.merge(h, payload);
      Outcome(m[k - 1 := NestedValue(h')], err)
  }

  /** Stepping over an unknown field whose tag starts at i. */
  function SkipField<H>(m: seq<Value<H>>, d: seq<byte>, i: nat): (t: Turn<H>)
    requires i <= |d| < TWO63
    ensures t.m == m && (t.err == NoError ==> i < t.next <= |d|)
  {
    var s := SkipFrom(d[i..], 0, 0);
    if s.err != NoError then Turn(m, i, s.err)
    else if s.n < 0 || ToInt64(i + s.n) < 0 then Turn(m, i, InvalidLength)
    else if i + s.n > |d| then Turn(m, i, UnexpectedEOF)
    else Turn(m, i + s.n, NoError)
  }

  function TurnAt<H>(c: Codec<H>, m: seq<Value<H>>, d: seq<byte>, i: nat): (t: Turn<H>)
    requires i <= |d| < TWO63
    ensures |t.m| == |m| && (t.err == NoError ==> i < t.next <= |d|)
  {
    var s := Decode(d, i);
    if s.err != NoError then Turn(m, i, s.err)
    else
      var k, wireType := FieldNum(s.value), WireType(s.value);
      if wireType == 4 then Turn(m, i, EndGroupTag)
      else if k <= 0 then Turn(m, i, IllegalTag)
      else if k <= |m| then ReadField(c, m, d, k, wireType, s.next)
      else SkipField(m, d, i)
  }

  function UnmarshalFrom<H>(c: Codec<H>, m: seq<Value<H>>, d: seq<byte>, i: nat): (r: Outcome<H>)
    requires i <= |d| < TWO63
    ensures |r.m| == |m|
    decreases |d| - i
  {
    if i == |d| then Outcome(m, NoError)
    else
      var t := TurnAt(c, m, d, i);
      if t.err != NoError then Outcome(t.m, t.err) else UnmarshalFrom(c, t.m, d, t.next)
  }

  /** Unmarshal called on message m with input d. */
  function Unmarshal<H>(c: Codec<H>, m: seq<Value<H>>, d: seq<byte>): (r: Outcome<H>)
    requires |d| < TWO63
    ensures |r.m| == |m|
  {
    UnmarshalFrom(c, m, d, 0)
  }

  // ---------------------------------------------------------------- meaning of records

  /** What one record does to a message, read off the record alone. */
  function Apply<H>(c: Codec<H>, m: seq<Value<H>>, r: Record): (o: Outcome<H>)
    ensures |o.m| == |m|
  {
    var k := FieldNum(Word(r.tag));
    if k <= 0 then Outcome(m, IllegalTag)
    else if k > |m| then Outcome(m, NoError)
    else if m[k - 1].UintValue? then
      if r.VarintField? then Outcome(m[k - 1 := UintValue(Word(r.value))], NoError)
      else Outcome(m, WrongWireType)
    else if r.Delimited? then StorePayload(c, m, k, r.payload)
    else Outcome(m, WrongWireType)
  }

  function ApplyAll<H>(c: Codec<H>, m: seq<Value<H>>, rs: seq<Record>): (o: Outcome<H>)
    ensures |o.m| == |m|
    decreases rs
  {
    if rs == [] then Outcome(m, NoError)
    else
      var o := Apply(c, m, rs[0]);
      if o.err != NoError then o else ApplyAll(c, o.m, rs[1..])
  }

  lemma SkipsUnknown<H>(c: Codec<H>, m: seq<Value<H>>, d: seq<byte>, i: nat, r: Record)
    requires |d| < TWO63 && WellFormed(r)
    requires i + |Bytes(r)| <= |d| && d[i..i + |Bytes(r)|] == Bytes(r)
    ensures SkipField(m, d, i) == Turn(m, i + |Bytes(r)|, NoError)
  {
    hide SkipFrom, WellFormed, Bytes;
    assert d[i..][..|Bytes(r)|] == Bytes(r);
    SkipsRecord(d[i..], 0, r, 0);
  }

  lemma ReadsKnown<H>(c: Codec<H>, m: seq<Value<H>>, d: seq<byte>, i: nat, r: Record)
    requires |d| < TWO63 && WellFormed(r)
    requires i + |Body(r)| <= |d| && d[i..i + |Body(r)|] == Body(r)
    requires 1 <= FieldNum(Word(r.tag)) <= |m|
    ensures var o := Apply(c, m, r);
            var t := ReadField(c, m, d, FieldNum(Word(r.tag)), WireType(Word(r.tag)), i);
            t.m == o.m && t.err == o.err && (t.err == NoError ==> t.next == i + |Body(r)|)
  {
    hide Decode, Word, FieldNum, WireType, StorePayload, IsVarint, ExtentAt;
    RecordTag(r);
    match r
    case VarintField(_, value) =>
      DecodesVarint(d, i, value);
    case Delimited(_, length, payload) =>
      ExtentOfPayload(d, i, length, payload);
    case _ =>
  }

  /** The decode loop does with the bytes of a record what the record means. */
  lemma TurnIsApply<H>(c: Codec<H>, m: seq<Value<H>>, d: seq<byte>, i: nat, r: Record)
    requires |d| < TWO63 && WellFormed(r)
    requires i + |Bytes(r)| <= |d| && d[i..i + |Bytes(r)|] == Bytes(r)
    ensures var t, o := TurnAt(c, m, d, i), Apply(c, m, r);
            && |Bytes(r)| > 0 && t.m == o.m && t.err == o.err
            && (t.err == NoError ==> t.next == i + |Bytes(r)|)
  {
    hide Decode, Word, FieldNum, WireType, SkipField, ReadField, IsVarint, WellFormed, Bytes, Body, Apply;
    var n, k := |r.tag|, FieldNum(Word(r.tag));
    TagAndBody(d, i, r);
    RecordTag(r);
    DecodesVarint(d, i, r.tag);
    if k > |m| {
      SkipsUnknown(c, m, d, i, r);
    } else if k > 0 {
      ReadsKnown(c, m, d, i + n, r);
    }
    UnknownMeaning(c, m, r);
  }

  lemma UnknownMeaning<H>(c: Codec<H>, m: seq<Value<H>>, r: Record)
    ensures FieldNum(Word(r.tag)) <= 0 ==> Apply(c, m, r) == Outcome(m, IllegalTag)
    ensures FieldNum(Word(r.tag)) > |m| ==> Apply(c, m, r) == Outcome(m, NoError)
  {
    hide Word, FieldNum;
  }

  lemma RecordTag(r: Record)
    requires WellFormed(r)
    ensures IsVarint(r.tag) && r.tag != [] && |Bytes(r)| >= |r.tag| && WireType(Word(r.tag)) !in {4, 6, 7}
    ensures r.VarintField? <==> WireType(Word(r.tag)) == 0
    ensures r.Delimited? <==> WireType(Word(r.tag)) == 2
  {
    hide Word, WireType;
  }

  lemma ExtentOfPayload(d: seq<byte>, i: nat, length: seq<byte>, payload: seq<byte>)
    requires |d| < TWO63 && IsVarint(length) && Word(length) == |payload|
    requires i + |length + payload| <= |d| && d[i..i + |length + payload|] == length + payload
    ensures var e := ExtentAt(d, i);
            e.err == NoError && e.end == i + |length + payload| && d[e.start..e.end] == payload
  {
    hide Decode, Word, IsVarint, ToInt64;
    DecodesLength(d, i, length, payload);
    PartAt(d, i, length + payload, |length|, |length + payload|);
  }

  /** The decoder computes, on the bytes of any records, the fold of their meanings;
      this includes the error it stops with and the message it leaves then. */
  lemma {:induction false} UnmarshalsRecords<H>(c: Codec<H>, m: seq<Value<H>>, d: seq<byte>, i: nat, rs: seq<Record>)
    requires i <= |d| < TWO63 && AllWellFormed(rs) && d[i..] == AllBytes(rs)
    ensures UnmarshalFrom(c, m, d, i) == ApplyAll(c, m, rs)
    decreases rs
  {
    hide TurnAt, Apply, WellFormed, Bytes;
    if rs == [] {
    } else {
      var r := rs[0];
      var n := |Bytes(r)|;
      assert d[i..i + n] == d[i..][..n] == Bytes(r);
      assert d[i + n..] == d[i..][n..] == AllBytes(rs[1..]);
      TurnIsApply(c, m, d, i, r);
      var o := Apply(c, m, r);
      if o.err == NoError { UnmarshalsRecords(c, o.m, d, i + n, rs[1..]); }
    }
  }

  /** The record that a successful turn has read. */
  lemma RecordOfTurn<H>(c: Codec<H>, m: seq<Value<H>>, d: seq<byte>, i: nat) returns (r: Record)
    requires i <= |d| < TWO63 && TurnAt(c, m, d, i).err == NoError
    ensures WellFormed(r) && Bytes(r) == d[i..TurnAt(c, m, d, i).next]
  {
    hide Decode, Word, FieldNum, WireType, SkipFrom, StorePayload, IsVarint, ToInt64, Jump;
    var t, s := TurnAt(c, m, d, i), Decode(d, i);
    var k := FieldNum(s.value);
    DecodedIsVarint(d, i);
    if k > |m| {
      var n := t.next - i;
      r := RecordOfSkip(d[i..], 0, n);
      assert d[i..][..n] == d[i..t.next];
    } else if m[k - 1].UintValue? {
      DecodedIsVarint(d, s.next);
      r := VarintField(d[i..s.next], d[s.next..t.next]);
    } else {
      r := RecordOfExtent(d, i, s.next);
    }
  }

  lemma RecordOfExtent(d: seq<byte>, i: nat, at: nat) returns (r: Record)
    requires i <= at <= |d| < TWO63 && IsTag(d[i..at], 2) && ExtentAt(d, at).err == NoError
    ensures WellFormed(r) && Bytes(r) == d[i..ExtentAt(d, at).end]
  {
    hide Decode, Word, IsVarint, ToInt64, IsTag, Jump;
    var e := ExtentAt(d, at);
    DecodedIsVarint(d, at);
    r := Delimited(d[i..at], d[at..e.start], d[e.start..e.end]);
    assert d[i..e.end] == d[i..at] + d[at..e.start] + d[e.start..e.end];
  }

  /** Whatever the decoder accepts is a concatenation of well-formed records. */
  lemma {:induction false} RecordsOf<H>(c: Codec<H>, m: seq<Value<H>>, d: seq<byte>, i: nat) returns (rs: seq<Record>)
    requires i <= |d| < TWO63 && UnmarshalFrom(c, m, d, i).err == NoError
    ensures AllWellFormed(rs) && AllBytes(rs) == d[i..]
    decreases |d| - i
  {
    hide TurnAt, WellFormed, Bytes;
    rs := [];
    if i == |d| {
    } else {
      var t := TurnAt(c, m, d, i);
      var r := RecordOfTurn(c, m, d, i);
      var rest := RecordsOf(c, t.m, d, t.next);
      rs := [r] + rest;
      assert d[i..] == d[i..t.next] + d[t.next..];
    }
  }

  /** Exactly which inputs decode, and to what: the decoder takes m to m' without error if and
      only if the input is a sequence of well-formed records whose meanings take m to m'. */
  lemma UnmarshalIff<H(!new)>(c: Codec<H>, m: seq<Value<H>>, d: seq<byte>, m': seq<Value<H>>)
    requires |d| < TWO63
    ensures Unmarshal(c, m, d) == Outcome(m', NoError) <==>
            exists rs :: AllWellFormed(rs) && AllBytes(rs) == d && ApplyAll(c, m, rs) == Outcome(m', NoError)
  {
    hide UnmarshalFrom, ApplyAll, AllWellFormed, AllBytes;
    assert d[0..] == d;
    if Unmarshal(c, m, d) == Outcome(m', NoError) {
      var rs := RecordsOf(c, m, d, 0);
      UnmarshalsRecords(c, m, d, 0, rs);
    }
    forall rs | AllWellFormed(rs) && AllBytes(rs) == d
      ensures Unmarshal(c, m, d) == ApplyAll(c, m, rs)
    {
      UnmarshalsRecords(c, m, d, 0, rs);
    }
  }

  /** Which tags a message refuses, by the bytes alone. */
  lemma RefusedTags<H>(c: Codec<H>, m: seq<Value<H>>, d: seq<byte>)
    requires 0 < |d| < TWO63 && d[0] < 128
    ensures var k := d[0] / 8;
            && (d[0] % 8 == 4 ==> Unmarshal(c, m, d) == Outcome(m, EndGroupTag))
            && (d[0] % 8 != 4 && k == 0 ==> Unmarshal(c, m, d) == Outcome(m, IllegalTag))
            && (d[0] % 8 != 4 && 1 <= k <= |m| && d[0] % 8 != (if m[k - 1].UintValue? then 0 else 2) ==>
                  Unmarshal(c, m, d) == Outcome(m, WrongWireType))
  {
    hide Decode;
    DecodesByte(d, 0);
  }

  /** What becomes of an unknown field that cannot be skipped, or not within the input. */
  lemma RefusedUnknown<H>(c: Codec<H>, m: seq<Value<H>>, d: seq<byte>)
    requires 0 < |d| < TWO63 && d[0] < 128 && d[0] / 8 > |m| && d[0] % 8 != 4
    ensures var s := SkipFrom(d, 0, 0);
            && (s.err != NoError ==> Unmarshal(c, m, d) == Outcome(m, s.err))
            && (s.err == NoError && |d| < s.n < TWO63 ==> Unmarshal(c, m, d) == Outcome(m, UnexpectedEOF))
            && (s.err == NoError && s.n == |d| ==> Unmarshal(c, m, d) == Outcome(m, NoError))
  {
    hide Decode, SkipFrom, TurnAt, UnmarshalFrom, ToInt64;
    UnknownTurn(c, m, d);
    FirstTurn(c, m, d);
    assert d[0..] == d;
  }

  lemma UnknownTurn<H>(c: Codec<H>, m: seq<Value<H>>, d: seq<byte>)
    requires 0 < |d| < TWO63 && d[0] < 128 && d[0] / 8 > |m| && d[0] % 8 != 4
    ensures TurnAt(c, m, d, 0) == SkipField(m, d, 0)
  {
    hide Decode, SkipField, ReadField;
    DecodesByte(d, 0);
  }

  lemma FirstTurn<H>(c: Codec<H>, m: seq<Value<H>>, d: seq<byte>)
    requires 0 < |d| < TWO63
    ensures var t := TurnAt(c, m, d, 0);
            && (t.err != NoError ==> Unmarshal(c, m, d) == Outcome(t.m, t.err))
            && (t.err == NoError && t.next == |d| ==> Unmarshal(c, m, d) == Outcome(t.m, NoError))
  {
    hide TurnAt;
    var t := TurnAt(c, m, d, 0);
    assert UnmarshalFrom(c, t.m, d, |d|) == Outcome(t.m, NoError);
  }

  /** The bounds of a delimited payload, by the length as read and 64-bit arithmetic alone. */
  lemma ExtentBounds(d: seq<byte>, i: nat)
    requires i <= |d| < TWO63
    ensures var s, e := Decode(d, i), ExtentAt(d, i);
            && (s.err != NoError ==> e.err == s.err)
            && (s.err == NoError && s.next + s.value <= |d| ==>
                  e == Extent(s.next, s.next + s.value, NoError))
            && (s.err == NoError && |d| < s.next + s.value < TWO63 ==> e.err == UnexpectedEOF)
            && (s.err == NoError && TWO63 <= s.next + s.value ==> e.err == InvalidLength)
  {
    hide Decode;
  }

  // ---------------------------------------------------------------- unknown fields

  predicate IsUnknown(fields: nat, r: Record)
  {
    FieldNum(Word(r.tag)) > fields
  }

  function KnownOnly(fields: nat, rs: seq<Record>): seq<Record>
  {
    if rs == [] then []
    else (if IsUnknown(fields, rs[0]) then [] else [rs[0]]) + KnownOnly(fields, rs[1..])
  }

  lemma {:induction false} KnownOnlyApplies<H>(c: Codec<H>, m: seq<Value<H>>, rs: seq<Record>)
    ensures ApplyAll(c, m, KnownOnly(|m|, rs)) == ApplyAll(c, m, rs)
    ensures AllWellFormed(rs) ==> AllWellFormed(KnownOnly(|m|, rs))
    ensures |AllBytes(KnownOnly(|m|, rs))| <= |AllBytes(rs)|
    decreases rs
  {
    hide WellFormed, Bytes, Word, FieldNum;
    if rs == [] {
    } else {
      var o, rest := Apply(c, m, rs[0]), KnownOnly(|m|, rs[1..]);
      KnownOnlyApplies(c, o.m, rs[1..]);
      assert ([rs[0]] + rest)[1..] == rest;
      assert [] + rest == rest;
    }
  }

  /** Unknown fields are transparent: leaving them all out, wherever they stand, changes
      neither the decoded message nor the error. */
  lemma UnknownFieldsIgnored<H>(c: Codec<H>, m: seq<Value<H>>, rs: seq<Record>)
    requires AllWellFormed(rs) && |AllBytes(rs)| < TWO63
    ensures |AllBytes(KnownOnly(|m|, rs))| < TWO63
    ensures Unmarshal(c, m, AllBytes(rs)) == Unmarshal(c, m, AllBytes(KnownOnly(|m|, rs)))
  {
    hide UnmarshalFrom, ApplyAll, AllWellFormed, AllBytes, KnownOnly;
    var known := KnownOnly(|m|, rs);
    KnownOnlyApplies(c, m, rs);
    assert AllBytes(rs)[0..] == AllBytes(rs) && AllBytes(known)[0..] == AllBytes(known);
    UnmarshalsRecords(c, m, AllBytes(rs), 0, rs);
    UnmarshalsRecords(c, m, AllBytes(known), 0, known);
  }

  /** The number is cut to 32 bits, so a record whose true number is beyond the message's own is
      ignored exactly when the low 32 bits are too and read as a positive number; it is illegal
      when they read as zero or negative; and it is taken for field k when they are k. */
  lemma LongFieldNumbers<H>(c: Codec<H>, m: seq<Value<H>>, r: Record)
    requires WellFormed(r) && |Bytes(r)| < TWO63 && |m| <= MAX_FIELDS && Word(r.tag) / 8 > |m|
    ensures var low := Word(r.tag) / 8 % TWO32;
            && (low == 0 || low >= TWO31 ==> Unmarshal(c, m, Bytes(r)) == Outcome(m, IllegalTag))
            && (|m| < low < TWO31 ==> Unmarshal(c, m, Bytes(r)) == Outcome(m, NoError))
            && (1 <= low <= |m| ==>
                  var short := r.(tag := [TagByte(low, WireType(Word(r.tag)))]);
                  WellFormed(short) && |Bytes(short)| <= |Bytes(r)|
                  && Unmarshal(c, m, Bytes(r)) == Unmarshal(c, m, Bytes(short)))
  {
    hide Unmarshal, Word, WireType;
    UnmarshalsOne(c, m, r);
    var low := Word(r.tag) / 8 % TWO32;
    if 1 <= low <= |m| {
      TagBytes(low, WireType(Word(r.tag)));
      BytesSplit(r);
      BytesSplit(r.(tag := [TagByte(low, WireType(Word(r.tag)))]));
      UnmarshalsOne(c, m, r.(tag := [TagByte(low, WireType(Word(r.tag)))]));
    }
  }

  /** Field number 2^32 + 1, which no message has, is read as field 1. */
  lemma LongNumberTakenForOne<H>(c: Codec<H>)
    ensures var d := Encode(8 * (TWO32 + 1) + 2) + [1] + [7];
            && |d| < TWO63
            && Unmarshal(c, [BytesValue([]), BytesValue([])], d) == Outcome([BytesValue([7]), BytesValue([])], NoError)
  {
    hide Unmarshal, Encode, IsVarint, Word;
    var tag := 8 * (TWO32 + 1) + 2;
    EncodeIsVarint(tag);
    OneByte(1);
    var r, m := Delimited(Encode(tag), [1], [7]), [BytesValue([]), BytesValue([])];
    assert WellFormed(r) && |Bytes(r)| <= 12;
    UnmarshalsOne(c, m, r);
    assert m[0 := BytesValue([7])] == [BytesValue([7]), BytesValue([])];
  }

  lemma OneByte(b: byte)
    requires b < 128
    ensures IsVarint([b]) && Word([b]) == b
  {
    assert Number([b]) == b;
  }

  /** A record for a known field sets just that field. */
  lemma SetsField<H>(c: Codec<H>, m: seq<Value<H>>, d: seq<byte>, k: nat)
    requires 1 <= k <= |m| && |d| < TWO63
    ensures forall r :: IsField(r, d, k) ==> KeepsOthers(Unmarshal(c, m, d).m, m, k)
    ensures m[k - 1].BytesValue? ==>
              forall r :: IsField(r, d, k) && r.Delimited? ==>
                var o := Unmarshal(c, m, d); o.err == NoError && o.m[k - 1] == BytesValue(r.payload)
    ensures m[k - 1].UintValue? ==>
              forall r :: IsField(r, d, k) && r.VarintField? ==>
                var o := Unmarshal(c, m, d); o.err == NoError && o.m[k - 1] == UintValue(Word(r.value))
    ensures m[k - 1].NestedValue? ==>
              forall r :: IsField(r, d, k) && r.Delimited? ==>
                var o, (h, err) := Unmarshal(c, m, d), c.merge(m[k - 1].nested, r.payload);
                o.err == err && o.m[k - 1] == NestedValue(h)
  {
    hide Unmarshal, WellFormed, Bytes, Word, FieldNum;
    forall r | IsField(r, d, k)
      ensures Unmarshal(c, m, d) == Apply(c, m, r)
    {
      UnmarshalsOne(c, m, r);
    }
  }

  predicate KeepsOthers<H(==)>(after: seq<Value<H>>, before: seq<Value<H>>, k: nat)
  {
    |after| == |before| && forall j :: 0 <= j < |before| && j != k - 1 ==> after[j] == before[j]
  }

  /** The input is one record, with number k. */
  predicate IsField(r: Record, d: seq<byte>, k: nat)
  {
    WellFormed(r) && Bytes(r) == d && FieldNum(Word(r.tag)) == k
  }

  lemma UnmarshalsOne<H>(c: Codec<H>, m: seq<Value<H>>, r: Record)
    requires WellFormed(r) && |Bytes(r)| < TWO63
    ensures Unmarshal(c, m, Bytes(r)) == Apply(c, m, r)
  {
    hide UnmarshalFrom, Apply, WellFormed, Bytes;
    assert [r][1..] == [] && Bytes(r)[0..] == Bytes(r) == AllBytes([r]);
    UnmarshalsRecords(c, m, Bytes(r), 0, [r]);
  }

  // ---------------------------------------------------------------- round trip, last one wins

  /** Field by field, b where b has something to write, else a; nested messages merge. */
  function Override<H>(c: Codec<H>, a: seq<Value<H>>, b: seq<Value<H>>): (m: seq<Value<H>>)
    requires |a| == |b|
    ensures |m| == |a|
  {
    seq(|a|, k requires 0 <= k < |a| => OverrideValue(c, a[k], b[k]))
  }

  function OverrideValue<H>(c: Codec<H>, a: Value<H>, b: Value<H>): Value<H>
  {
    if IsDefault(b) then a
    else if a.NestedValue? && b.NestedValue? then NestedValue(c.merge(a.nested, c.encode(b.nested)).0)
    else b
  }

  /** Both messages are of one type. */
  predicate SameType<H>(a: seq<Value<H>>, b: seq<Value<H>>)
  {
    |a| == |b| && forall k :: 0 <= k < |a| ==>
      a[k].BytesValue? == b[k].BytesValue? && a[k].UintValue? == b[k].UintValue?
  }

  lemma TagBytes(k: nat, wireType: nat)
    requires 1 <= k <= MAX_FIELDS && wireType < 8
    ensures IsTag([TagByte(k, wireType)], wireType) && FieldNum(Word([TagByte(k, wireType)])) == k
  {
    hide Word, IsVarint;
    OneByte(TagByte(k, wireType));
  }

  lemma FieldIsRecords<H>(c: Codec<H>, k: nat, v: Value<H>)
    requires 1 <= k <= MAX_FIELDS && |Payload(c, v)| < TWO63
    ensures AllBytes(FieldRecords(c, k, v)) == FieldBytes(c, k, v)
    ensures AllWellFormed(FieldRecords(c, k, v))
  {
    hide Word, Encode, IsVarint, WireType;
    var rs := FieldRecords(c, k, v);
    if !IsDefault(v) {
      assert AllBytes(rs) == Bytes(rs[0]) + [] by { assert rs[1..] == []; }
      TagBytes(k, if v.UintValue? then 0 else 2);
      EncodeIsVarint(if v.UintValue? then v.word else |Payload(c, v)|);
    }
  }

  lemma {:induction false} MessageIsRecords<H>(c: Codec<H>, m: seq<Value<H>>, k: nat)
    requires Encodable(c, m) && 1 <= k <= |m| + 1
    ensures AllBytes(MessageRecords(c, m, k)) == MessageBytes(c, m, k)
    ensures AllWellFormed(MessageRecords(c, m, k))
    decreases |m| - k
  {
    hide FieldRecords, FieldBytes, Bytes, WellFormed, Payload;
    assert k <= |m| ==> |Payload(c, m[k - 1])| < TWO63;
    if k > |m| {
    } else {
      FieldIsRecords(c, k, m[k - 1]);
      MessageIsRecords(c, m, k + 1);
      AllBytesAppend(FieldRecords(c, k, m[k - 1]), MessageRecords(c, m, k + 1));
    }
  }

  /** Applying the records of field k of b overrides just field k. */
  lemma FieldOverrides<H(!new)>(c: Codec<H>, a: seq<Value<H>>, b: seq<Value<H>>, k: nat)
    requires Lawful(c) && SameType(a, b) && 1 <= k <= |b| <= MAX_FIELDS && |Payload(c, b[k - 1])| < TWO63
    ensures ApplyAll(c, a, FieldRecords(c, k, b[k - 1])) ==
            Outcome(a[k - 1 := OverrideValue(c, a[k - 1], b[k - 1])], NoError)
  {
    hide Word, FieldNum, Encode;
    var v := b[k - 1];
    var rs := FieldRecords(c, k, v);
    if IsDefault(v) {
      assert a[k - 1 := a[k - 1]] == a;
    } else {
      assert rs[1..] == [];
      TagBytes(k, if v.UintValue? then 0 else 2);
      if v.UintValue? { EncodeIsVarint(v.word); }
    }
  }

  lemma {:induction false} ApplyAllAppend<H>(c: Codec<H>, m: seq<Value<H>>, a: seq<Record>, b: seq<Record>)
    requires ApplyAll(c, m, a).err == NoError
    ensures ApplyAll(c, m, a + b) == ApplyAll(c, ApplyAll(c, m, a).m, b)
    decreases a
  {
    hide Apply;
    if a == [] {
      assert a + b == b;
    } else {
      assert (a + b)[1..] == a[1..] + b;
      ApplyAllAppend(c, Apply(c, m, a[0]).m, a[1..], b);
    }
  }

  /** Fields k, k + 1, ... of b applied to a. */
  lemma {:induction false} MessageOverrides<H(!new)>(c: Codec<H>, a: seq<Value<H>>, b: seq<Value<H>>, k: nat)
    requires Lawful(c) && SameType(a, b) && |a| == |b| && Encodable(c, b) && 1 <= k <= |b| + 1
    ensures ApplyAll(c, a, MessageRecords(c, b, k)) ==
            Outcome(a[..k - 1] + Override(c, a, b)[k - 1..], NoError)
    decreases |b| - k
  {
    hide Apply, OverrideValue, FieldRecords, SameType;
    if k > |b| {
      assert a[..k - 1] + Override(c, a, b)[k - 1..] == a;
    } else {
      var v := OverrideValue(c, a[k - 1], b[k - 1]);
      var a' := a[k - 1 := v];
      FieldOverrides(c, a, b, k);
      KeepsType(c, a, b, k);
      ApplyAllAppend(c, a, FieldRecords(c, k, b[k - 1]), MessageRecords(c, b, k + 1));
      MessageOverrides(c, a', b, k + 1);
      OverrideTail(c, a, b, k);
    }
  }

  lemma OverrideTail<H>(c: Codec<H>, a: seq<Value<H>>, b: seq<Value<H>>, k: nat)
    requires |a| == |b| && 1 <= k <= |b|
    ensures var a' := a[k - 1 := OverrideValue(c, a[k - 1], b[k - 1])];
            a'[..k] + Override(c, a', b)[k..] == a[..k - 1] + Override(c, a, b)[k - 1..]
  {
    hide OverrideValue;
  }

  lemma KeepsType<H>(c: Codec<H>, a: seq<Value<H>>, b: seq<Value<H>>, k: nat)
    requires SameType(a, b) && 1 <= k <= |b|
    ensures SameType(a[k - 1 := OverrideValue(c, a[k - 1], b[k - 1])], b)
  {
  }

  /** Marshalled bytes decode into any message of the type, overriding it field by field. */
  lemma UnmarshalOverrides<H(!new)>(c: Codec<H>, a: seq<Value<H>>, b: seq<Value<H>>)
    requires Lawful(c) && SameType(a, b) && Encodable(c, b) && |MessageBytes(c, b, 1)| < TWO63
    ensures Unmarshal(c, a, MessageBytes(c, b, 1)) == Outcome(Override(c, a, b), NoError)
  {
    hide UnmarshalFrom, ApplyAll, MessageRecords, MessageBytes, AllBytes, AllWellFormed;
    var d := MessageBytes(c, b, 1);
    MessageIsRecords(c, b, 1);
    assert d[0..] == d;
    UnmarshalsRecords(c, a, d, 0, MessageRecords(c, b, 1));
    MessageOverrides(c, a, b, 1);
    assert a[..0] + Override(c, a, b)[0..] == Override(c, a, b);
  }

  /** Unmarshal undoes Marshal. */
  lemma RoundTrip<H(!new)>(c: Codec<H>, m: seq<Value<H>>)
    requires Lawful(c) && Encodable(c, m) && |MessageBytes(c, m, 1)| < TWO63
    ensures Unmarshal(c, Fresh(c, m), MessageBytes(c, m, 1)) == Outcome(m, NoError)
  {
    hide Unmarshal, MessageBytes;
    UnmarshalOverrides(c, Fresh(c, m), m);
    assert Override(c, Fresh(c, m), m) == m;
  }

  /** Last one wins: the concatenation of two encodings decodes to the first overridden by
      the non-default fields of the second. */
  lemma LastOneWins<H(!new)>(c: Codec<H>, a: seq<Value<H>>, b: seq<Value<H>>)
    requires Lawful(c) && SameType(a, b) && Encodable(c, a) && Encodable(c, b)
    requires |MessageBytes(c, a, 1) + MessageBytes(c, b, 1)| < TWO63
    ensures Unmarshal(c, Fresh(c, a), MessageBytes(c, a, 1) + MessageBytes(c, b, 1)) ==
            Outcome(Override(c, a, b), NoError)
  {
    hide UnmarshalFrom, ApplyAll, MessageRecords, MessageBytes, AllBytes, AllWellFormed;
    var ra, rb := MessageRecords(c, a, 1), MessageRecords(c, b, 1);
    var d, z := MessageBytes(c, a, 1) + MessageBytes(c, b, 1), Fresh(c, a);
    MessageIsRecords(c, a, 1);
    MessageIsRecords(c, b, 1);
    AllBytesAppend(ra, rb);
    assert d[0..] == d;
    UnmarshalsRecords(c, z, d, 0, ra + rb);
    MessageOverrides(c, z, a, 1);
    assert z[..0] + Override(c, z, a)[0..] == a;
    ApplyAllAppend(c, z, ra, rb);
    MessageOverrides(c, a, b, 1);
    assert a[..0] + Override(c, a, b)[0..] == Override(c, a, b);
  }
}
