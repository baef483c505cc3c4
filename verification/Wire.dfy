/** The record grammar of the wire format and the skipper for unknown fields. */
module Wire {
  import opened Varint

  /** One field as it stands on the wire. Tags, lengths and values are kept as the varint
      bytes that were read, so that padded varints are covered; a group may end with any
      end-group tag, as the skipper does not compare field numbers. */
  datatype Record =
    | VarintField(tag: seq<byte>, value: seq<byte>)
    | Fixed64(tag: seq<byte>, payload: seq<byte>)
    | Delimited(tag: seq<byte>, length: seq<byte>, payload: seq<byte>)
    | Group(tag: seq<byte>, fields: seq<Record>, end: seq<byte>)
    | Fixed32(tag: seq<byte>, payload: seq<byte>)

  function WireType(tag: uint64): (t: int)
    ensures 0 <= t < 8
  {
    tag % 8
  }

  /** int32(wire >> 3): the number is cut to 32 bits and read as signed. */
  function FieldNum(tag: uint64): int
  {
    var low := tag / 8 % TWO32;
    if low >= TWO31 then low - TWO32 else low
  }

  predicate IsTag(bs: seq<byte>, wireType: int)
  {
    IsVarint(bs) && WireType(Word(bs)) == wireType
  }

  predicate WellFormed(r: Record)
  {
    match r
    case VarintField(tag, value) => IsTag(tag, 0) && IsVarint(value)
    case Fixed64(tag, payload) => IsTag(tag, 1) && |payload| == 8
    case Delimited(tag, length, payload) => IsTag(tag, 2) && IsVarint(length) && Word(length) == |payload|
    case Group(tag, fields, end) => IsTag(tag, 3) && AllWellFormed(fields) && IsTag(end, 4)
    case Fixed32(tag, payload) => IsTag(tag, 5) && |payload| == 4
  }

  predicate AllWellFormed(rs: seq<Record>)
  {
    rs == [] || (WellFormed(rs[0]) && AllWellFormed(rs[1..]))
  }

  function Bytes(r: Record): seq<byte>
  {
    match r
    case VarintField(tag, value) => tag + value
    case Fixed64(tag, payload) => tag + payload
    case Delimited(tag, length, payload) => tag + length + payload
    case Group(tag, fields, end) => tag + AllBytes(fields) + end
    case Fixed32(tag, payload) => tag + payload
  }

  function AllBytes(rs: seq<Record>): seq<byte>
  {
    if rs == [] then [] else Bytes(rs[0]) + AllBytes(rs[1..])
  }

  lemma {:induction false} AllBytesAppend(a: seq<Record>, b: seq<Record>)
    ensures AllBytes(a + b) == AllBytes(a) + AllBytes(b)
    ensures AllWellFormed(a) && AllWellFormed(b) ==> AllWellFormed(a + b)
  {
    if a == [] {
      assert a + b == b;
    } else {
      assert (a + b)[1..] == a[1..] + b;
      AllBytesAppend(a[1..], b);
    }
  }

  // ---------------------------------------------------------------- skipper

  /** What one turn of the skip loop does: the next index, which may wrap or pass the end,
      and the change of depth. */
  datatype Token = Token(next: int, delta: int, err: Error)

  function TokenAt(d: seq<byte>, i: nat): (t: Token)
    requires i <= |d| < TWO63
    ensures t.err == NoError ==> Decode(d, i).err == NoError && (t.next < 0 || t.next > i)
    ensures t.delta == 0 || (t.delta == 1 && WireType(Decode(d, i).value) == 3)
                         || (t.delta == -1 && WireType(Decode(d, i).value) == 4)
    ensures t.delta != 0 ==> t.next == Decode(d, i).next
  {
    var s := Decode(d, i);
    if s.err != NoError then Token(s.next, 0, s.err)
    else match WireType(s.value)
      case 0 => var v := Decode(d, s.next); Token(v.next, 0, v.err)
      case 1 => Token(Jump(s.next, 8), 0, NoError)
      case 2 =>
        var v := Decode(d, s.next);
        if v.err != NoError then Token(v.next, 0, v.err)
        else if ToInt64(v.value) < 0 then Token(v.next, 0, InvalidLength)
        else Token(Jump(v.next, ToInt64(v.value)), 0, NoError)
      case 3 => Token(s.next, 1, NoError)
      case 4 => Token(s.next, -1, NoError)
      case 5 => Token(Jump(s.next, 4), 0, NoError)
      case _ => Token(s.next, 0, IllegalWireType)
  }

  /** Adding to an index in Go's int arithmetic; a sum past 2^63 - 1 turns negative. */
  function Jump(i: nat, n: nat): (r: int)
    requires i < TWO63 && n < TWO63
    ensures r == i + n || (r < 0 && i + n >= TWO63)
  {
    ToInt64(i + n)
  }

  datatype Skipped = Skipped(n: int, err: Error)

  /** What the skip loop returns when it stands at index i with `depth` groups open. */
  function SkipFrom(d: seq<byte>, i: nat, depth: nat): (s: Skipped)
    requires |d| < TWO63
    ensures s.err == NoError ==> i < s.n
    decreases if i < |d| then |d| - i else 0, 0
  {
    if i >= |d| then Skipped(0, UnexpectedEOF)
    else
      var t := TokenAt(d, i);
      if t.err != NoError then Skipped(0, t.err)
      else if t.delta < 0 && depth == 0 then Skipped(0, UnexpectedEndOfGroup)
      else Resume(d, t.next, depth + t.delta)
  }

  function Resume(d: seq<byte>, j: int, depth: nat): (s: Skipped)
    requires |d| < TWO63
    ensures s.err == NoError ==> 0 <= j <= s.n
    decreases if 0 <= j < |d| then |d| - j else 0, 1
  {
    if j < 0 then Skipped(0, InvalidLength)
    else if depth == 0 then Skipped(j, NoError)
    else SkipFrom(d, j, depth)
  }

  /** skipTx and skipWasm */
  method Skip(dAtA: seq<byte>) returns (n: int, err: Error)
    requires |dAtA| < TWO63
    ensures Skipped(n, err) == SkipFrom(dAtA, 0, 0)
  {
    hide Decode, Word;
    var iNdEx, depth: nat := 0, 0;
    while iNdEx < |dAtA|
      invariant SkipFrom(dAtA, iNdEx, depth) == SkipFrom(dAtA, 0, 0)
      decreases |dAtA| - iNdEx
    {
      ghost var t := TokenAt(dAtA, iNdEx);
      var wire, at, e := ReadVarint(dAtA, iNdEx);
      if e != NoError { return 0, e; }
      var j: int := at;
      match WireType(wire) {
        case 0 =>
          var _, at', e' := ReadVarint(dAtA, at);
          if e' != NoError { return 0, e'; }
          j := at';
        case 1 =>
          j := ToInt64(at + 8);
        case 2 =>
          var word, at', e' := ReadVarint(dAtA, at);
          if e' != NoError { return 0, e'; }
          var length := ToInt64(word);
          if length < 0 { return 0, InvalidLength; }
          j := ToInt64(at' + length);
        case 3 =>
          depth := depth + 1;
        case 4 =>
          if depth == 0 { return 0, UnexpectedEndOfGroup; }
          depth := depth - 1;
        case 5 =>
          j := ToInt64(at + 4);
        case _ =>
          return 0, IllegalWireType;
      }
      if j < 0 { return 0, InvalidLength; }
      if depth == 0 { return j, NoError; }
      iNdEx := j;
    }
    return 0, UnexpectedEOF;
  }

  /** What the skipper does with a one-byte tag, by the bytes alone. */
  lemma SkipsByWireType(d: seq<byte>)
    requires 0 < |d| < TWO63 - 8 && d[0] < 128
    ensures d[0] % 8 == 0 && |d| > 1 && d[1] < 128 ==> SkipFrom(d, 0, 0) == Skipped(2, NoError)
    ensures d[0] % 8 == 1 ==> SkipFrom(d, 0, 0) == Skipped(9, NoError)
    ensures d[0] % 8 == 2 && |d| > 1 && d[1] < 128 ==> SkipFrom(d, 0, 0) == Skipped(2 + d[1], NoError)
    ensures d[0] % 8 == 3 && |d| > 1 && d[1] < 128 && d[1] % 8 == 4 ==> SkipFrom(d, 0, 0) == Skipped(2, NoError)
    ensures d[0] % 8 == 3 && |d| == 1 ==> SkipFrom(d, 0, 0) == Skipped(0, UnexpectedEOF)
    ensures d[0] % 8 == 4 ==> SkipFrom(d, 0, 0) == Skipped(0, UnexpectedEndOfGroup)
    ensures d[0] % 8 == 5 ==> SkipFrom(d, 0, 0) == Skipped(5, NoError)
    ensures d[0] % 8 == 6 || d[0] % 8 == 7 ==> SkipFrom(d, 0, 0) == Skipped(0, IllegalWireType)
  {
    hide Decode;
    DecodesByte(d, 0);
    if |d| > 1 && d[1] < 128 { DecodesByte(d, 1); }
    if d[0] % 8 == 3 {
      StepsOver(d, 0, 0, 1, 1);
      if |d| > 1 && d[1] < 128 && d[1] % 8 == 4 { StepsOver(d, 1, 1, 2, -1); }
    }
  }

  lemma DecodesByte(d: seq<byte>, i: nat)
    requires i < |d| && d[i] < 128
    ensures Decode(d, i) == Scan(d[i], i + 1, NoError)
  {
    assert Number([d[i]]) == d[i] && d[i..i + 1] == [d[i]];
    DecodesVarint(d, i, [d[i]]);
  }

  // ---------------------------------------------------------------- records to skips

  /** The token at either end of a group. */
  lemma TokenOfTag(d: seq<byte>, i: nat, tag: seq<byte>, opens: bool)
    requires |d| < TWO63 && IsTag(tag, if opens then 3 else 4)
    requires i + |tag| <= |d| && d[i..i + |tag|] == tag
    ensures |tag| > 0 && TokenAt(d, i) == Token(i + |tag|, if opens then 1 else -1, NoError)
  {
    hide Decode, Word, WireType;
    DecodesVarint(d, i, tag);
  }

  /** A part of what stands at index i stands at the matching index. */
  lemma PartAt(d: seq<byte>, i: nat, whole: seq<byte>, x: nat, y: nat)
    requires i + |whole| <= |d| && d[i..i + |whole|] == whole && x <= y <= |whole|
    ensures d[i + x..i + y] == whole[x..y]
  {
    forall k | x <= k < y
      ensures d[i + x..i + y][k - x] == whole[k]
    {
      assert d[i..i + |whole|][k] == d[i + k];
    }
  }

  /** What follows the tag of a record. */
  function Body(r: Record): seq<byte>
  {
    match r
    case VarintField(_, value) => value
    case Fixed64(_, payload) => payload
    case Delimited(_, length, payload) => length + payload
    case Group(_, fields, end) => AllBytes(fields) + end
    case Fixed32(_, payload) => payload
  }

  lemma TagAndBody(d: seq<byte>, i: nat, r: Record)
    requires i + |Bytes(r)| <= |d| && d[i..i + |Bytes(r)|] == Bytes(r)
    ensures |Bytes(r)| == |r.tag| + |Body(r)|
    ensures d[i..i + |r.tag|] == r.tag && d[i + |r.tag|..i + |Bytes(r)|] == Body(r)
  {
    hide Bytes, Body;
    BytesSplit(r);
    var b, n := Bytes(r), |r.tag|;
    PartAt(d, i, b, 0, n);
    PartAt(d, i, b, n, |b|);
    assert b[..n] == r.tag && b[n..] == Body(r);
  }

  lemma BytesSplit(r: Record)
    ensures Bytes(r) == r.tag + Body(r)
  {
    match r
    case Delimited(tag, length, payload) => assert tag + length + payload == tag + (length + payload);
    case Group(tag, fields, end) => assert tag + AllBytes(fields) + end == tag + (AllBytes(fields) + end);
    case _ =>
  }

  /** The token of a record without children. */
  lemma TokenOfLeaf(d: seq<byte>, i: nat, r: Record)
    requires |d| < TWO63 && WellFormed(r) && !r.Group?
    requires i + |Bytes(r)| <= |d| && d[i..i + |Bytes(r)|] == Bytes(r)
    ensures |Bytes(r)| > 0 && TokenAt(d, i) == Token(i + |Bytes(r)|, 0, NoError)
  {
    hide Decode, Word, IsVarint, WireType, ToInt64, Bytes;
    TagAndBody(d, i, r);
    DecodesVarint(d, i, r.tag);
    match r
    case VarintField(_, value) =>
      DecodesVarint(d, i + |r.tag|, value);
    case Delimited(_, length, payload) =>
      DecodesLength(d, i + |r.tag|, length, payload);
    case _ =>
  }

  lemma DecodesLength(d: seq<byte>, i: nat, length: seq<byte>, payload: seq<byte>)
    requires IsVarint(length) && Word(length) == |payload|
    requires i + |length + payload| <= |d| && d[i..i + |length + payload|] == length + payload
    ensures Decode(d, i) == Scan(|payload|, i + |length|, NoError)
  {
    hide Decode, Word, IsVarint;
    PartAt(d, i, length + payload, 0, |length|);
    assert (length + payload)[..|length|] == length;
    DecodesVarint(d, i, length);
  }

  lemma StepsOver(d: seq<byte>, i: nat, depth: nat, next: nat, delta: int)
    requires i < |d| < TWO63 && TokenAt(d, i) == Token(next, delta, NoError) && depth + delta >= 0
    ensures SkipFrom(d, i, depth) == Resume(d, next, depth + delta)
    ensures depth + delta > 0 ==> SkipFrom(d, i, depth) == SkipFrom(d, next, depth + delta)
  {
    hide TokenAt, Decode;
  }

  lemma GroupParts(d: seq<byte>, i: nat, r: Record)
    requires r.Group? && i + |Bytes(r)| <= |d| && d[i..i + |Bytes(r)|] == Bytes(r)
    ensures var n, m := |r.tag|, |r.tag| + |AllBytes(r.fields)|;
            && |Bytes(r)| == m + |r.end| && d[i..i + n] == r.tag
            && d[i + n..i + m] == AllBytes(r.fields) && d[i + m..i + |Bytes(r)|] == r.end
  {
    hide AllBytes;
    var b, n, m := Bytes(r), |r.tag|, |r.tag| + |AllBytes(r.fields)|;
    PartAt(d, i, b, 0, n);
    PartAt(d, i, b, n, m);
    PartAt(d, i, b, m, |b|);
    assert b[..n] == r.tag && b[n..m] == AllBytes(r.fields) && b[m..] == r.end;
  }

  /** The skipper steps over any well-formed record, however deeply its groups nest. */
  lemma {:induction false} SkipsRecord(d: seq<byte>, i: nat, r: Record, depth: nat)
    requires |d| < TWO63 && WellFormed(r)
    requires i + |Bytes(r)| <= |d| && d[i..i + |Bytes(r)|] == Bytes(r)
    ensures SkipFrom(d, i, depth) == Resume(d, i + |Bytes(r)|, depth)
    decreases r
  {
    hide Decode, Word, TokenAt, WireType, IsTag, IsVarint, SkipFrom, Resume, Bytes, AllBytes;
    if r.Group? {
      var b, n, m := Bytes(r), |r.tag|, |r.tag| + |AllBytes(r.fields)|;
      GroupParts(d, i, r);
      TokenOfTag(d, i, r.tag, true);
      TokenOfTag(d, i + m, r.end, false);
      StepsOver(d, i, depth, i + n, 1);
      SkipsFields(d, i + n, r.fields, depth + 1);
      StepsOver(d, i + m, depth + 1, i + |b|, -1);
    } else {
      TokenOfLeaf(d, i, r);
      StepsOver(d, i, depth, i + |Bytes(r)|, 0);
    }
  }

  lemma {:induction false} SkipsFields(d: seq<byte>, i: nat, rs: seq<Record>, depth: nat)
    requires |d| < TWO63 && AllWellFormed(rs) && depth > 0
    requires i + |AllBytes(rs)| <= |d| && d[i..i + |AllBytes(rs)|] == AllBytes(rs)
    ensures SkipFrom(d, i, depth) == SkipFrom(d, i + |AllBytes(rs)|, depth)
    decreases rs
  {
    hide Decode, Word, TokenAt, SkipFrom, WellFormed;
    if rs == [] {
    } else {
      var n := |Bytes(rs[0])|;
      var b := AllBytes(rs);
      PartAt(d, i, b, 0, n);
      PartAt(d, i, b, n, |b|);
      assert b[..n] == Bytes(rs[0]) && b[n..] == AllBytes(rs[1..]);
      SkipsRecord(d, i, rs[0], depth);
      SkipsFields(d, i + n, rs[1..], depth);
    }
  }

  // ---------------------------------------------------------------- skips to records

  /** The record that a successful token without change of depth stands for. */
  lemma LeafOfToken(d: seq<byte>, i: nat) returns (r: Record)
    requires i <= |d| < TWO63 && TokenAt(d, i).err == NoError && TokenAt(d, i).delta == 0
    requires 0 <= TokenAt(d, i).next <= |d|
    ensures WellFormed(r) && Bytes(r) == d[i..TokenAt(d, i).next]
    ensures r.tag == d[i..Decode(d, i).next] && !r.Group?
  {
    hide Decode, Word, IsVarint, ToInt64;
    var s, t := Decode(d, i), TokenAt(d, i);
    DecodedIsVarint(d, i);
    var tag, payload := d[i..s.next], d[s.next..t.next];
    assert tag + payload == d[i..t.next];
    match WireType(s.value)
    case 0 =>
      DecodedIsVarint(d, s.next);
      r := VarintField(tag, payload);
    case 1 =>
      r := Fixed64(tag, payload);
    case 2 =>
      var v := Decode(d, s.next);
      DecodedIsVarint(d, s.next);
      r := Delimited(tag, d[s.next..v.next], d[v.next..t.next]);
      assert r.tag + r.length + r.payload == tag + payload;
    case _ =>
      r := Fixed32(tag, payload);
  }

  lemma TagOfToken(d: seq<byte>, i: nat)
    requires i <= |d| < TWO63 && TokenAt(d, i).err == NoError && TokenAt(d, i).delta != 0
    ensures i < TokenAt(d, i).next <= |d|
    ensures IsTag(d[i..TokenAt(d, i).next], if TokenAt(d, i).delta > 0 then 3 else 4)
  {
    hide Decode, Word, TokenAt, WireType, IsVarint;
    DecodedIsVarint(d, i);
  }

  /** A skip that succeeds has a good token first and succeeds from there. */
  lemma SkipTurn(d: seq<byte>, i: nat, depth: nat, n: nat)
    requires |d| < TWO63 && SkipFrom(d, i, depth) == Skipped(n, NoError)
    ensures i < |d|
    ensures var t := TokenAt(d, i);
            && t.err == NoError && depth + t.delta >= 0 && i < t.next <= n
            && Resume(d, t.next, depth + t.delta) == Skipped(n, NoError)
  {
    hide Decode, Word, TokenAt;
  }

  /** A skip that succeeds with `depth` groups open has read the remaining fields of the
      innermost group, its end tag, and then goes on one level up. */
  lemma {:induction false} ClosesGroup(d: seq<byte>, i: nat, depth: nat, n: nat)
      returns (rs: seq<Record>, end: seq<byte>, m: nat)
    requires |d| < TWO63 && depth > 0 && n <= |d| && SkipFrom(d, i, depth) == Skipped(n, NoError)
    ensures i < m <= n && AllWellFormed(rs) && IsTag(end, 4)
    ensures d[i..m] == AllBytes(rs) + end
    ensures Resume(d, m, depth - 1) == Skipped(n, NoError)
    decreases |d| - i, 1
  {
    hide Decode, Word, TokenAt, WireType, IsVarint, IsTag, SkipFrom;
    SkipTurn(d, i, depth, n);
    var t := TokenAt(d, i);
    if t.delta < 0 {
      TagOfToken(d, i);
      rs, end, m := [], d[i..t.next], t.next;
    } else {
      var r, k := FirstField(d, i, depth, n);
      SkipResumed(d, k, depth, n);
      var rest;
      rest, end, m := ClosesGroup(d, k, depth, n);
      rs := [r] + rest;
      assert d[i..m] == d[i..k] + d[k..m];
    }
  }

  /** The record at i, when the token there does not end a group. */
  lemma {:induction false} FirstField(d: seq<byte>, i: nat, depth: nat, n: nat) returns (r: Record, k: nat)
    requires |d| < TWO63 && n <= |d| && SkipFrom(d, i, depth) == Skipped(n, NoError)
    requires i < |d| && TokenAt(d, i).delta >= 0
    ensures i < k <= n && WellFormed(r) && Bytes(r) == d[i..k] && r.tag == d[i..Decode(d, i).next]
    ensures Resume(d, k, depth) == Skipped(n, NoError)
    decreases |d| - i, 0
  {
    hide Decode, Word, TokenAt, WireType, IsVarint, IsTag, SkipFrom, Resume, AllBytes, AllWellFormed;
    SkipTurn(d, i, depth, n);
    var t := TokenAt(d, i);
    if t.delta == 0 {
      r := LeafOfToken(d, i);
      k := t.next;
    } else {
      TagOfToken(d, i);
      SkipResumed(d, t.next, depth + 1, n);
      var inner, end;
      inner, end, k := ClosesGroup(d, t.next, depth + 1, n);
      r := Group(d[i..t.next], inner, end);
      assert d[i..k] == d[i..t.next] + (AllBytes(inner) + end);
    }
  }

  lemma SkipResumed(d: seq<byte>, k: nat, depth: nat, n: nat)
    requires |d| < TWO63 && depth > 0 && Resume(d, k, depth) == Skipped(n, NoError)
    ensures SkipFrom(d, k, depth) == Skipped(n, NoError)
  {
    hide SkipFrom;
  }

  /** Whatever the skipper steps over is one well-formed record. */
  lemma RecordOfSkip(d: seq<byte>, i: nat, n: nat) returns (r: Record)
    requires n <= |d| < TWO63 && SkipFrom(d, i, 0) == Skipped(n, NoError)
    ensures i < n && WellFormed(r) && Bytes(r) == d[i..n] && r.tag == d[i..Decode(d, i).next]
  {
    hide Decode, Word, TokenAt, WireType, IsVarint, IsTag, SkipFrom;
    SkipTurn(d, i, 0, n);
    var k;
    r, k := FirstField(d, i, 0, n);
  }

  /** The skipper succeeds within the input exactly on the prefixes that are one record. */
  lemma SkipIffRecord(d: seq<byte>, n: nat)
    requires n <= |d| < TWO63
    ensures SkipFrom(d, 0, 0) == Skipped(n, NoError) <==>
            exists r :: WellFormed(r) && Bytes(r) == d[..n]
  {
    hide SkipFrom, WellFormed, Bytes;
    if SkipFrom(d, 0, 0) == Skipped(n, NoError) {
      var r := RecordOfSkip(d, 0, n);
    }
    forall r | WellFormed(r) && Bytes(r) == d[..n]
      ensures SkipFrom(d, 0, 0) == Skipped(n, NoError)
    {
      SkipsRecord(d, 0, r, 0);
    }
  }
}
