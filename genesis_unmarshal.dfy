/**
 * The generated GenesisState decoder. `DecodeFrom` is what the decoder's
 * loop does from an index on, merging every field it reads into the message
 * it was given: Params are merged by the nested decoder, PortId is replaced,
 * a VoterRole is appended, VoterRoleCount is replaced, and a field of any
 * other number is stepped over with `Skip`.
 */
module GenesisUnmarshal {
  import opened Wrappers
  import opened VotingTypes
  import opened GenesisWire
  import opened GenesisSkip
  import opened GenesisMarshal

  const TwoTo31: int := 0x8000_0000

  /**
   * The nested messages' own decoders: Params merges into the Params already
   * in the message, and a VoterRole is decoded into a fresh zero VoterRole.
   */
  datatype NestedDecoders = NestedDecoders(
    params: (Params, Bytes) -> Result<Params, CodecError>,
    role: Bytes -> Result<VoterRole, CodecError>)

  /** The message a decoder starts from: every field at its zero value. */
  const EmptyGenesis := GenesisState(Params(0, 0), [], [], 0)

  /** Go's conversion to int32: the low 32 bits read as two's complement. */
  function Int32Of(x: nat): (r: int)
    ensures -TwoTo31 <= r < TwoTo31
  {
    if x < TwoTo31 then x
    else
      var low := x % TwoTo32;
      if low >= TwoTo31 then low - TwoTo32 else low
  }

  /**
   * The length prefix of a delimited field at `k` and the bounds of its
   * payload: a length that is negative as a Go int, or an end index that
   * overflows, is an invalid length; an end past the input is an unexpected
   * end of input.
   */
  function ReadDelimited(data: Bytes, k: nat): (r: Result<(nat, nat), CodecError>)
    ensures r.Success? ==> k < r.value.0 <= r.value.1 <= |data|
  {
    match ReadVarint(data, k)
    case Failure(e) => Failure(e)
    case Success((length, start)) =>
      if length >= TwoTo63 then Failure(InvalidLength)
      else if start + length >= TwoTo63 then Failure(InvalidLength)
      else if start + length > |data| then Failure(UnexpectedEOF)
      else Success((start, start + length))
  }

  /** What a delimited field of number 1, 2 or 3 does to the message, given its payload. */
  function Merge(fieldNum: int, payload: Bytes, m: GenesisState, dec: NestedDecoders): Result<GenesisState, CodecError>
    requires 1 <= fieldNum <= 3
  {
    if fieldNum == 1 then
      match dec.params(m.params, payload)
      case Failure(e) => Failure(e)
      case Success(p) => Success(m.(params := p))
    else if fieldNum == 2 then Success(m.(portId := payload))
    else
      match dec.role(payload)
      case Failure(e) => Failure(e)
      case Success(role) => Success(m.(voterRoleList := m.voterRoleList + [role]))
  }

  /** Fields 1 to 3 after their tag at `k`: a delimited payload merged into the message. */
  function DelimitedField(data: Bytes, k: nat, fieldNum: int, wireType: nat, m: GenesisState, dec: NestedDecoders)
    : (r: Result<(nat, GenesisState), CodecError>)
    requires 1 <= fieldNum <= 3
    ensures r.Success? ==> k < r.value.0 <= |data|
  {
    if wireType != WireBytes then Failure(WrongWireType(fieldNum, wireType))
    else
      match ReadDelimited(data, k)
      case Failure(e) => Failure(e)
      case Success((start, post)) =>
        match Merge(fieldNum, data[start..post], m, dec)
        case Failure(e) => Failure(e)
        case Success(m') => Success((post, m'))
  }

  /** Field 4 after its tag at `k`: a varint that replaces the count. */
  function CountField(data: Bytes, k: nat, wireType: nat, m: GenesisState): (r: Result<(nat, GenesisState), CodecError>)
    ensures r.Success? ==> k < r.value.0 <= |data|
  {
    if wireType != WireVarint then Failure(WrongWireType(4, wireType))
    else
      match ReadVarint(data, k)
      case Failure(e) => Failure(e)
      case Success((count, next)) => Success((next, m.(voterRoleCount := count)))
  }

  /** A field of another number, stepped over from its tag at `i`; the message is unchanged. */
  function UnknownField(data: Bytes, i: nat, m: GenesisState): (r: Result<(nat, GenesisState), CodecError>)
    requires i <= |data|
    ensures r.Success? ==> i < r.value.0 <= |data|
  {
    match Skip(data[i..])
    case Failure(e) => Failure(e)
    case Success(skippy) =>
      if i + skippy >= TwoTo63 then Failure(InvalidLength)
      else if i + skippy > |data| then Failure(UnexpectedEOF)
      else Success((i + skippy, m))
  }

  /** The field whose tag `wire` was read at `i`, its value starting at `k`. */
  function FieldBody(data: Bytes, i: nat, k: nat, wire: uint64, m: GenesisState, dec: NestedDecoders)
    : (r: Result<(nat, GenesisState), CodecError>)
    requires i < k <= |data|
    ensures r.Success? ==> i < r.value.0 <= |data|
  {
    var fieldNum := Int32Of(wire / 8);
    var wireType := wire % 8;
    if wireType == WireEndGroup then Failure(WireTypeEndGroup)
    else if fieldNum <= 0 then Failure(IllegalTag(fieldNum, wire))
    else if fieldNum <= 3 then DelimitedField(data, k, fieldNum, wireType, m, dec)
    else if fieldNum == 4 then CountField(data, k, wireType, m)
    else UnknownField(data, i, m)
  }

  /** One turn of the decoder's loop at `i`: the index after the field and the message with the field merged in. */
  function Field(data: Bytes, i: nat, m: GenesisState, dec: NestedDecoders): (r: Result<(nat, GenesisState), CodecError>)
    ensures r.Success? ==> i < r.value.0 <= |data|
  {
    match ReadVarint(data, i)
    case Failure(e) => Failure(e)
    case Success((wire, k)) => FieldBody(data, i, k, wire, m, dec)
  }

  /** The decoder's loop from `i` to the end of the input. */
  function DecodeFrom(data: Bytes, i: nat, m: GenesisState, dec: NestedDecoders): Result<GenesisState, CodecError>
    decreases |data| - i
  {
    if i >= |data| then Success(m)
    else
      match Field(data, i, m, dec)
      case Failure(e) => Failure(e)
      case Success((next, m')) => DecodeFrom(data, next, m', dec)
  }

  /**
   * The length prefix and payload bounds. A method rather than a call of
   * ReadDelimited because the length is read by the varint loop (ReadVarintAt),
   * as the source reads it with an inner loop.
   */
  method ReadDelimitedAt(data: Bytes, k: nat) returns (r: Result<(nat, nat), CodecError>)
    ensures r == ReadDelimited(data, k)
  {
    var v := ReadVarintAt(data, k);
    if v.Failure? {
      return Failure(v.error);
    }
    var length, start := v.value.0, v.value.1;
    if length >= TwoTo63 || start + length >= TwoTo63 {
      return Failure(InvalidLength);
    }
    if start + length > |data| {
      return Failure(UnexpectedEOF);
    }
    return Success((start, start + length));
  }

  /**
   * The body of the decoder's loop: one field. A method rather than a call of
   * Field because its tag, lengths and count are read by the source's inner
   * varint loops (ReadVarintAt, ReadDelimitedAt) and unknown fields by
   * skipGenesis's loop (SkipGenesis).
   */
  method DecodeField(data: Bytes, i: nat, m: GenesisState, dec: NestedDecoders)
    returns (r: Result<(nat, GenesisState), CodecError>)
    ensures r == Field(data, i, m, dec)
  {
    var tag := ReadVarintAt(data, i);
    if tag.Failure? {
      return Failure(tag.error);
    }
    var wire, k := tag.value.0, tag.value.1;
    var fieldNum := Int32Of(wire / 8);
    var wireType := wire % 8;
    if wireType == WireEndGroup {
      return Failure(WireTypeEndGroup);
    }
    if fieldNum <= 0 {
      return Failure(IllegalTag(fieldNum, wire));
    }
    if fieldNum == 4 {
      if wireType != WireVarint {
        return Failure(WrongWireType(4, wireType));
      }
      var count := ReadVarintAt(data, k);
      if count.Failure? {
        return Failure(count.error);
      }
      return Success((count.value.1, m.(voterRoleCount := count.value.0)));
    }
    if fieldNum > 4 {
      var skippy := SkipGenesis(data[i..]);
      if skippy.Failure? {
        return Failure(skippy.error);
      }
      if i + skippy.value >= TwoTo63 {
        return Failure(InvalidLength);
      }
      if i + skippy.value > |data| {
        return Failure(UnexpectedEOF);
      }
      return Success((i + skippy.value, m));
    }
    if wireType != WireBytes {
      return Failure(WrongWireType(fieldNum, wireType));
    }
    var bounds := ReadDelimitedAt(data, k);
    if bounds.Failure? {
      return Failure(bounds.error);
    }
    var payload := data[bounds.value.0..bounds.value.1];
    if fieldNum == 1 {
      var p := dec.params(m.params, payload);
      if p.Failure? {
        return Failure(p.error);
      }
      return Success((bounds.value.1, m.(params := p.value)));
    } else if fieldNum == 2 {
      return Success((bounds.value.1, m.(portId := payload)));
    } else {
      var role := dec.role(payload);
      if role.Failure? {
        return Failure(role.error);
      }
      return Success((bounds.value.1, m.(voterRoleList := m.voterRoleList + [role.value])));
    }
  }

  /** Unmarshal: merges every field of `data` into `m`, field after field, until the input ends. */
  method Unmarshal(m: GenesisState, data: Bytes, dec: NestedDecoders) returns (r: Result<GenesisState, CodecError>)
    ensures r == DecodeFrom(data, 0, m, dec)
  {
    var i: nat := 0;
    var cur := m;
    while i < |data|
      invariant DecodeFrom(data, i, cur, dec) == DecodeFrom(data, 0, m, dec)
      decreases |data| - i
    {
      var f := DecodeField(data, i, cur, dec);
      if f.Failure? {
        return Failure(f.error);
      }
      i, cur := f.value.0, f.value.1;
    }
    return Success(cur);
  }

  /** A one-byte tag reads back as itself. */
  lemma ReadTagByte(data: Bytes, i: nat, tag: byte)
    requires tag < 0x80 && i < |data| && data[i] == tag
    ensures ReadVarint(data, i) == Success((tag as uint64, i + 1))
  {
    assert VarintBytes(tag) == [tag];
    ReadVarintWritten(data, i, tag);
  }

  lemma SliceOfSlice(s: Bytes, i: nat, n: nat, a: nat, b: nat)
    requires i + n <= |s| && a <= b <= n
    ensures s[i..i + n][a..b] == s[i + a..i + b]
  {
    var x, y := s[i..i + n][a..b], s[i + a..i + b];
    forall j | 0 <= j < |x|
      ensures x[j] == y[j]
    {
    }
  }

  /** Where `x + y + z` sits at `i`, so do `x`, `y` and `z`, one after another. */
  lemma ThreeSlices(data: Bytes, i: nat, x: Bytes, y: Bytes, z: Bytes)
    requires i + |x| + |y| + |z| <= |data|
    requires data[i..i + |x| + |y| + |z|] == x + y + z
    ensures data[i..i + |x|] == x
    ensures data[i + |x|..i + |x| + |y|] == y
    ensures data[i + |x| + |y|..i + |x| + |y| + |z|] == z
  {
    var n := |x| + |y| + |z|;
    SliceOfSlice(data, i, n, 0, |x|);
    SliceOfSlice(data, i, n, |x|, |x| + |y|);
    SliceOfSlice(data, i, n, |x| + |y|, n);
  }

  /** A length prefix written at `k` reads back as the bounds of a payload of that length. */
  lemma ReadDelimitedWritten(data: Bytes, k: nat, length: nat)
    requires k + |VarintBytes(length)| + length <= |data| < TwoTo63
    requires data[k..k + |VarintBytes(length)|] == VarintBytes(length)
    ensures ReadDelimited(data, k) == Success((k + |VarintBytes(length)|, k + |VarintBytes(length)| + length))
  {
    ReadVarintWritten(data, k, length);
  }

  /** A delimited field written at `i` reads back as its tag, then the bounds of its payload. */
  lemma DelimitedAt(data: Bytes, i: nat, tag: byte, payload: Bytes)
    requires tag < 0x80
    requires i + |Delimited(tag, payload)| <= |data| < TwoTo63
    requires data[i..i + |Delimited(tag, payload)|] == Delimited(tag, payload)
    ensures ReadVarint(data, i) == Success((tag as uint64, i + 1))
    ensures ReadDelimited(data, i + 1)
      == Success((i + 1 + |VarintBytes(|payload|)|, i + |Delimited(tag, payload)|))
    ensures data[i + 1 + |VarintBytes(|payload|)|..i + |Delimited(tag, payload)|] == payload
  {
    var v := VarintBytes(|payload|);
    assert Delimited(tag, payload) == [tag] + v + payload;
    ThreeSlices(data, i, [tag], v, payload);
    assert data[i] == tag by {
      assert data[i..i + 1][0] == data[i];
    }
    ReadTagByte(data, i, tag);
    ReadDelimitedWritten(data, i + 1, |payload|);
  }

  /** The loop's step: where a field decodes, the rest of the decoding goes on after it. */
  lemma DecodeStep(data: Bytes, i: nat, m: GenesisState, dec: NestedDecoders, next: nat, m': GenesisState)
    requires Field(data, i, m, dec) == Success((next, m'))
    ensures DecodeFrom(data, i, m, dec) == DecodeFrom(data, next, m', dec)
  {
  }

  /** After a one-byte tag, the field is decoded from the next index. */
  lemma FieldAfterTag(data: Bytes, i: nat, m: GenesisState, dec: NestedDecoders, tag: byte)
    requires ReadVarint(data, i) == Success((tag as uint64, i + 1))
    ensures Field(data, i, m, dec) == FieldBody(data, i, i + 1, tag as uint64, m, dec)
  {
  }

  /** The tags of fields 1, 2 and 3 with wire type 2 lead to a delimited field of that number. */
  lemma DelimitedTag(data: Bytes, i: nat, k: nat, m: GenesisState, dec: NestedDecoders, tag: byte)
    requires tag == TagParams || tag == TagPortId || tag == TagVoterRole
    requires i < k <= |data|
    ensures 1 <= tag as int / 8 <= 3
    ensures FieldBody(data, i, k, tag as uint64, m, dec) == DelimitedField(data, k, tag as int / 8, WireBytes, m, dec)
  {
  }

  /** A delimited field whose payload merges into the message ends where its payload ends. */
  lemma DelimitedFieldRead(data: Bytes, k: nat, fieldNum: int, m: GenesisState, dec: NestedDecoders, start: nat, post: nat, m': GenesisState)
    requires 1 <= fieldNum <= 3
    requires ReadDelimited(data, k) == Success((start, post))
    requires Merge(fieldNum, data[start..post], m, dec) == Success(m')
    ensures DelimitedField(data, k, fieldNum, WireBytes, m, dec) == Success((post, m'))
  {
  }

  /** A field read as a one-byte delimited tag, then payload bounds whose bytes merge into the message. */
  lemma FieldFromReads(data: Bytes, i: nat, m: GenesisState, dec: NestedDecoders, tag: byte, start: nat, post: nat, m': GenesisState)
    requires tag == TagParams || tag == TagPortId || tag == TagVoterRole
    requires ReadVarint(data, i) == Success((tag as uint64, i + 1))
    requires ReadDelimited(data, i + 1) == Success((start, post))
    requires 1 <= tag as int / 8 <= 3 && Merge(tag as int / 8, data[start..post], m, dec) == Success(m')
    ensures Field(data, i, m, dec) == Success((post, m'))
  {
    FieldAfterTag(data, i, m, dec, tag);
    DelimitedTag(data, i, i + 1, m, dec, tag);
    DelimitedFieldRead(data, i + 1, tag as int / 8, m, dec, start, post, m');
  }

  /** A delimited field of number 1, 2 or 3 written at `i` merges its payload into the message. */
  lemma FieldDelimited(data: Bytes, i: nat, m: GenesisState, dec: NestedDecoders, tag: byte, payload: Bytes, m': GenesisState)
    requires tag == TagParams || tag == TagPortId || tag == TagVoterRole
    requires i + |Delimited(tag, payload)| <= |data| < TwoTo63
    requires data[i..i + |Delimited(tag, payload)|] == Delimited(tag, payload)
    requires 1 <= tag as int / 8 <= 3 && Merge(tag as int / 8, payload, m, dec) == Success(m')
    ensures Field(data, i, m, dec) == Success((i + |Delimited(tag, payload)|, m'))
  {
    var start := i + 1 + |VarintBytes(|payload|)|;
    var post := i + |Delimited(tag, payload)|;
    DelimitedAt(data, i, tag, payload);
    FieldFromReads(data, i, m, dec, tag, start, post, m');
  }

  /** A Params field merges its payload into the message's Params. */
  lemma FieldParams(data: Bytes, i: nat, m: GenesisState, dec: NestedDecoders, payload: Bytes, p: Params)
    requires i + |Delimited(TagParams, payload)| <= |data| < TwoTo63
    requires data[i..i + |Delimited(TagParams, payload)|] == Delimited(TagParams, payload)
    requires dec.params(m.params, payload) == Success(p)
    ensures Field(data, i, m, dec) == Success((i + |Delimited(TagParams, payload)|, m.(params := p)))
  {
    FieldDelimited(data, i, m, dec, TagParams, payload, m.(params := p));
  }

  /** A PortId field replaces the message's PortId with its payload. */
  lemma FieldPort(data: Bytes, i: nat, m: GenesisState, dec: NestedDecoders, port: Bytes)
    requires i + |Delimited(TagPortId, port)| <= |data| < TwoTo63
    requires data[i..i + |Delimited(TagPortId, port)|] == Delimited(TagPortId, port)
    ensures Field(data, i, m, dec) == Success((i + |Delimited(TagPortId, port)|, m.(portId := port)))
  {
    FieldDelimited(data, i, m, dec, TagPortId, port, m.(portId := port));
  }

  /** One VoterRole field appends the role its payload decodes to. */
  lemma FieldRole(data: Bytes, i: nat, m: GenesisState, dec: NestedDecoders, payload: Bytes, role: VoterRole)
    requires i + |Delimited(TagVoterRole, payload)| <= |data| < TwoTo63
    requires data[i..i + |Delimited(TagVoterRole, payload)|] == Delimited(TagVoterRole, payload)
    requires dec.role(payload) == Success(role)
    ensures Field(data, i, m, dec)
      == Success((i + |Delimited(TagVoterRole, payload)|, m.(voterRoleList := m.voterRoleList + [role])))
  {
    FieldDelimited(data, i, m, dec, TagVoterRole, payload, m.(voterRoleList := m.voterRoleList + [role]));
  }

  lemma AppendFirst<T>(a: seq<T>, rs: seq<T>)
    requires rs != []
    ensures a + [rs[0]] + rs[1..] == a + rs
  {
    assert [rs[0]] + rs[1..] == rs;
    assert a + [rs[0]] + rs[1..] == a + ([rs[0]] + rs[1..]);
  }

  /** The repeated VoterRole field is its first entry, then the entries of the rest. */
  lemma RolesSplit(data: Bytes, i: nat, e: nat, enc: NestedEncoders, rs: seq<VoterRole>)
    requires rs != []
    requires e == i + |RolesBytes(enc, rs)| <= |data|
    requires data[i..e] == RolesBytes(enc, rs)
    ensures var d := Delimited(TagVoterRole, enc.role(rs[0]));
      i + |d| + |RolesBytes(enc, rs[1..])| == e
      && data[i..i + |d|] == d
      && data[i + |d|..e] == RolesBytes(enc, rs[1..])
  {
    var d := Delimited(TagVoterRole, enc.role(rs[0]));
    var rest := RolesBytes(enc, rs[1..]);
    assert RolesBytes(enc, rs) == d + rest + [];
    ThreeSlices(data, i, d, rest, []);
  }

  /**
   * The repeated VoterRole field as the encoder writes it appends its roles
   * in order: decoding from its start is decoding from its end `e` with the
   * roles appended, `m'`.
   */
  lemma {:induction false} DecodeRoles(data: Bytes, i: nat, m: GenesisState, enc: NestedEncoders, dec: NestedDecoders,
                                       rs: seq<VoterRole>, e: nat, m': GenesisState)
    requires forall r :: dec.role(enc.role(r)) == Success(r)
    requires e == i + |RolesBytes(enc, rs)| && m' == m.(voterRoleList := m.voterRoleList + rs)
    requires e <= |data| < TwoTo63
    requires data[i..e] == RolesBytes(enc, rs)
    ensures DecodeFrom(data, i, m, dec) == DecodeFrom(data, e, m', dec)
    decreases |rs|
  {
    if rs == [] {
      assert m.voterRoleList + rs == m.voterRoleList;
    } else {
      var j := i + |Delimited(TagVoterRole, enc.role(rs[0]))|;
      var m1 := m.(voterRoleList := m.voterRoleList + [rs[0]]);
      RolesSplit(data, i, e, enc, rs);
      FieldRole(data, i, m, dec, enc.role(rs[0]), rs[0]);
      DecodeStep(data, i, m, dec, j, m1);
      AppendFirst(m.voterRoleList, rs);
      DecodeRoles(data, j, m1, enc, dec, rs[1..], e, m');
    }
  }

  /** A VoterRoleCount field replaces the message's count. */
  lemma FieldCount(data: Bytes, i: nat, m: GenesisState, dec: NestedDecoders, count: uint64)
    requires i + 1 + |VarintBytes(count)| <= |data|
    requires data[i..i + 1 + |VarintBytes(count)|] == [TagVoterRoleCount] + VarintBytes(count)
    ensures Field(data, i, m, dec) == Success((i + 1 + |VarintBytes(count)|, m.(voterRoleCount := count)))
  {
    var n := |VarintBytes(count)|;
    ThreeSlices(data, i, [TagVoterRoleCount], VarintBytes(count), []);
    assert data[i] == TagVoterRoleCount by {
      assert data[i..i + 1][0] == data[i];
    }
    ReadTagByte(data, i, TagVoterRoleCount);
    ReadVarintWritten(data, i + 1, count);
    FieldCountFromReads(data, i, m, dec, count, i + 1 + n);
  }

  /** A field read as the VoterRoleCount tag, then a varint, replaces the count. */
  lemma FieldCountFromReads(data: Bytes, i: nat, m: GenesisState, dec: NestedDecoders, count: uint64, next: nat)
    requires ReadVarint(data, i) == Success((TagVoterRoleCount as uint64, i + 1))
    requires ReadVarint(data, i + 1) == Success((count, next))
    ensures Field(data, i, m, dec) == Success((next, m.(voterRoleCount := count)))
  {
    FieldAfterTag(data, i, m, dec, TagVoterRoleCount);
    assert FieldBody(data, i, i + 1, TagVoterRoleCount as uint64, m, dec) == CountField(data, i + 1, WireVarint, m);
  }

  lemma AppendToEmpty(m: GenesisState, rs: seq<VoterRole>)
    requires m.voterRoleList == []
    ensures m.(voterRoleList := m.voterRoleList + rs) == m.(voterRoleList := rs)
  {
    assert m.voterRoleList + rs == rs;
  }

  /** The four parts of a concatenation, each as a slice of it. */
  lemma Parts(a: Bytes, b: Bytes, c: Bytes, d: Bytes)
    ensures |a + b + c + d| == |a| + |b| + |c| + |d|
    ensures (a + b + c + d)[..|a|] == a
    ensures (a + b + c + d)[|a|..|a| + |b|] == b
    ensures (a + b + c + d)[|a| + |b|..|a| + |b| + |c|] == c
    ensures (a + b + c + d)[|a| + |b| + |c|..|a| + |b| + |c| + |d|] == d
  {
    var s := a + b + c + d;
    assert s == a + (b + (c + d));
    assert s[|a|..] == b + (c + d);
    assert s[|a| + |b|..] == c + d;
    assert s[|a| + |b| + |c|..] == d;
  }

  lemma DecodeSame(data: Bytes, i: nat, j: nat, m: GenesisState, m': GenesisState, dec: NestedDecoders)
    requires i == j && m == m'
    ensures DecodeFrom(data, i, m, dec) == DecodeFrom(data, j, m', dec)
  {
  }

  /** The count field, when the encoder writes one, is the last field and completes the message. */
  lemma DecodeCountTail(data: Bytes, i3: nat, gs: GenesisState, dec: NestedDecoders)
    requires (gs.voterRoleCount == 0 && i3 == |data|)
      || (i3 < |data| && Field(data, i3, gs.(voterRoleCount := 0), dec) == Success((|data|, gs)))
    ensures DecodeFrom(data, i3, gs.(voterRoleCount := 0), dec) == Success(gs)
  {
    if gs.voterRoleCount == 0 && i3 == |data| {
      assert gs.(voterRoleCount := 0) == gs;
    } else {
      DecodeStep(data, i3, gs.(voterRoleCount := 0), dec, |data|, gs);
    }
  }

  /**
   * The Params field, then the PortId field unless the PortId is empty,
   * lead on to the rest of the fields, which complete the message.
   */
  lemma DecodeHead(data: Bytes, gs: GenesisState, dec: NestedDecoders, i1: nat, i2: nat)
    requires Field(data, 0, EmptyGenesis, dec) == Success((i1, EmptyGenesis.(params := gs.params)))
    requires (gs.portId == [] && i2 == i1)
      || Field(data, i1, EmptyGenesis.(params := gs.params), dec)
         == Success((i2, EmptyGenesis.(params := gs.params, portId := gs.portId)))
    requires DecodeFrom(data, i2, EmptyGenesis.(params := gs.params, portId := gs.portId), dec) == Success(gs)
    ensures DecodeFrom(data, 0, EmptyGenesis, dec) == Success(gs)
  {
    var m1 := EmptyGenesis.(params := gs.params);
    var m2 := EmptyGenesis.(params := gs.params, portId := gs.portId);
    if gs.portId == [] && i2 == i1 {
      DecodeSame(data, i1, i2, m1, m2, dec);
    } else {
      DecodeStep(data, i1, m1, dec, i2, m2);
    }
    DecodeStep(data, 0, EmptyGenesis, dec, i1, m1);
  }

  /** The Params field the encoder writes first sets the Params of the zero message. */
  lemma EncodedParams(data: Bytes, gs: GenesisState, enc: NestedEncoders, dec: NestedDecoders, i1: nat)
    requires i1 == |Delimited(TagParams, enc.params(gs.params))|
    requires i1 <= |data| < TwoTo63
    requires data[0..i1] == Delimited(TagParams, enc.params(gs.params))
    requires dec.params(EmptyGenesis.params, enc.params(gs.params)) == Success(gs.params)
    ensures Field(data, 0, EmptyGenesis, dec) == Success((i1, EmptyGenesis.(params := gs.params)))
  {
    FieldParams(data, 0, EmptyGenesis, dec, enc.params(gs.params), gs.params);
  }

  /** The PortId bytes the encoder writes: nothing for an empty PortId, else one field that sets it. */
  lemma EncodedPort(data: Bytes, gs: GenesisState, dec: NestedDecoders, i1: nat, i2: nat)
    requires i2 == i1 + |PortBytes(gs.portId)|
    requires i2 <= |data| < TwoTo63
    requires data[i1..i2] == PortBytes(gs.portId)
    ensures (gs.portId == [] && i2 == i1)
      || Field(data, i1, EmptyGenesis.(params := gs.params), dec)
         == Success((i2, EmptyGenesis.(params := gs.params, portId := gs.portId)))
  {
    if gs.portId != [] {
      FieldPort(data, i1, EmptyGenesis.(params := gs.params), dec, gs.portId);
    }
  }

  /** The count bytes the encoder writes last: nothing for a zero count, else one field that sets it. */
  lemma EncodedCount(data: Bytes, i3: nat, gs: GenesisState, dec: NestedDecoders)
    requires i3 + |CountBytes(gs.voterRoleCount)| == |data|
    requires data[i3..i3 + |CountBytes(gs.voterRoleCount)|] == CountBytes(gs.voterRoleCount)
    ensures (gs.voterRoleCount == 0 && i3 == |data|)
      || (i3 < |data| && Field(data, i3, gs.(voterRoleCount := 0), dec) == Success((|data|, gs)))
  {
    if gs.voterRoleCount != 0 {
      FieldCount(data, i3, gs.(voterRoleCount := 0), dec, gs.voterRoleCount);
    }
  }

  /** The encoding is the Params field, then the PortId, role and count bytes. */
  lemma EncodeLayout(gs: GenesisState, enc: NestedEncoders, data: Bytes, i1: nat, i2: nat, i3: nat)
    requires data == Encode(gs, enc)
    requires i1 == |Delimited(TagParams, enc.params(gs.params))|
    requires i2 == i1 + |PortBytes(gs.portId)|
    requires i3 == i2 + |RolesBytes(enc, gs.voterRoleList)|
    ensures i3 + |CountBytes(gs.voterRoleCount)| == |data|
    ensures data[0..i1] == Delimited(TagParams, enc.params(gs.params))
    ensures data[i1..i2] == PortBytes(gs.portId)
    ensures data[i2..i3] == RolesBytes(enc, gs.voterRoleList)
    ensures data[i3..|data|] == CountBytes(gs.voterRoleCount)
  {
    var a := Delimited(TagParams, enc.params(gs.params));
    var b := PortBytes(gs.portId);
    var c := RolesBytes(enc, gs.voterRoleList);
    var d := CountBytes(gs.voterRoleCount);
    assert data == a + b + c + d;
    Parts(a, b, c, d);
  }

  /** The role and count bytes the encoder writes complete a message holding the Params and PortId. */
  lemma TailLaidOut(data: Bytes, gs: GenesisState, enc: NestedEncoders, dec: NestedDecoders, i2: nat, i3: nat)
    requires forall r :: dec.role(enc.role(r)) == Success(r)
    requires |data| < TwoTo63
    requires i3 == i2 + |RolesBytes(enc, gs.voterRoleList)|
    requires i3 + |CountBytes(gs.voterRoleCount)| == |data|
    requires data[i2..i3] == RolesBytes(enc, gs.voterRoleList)
    requires data[i3..|data|] == CountBytes(gs.voterRoleCount)
    ensures DecodeFrom(data, i2, EmptyGenesis.(params := gs.params, portId := gs.portId), dec) == Success(gs)
  {
    var m2 := EmptyGenesis.(params := gs.params, portId := gs.portId);
    AppendToEmpty(m2, gs.voterRoleList);
    DecodeRoles(data, i2, m2, enc, dec, gs.voterRoleList, i3, gs.(voterRoleCount := 0));
    EncodedCount(data, i3, gs, dec);
    DecodeCountTail(data, i3, gs, dec);
  }

  /** Input laid out as the encoder lays out `gs` decodes, from the zero message, to `gs`. */
  lemma DecodeLaidOut(data: Bytes, gs: GenesisState, enc: NestedEncoders, dec: NestedDecoders, i1: nat, i2: nat, i3: nat)
    requires dec.params(EmptyGenesis.params, enc.params(gs.params)) == Success(gs.params)
    requires forall r :: dec.role(enc.role(r)) == Success(r)
    requires |data| < TwoTo63
    requires i1 == |Delimited(TagParams, enc.params(gs.params))|
    requires i2 == i1 + |PortBytes(gs.portId)|
    requires i3 == i2 + |RolesBytes(enc, gs.voterRoleList)|
    requires i3 + |CountBytes(gs.voterRoleCount)| == |data|
    requires data[0..i1] == Delimited(TagParams, enc.params(gs.params))
    requires data[i1..i2] == PortBytes(gs.portId)
    requires data[i2..i3] == RolesBytes(enc, gs.voterRoleList)
    requires data[i3..|data|] == CountBytes(gs.voterRoleCount)
    ensures DecodeFrom(data, 0, EmptyGenesis, dec) == Success(gs)
  {
    EncodedParams(data, gs, enc, dec, i1);
    EncodedPort(data, gs, dec, i1, i2);
    TailLaidOut(data, gs, enc, dec, i2, i3);
    DecodeHead(data, gs, dec, i1, i2);
  }

  /**
   * Decoding an encoding into the zero message gives back the genesis state,
   * provided the nested messages round-trip through their own codecs and
   * the encoding is shorter than Go's largest int.
   */
  lemma DecodeEncode(gs: GenesisState, enc: NestedEncoders, dec: NestedDecoders)
    requires dec.params(EmptyGenesis.params, enc.params(gs.params)) == Success(gs.params)
    requires forall r :: dec.role(enc.role(r)) == Success(r)
    requires |Encode(gs, enc)| < TwoTo63
    ensures DecodeFrom(Encode(gs, enc), 0, EmptyGenesis, dec) == Success(gs)
  {
    var data := Encode(gs, enc);
    var i1 := |Delimited(TagParams, enc.params(gs.params))|;
    var i2 := i1 + |PortBytes(gs.portId)|;
    var i3 := i2 + |RolesBytes(enc, gs.voterRoleList)|;
    EncodeLayout(gs, enc, data, i1, i2, i3);
    DecodeLaidOut(data, gs, enc, dec, i1, i2, i3);
  }

  /** PortId is a scalar field: of two PortId fields, the last one wins. */
  lemma PortIdLastWins(m: GenesisState, dec: NestedDecoders, first: Bytes, second: Bytes)
    requires |Delimited(TagPortId, first) + Delimited(TagPortId, second)| < TwoTo63
    ensures DecodeFrom(Delimited(TagPortId, first) + Delimited(TagPortId, second), 0, m, dec)
      == Success(m.(portId := second))
  {
    var x := Delimited(TagPortId, first);
    var y := Delimited(TagPortId, second);
    var data := x + y;
    assert data[..|x|] == x;
    FieldPort(data, 0, m, dec, first);
    DecodeStep(data, 0, m, dec, |x|, m.(portId := first));
    assert data[|x|..|x| + |y|] == y;
    FieldPort(data, |x|, m.(portId := first), dec, second);
    DecodeStep(data, |x|, m.(portId := first), dec, |data|, m.(portId := second));
  }

  /** A varint field of a number the message does not have is stepped over and leaves the message as it was. */
  lemma UnknownVarintFieldIsSkipped(m: GenesisState, dec: NestedDecoders, v: uint64)
    ensures DecodeFrom([0x28] + VarintBytes(v), 0, m, dec) == Success(m)
  {
    var data := [0x28] + VarintBytes(v);
    ReadTagByte(data, 0, 0x28);
    assert VarintBytes(0x28) == [0x28];
    assert data[..1] == VarintBytes(0x28);
    assert data[1..1 + |VarintBytes(v)|] == VarintBytes(v);
    SkipVarintField(data, 0x28, v);
    assert data[0..] == data;
  }

  /** An end-group tag where a field should start is rejected. */
  lemma EndGroupTagRejected(data: Bytes, i: nat, m: GenesisState, dec: NestedDecoders)
    requires i < |data| && data[i] == 0x0c
    ensures DecodeFrom(data, i, m, dec) == Failure(WireTypeEndGroup)
  {
    ReadTagByte(data, i, 0x0c);
  }

  /** Field number 0 is not a field. */
  lemma FieldZeroRejected(data: Bytes, i: nat, m: GenesisState, dec: NestedDecoders)
    requires i < |data| && data[i] == 0x02
    ensures DecodeFrom(data, i, m, dec) == Failure(IllegalTag(0, 2))
  {
    ReadTagByte(data, i, 0x02);
  }

  /** Params sent as a varint instead of a delimited message are rejected. */
  lemma ParamsAsVarintRejected(data: Bytes, i: nat, m: GenesisState, dec: NestedDecoders)
    requires i < |data| && data[i] == 0x08
    ensures DecodeFrom(data, i, m, dec) == Failure(WrongWireType(1, 0))
  {
    ReadTagByte(data, i, 0x08);
  }
}
