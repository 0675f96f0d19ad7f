/**
 * The generated GenesisState encoder. `Encode` is the byte string the
 * encoder produces: Params (field 1) always, PortId (field 2) when not
 * empty, one VoterRole (field 3) per list entry, and VoterRoleCount (field 4)
 * when not zero, in that order. `MarshalToSizedBuffer` fills a buffer from its
 * end towards its start, the last field first, and `Size` predicts the length.
 */
module GenesisMarshal {
  import opened VotingTypes
  import opened GenesisWire

  /** The nested messages' own encoders; their Size is the length of what they produce. */
  datatype NestedEncoders = NestedEncoders(params: Params -> Bytes, role: VoterRole -> Bytes)

  const TagParams: byte := 0x0a
  const TagPortId: byte := 0x12
  const TagVoterRole: byte := 0x1a
  const TagVoterRoleCount: byte := 0x20

  /** A length-delimited field: its tag, the payload's length as a varint, the payload. */
  function Delimited(tag: byte, payload: Bytes): (bs: Bytes)
    ensures |bs| == 1 + Sov(|payload|) + |payload|
  {
    SovIsVarintLength(|payload|);
    [tag] + VarintBytes(|payload|) + payload
  }

  /** The repeated VoterRole field, one delimited entry per role, in list order. */
  function RolesBytes(enc: NestedEncoders, rs: seq<VoterRole>): Bytes {
    if rs == [] then [] else Delimited(TagVoterRole, enc.role(rs[0])) + RolesBytes(enc, rs[1..])
  }

  function PortBytes(portId: Bytes): Bytes {
    if |portId| > 0 then Delimited(TagPortId, portId) else []
  }

  function CountBytes(count: uint64): Bytes {
    if count != 0 then [TagVoterRoleCount] + VarintBytes(count) else []
  }

  /** The encoding of a genesis state, fields in number order. */
  function Encode(gs: GenesisState, enc: NestedEncoders): Bytes {
    Delimited(TagParams, enc.params(gs.params)) + PortBytes(gs.portId)
    + RolesBytes(enc, gs.voterRoleList) + CountBytes(gs.voterRoleCount)
  }

  lemma {:induction false} RolesBytesAppend(enc: NestedEncoders, a: seq<VoterRole>, b: seq<VoterRole>)
    ensures RolesBytes(enc, a + b) == RolesBytes(enc, a) + RolesBytes(enc, b)
    decreases |a|
  {
    if a == [] {
      assert a + b == b;
    } else {
      assert (a + b)[1..] == a[1..] + b;
      RolesBytesAppend(enc, a[1..], b);
    }
  }

  /** The loop of Size over the role list: one delimited entry per role. */
  method RolesSize(enc: NestedEncoders, rs: seq<VoterRole>) returns (n: nat)
    ensures n == |RolesBytes(enc, rs)|
  {
    n := 0;
    var k := 0;
    while k < |rs|
      invariant 0 <= k <= |rs|
      invariant n == |RolesBytes(enc, rs[..k])|
    {
      var l := |enc.role(rs[k])|;
      n := n + 1 + l + Sov(l);
      RolesSplit(enc, rs, k);
      k := k + 1;
    }
    assert rs[..k] == rs;
  }

  /**
   * Size: the length of the encoding, summed field by field (a tag byte, the
   * length varint and the payload for each delimited field).
   */
  method Size(gs: GenesisState, enc: NestedEncoders) returns (n: nat)
    ensures n == |Encode(gs, enc)|
  {
    var l := |enc.params(gs.params)|;
    n := 1 + l + Sov(l);
    l := |gs.portId|;
    if l > 0 {
      n := n + 1 + l + Sov(l);
    }
    var rolesSize := RolesSize(enc, gs.voterRoleList);
    n := n + rolesSize;
    if gs.voterRoleCount != 0 {
      SovIsVarintLength(gs.voterRoleCount);
      n := n + 1 + Sov(gs.voterRoleCount);
    }
  }

  /** Prepending `w` just before a suffix `s` already written at the end of the buffer. */
  lemma Prepend(orig: seq<byte>, cur: seq<byte>, next: seq<byte>, i: nat, j: nat, w: seq<byte>, s: seq<byte>)
    requires j <= i <= |orig| && cur == orig[..i] + s
    requires j <= |cur| && i <= |cur| && next == cur[..j] + w + cur[i..]
    ensures next == orig[..j] + (w + s)
  {
    assert cur[..j] == orig[..j];
    assert cur[i..] == s;
  }

  /** Go's copy of `p` into the `|p|` bytes ending just before `i`. */
  method CopyBefore(buf: array<byte>, i: int, p: Bytes) returns (j: int)
    requires |p| <= i <= buf.Length
    modifies buf
    ensures j == i - |p|
    ensures buf[..] == old(buf[..j]) + p + old(buf[i..])
  {
    j := i - |p|;
    forall k | j <= k < i {
      buf[k] := p[k - j];
    }
    assert buf[..] == old(buf[..j]) + p + old(buf[i..]) by {
      assert forall k :: 0 <= k < j ==> buf[k] == old(buf[k]);
      assert forall k :: i <= k < buf.Length ==> buf[k] == old(buf[k]);
    }
  }

  /** Writing a byte just before a suffix `t` already written after `m`. */
  lemma ByteBefore(s0: seq<byte>, s1: seq<byte>, s2: seq<byte>, m: nat, c: byte, t: seq<byte>)
    requires m < |s0| && s1 == s0[..m + 1] + t && s2 == s1[m := c]
    ensures s2 == s0[..m] + ([c] + t)
  {
    assert s1[..m] == s0[..m];
  }

  /** The three writes of a delimited field, payload first, compose into the field. */
  lemma DelimitedLayers(s0: seq<byte>, s1: seq<byte>, s2: seq<byte>, s3: seq<byte>,
                        i: nat, k: nat, m: nat, tag: byte, payload: Bytes)
    requires k == i - |payload| && m + 1 + |VarintBytes(|payload|)| == k && i <= |s0|
    requires s1 == s0[..k] + payload + s0[i..]
    requires s2 == s1[..m + 1] + VarintBytes(|payload|) + s1[k..]
    requires s3 == s2[m := tag]
    ensures s3 == s0[..m] + Delimited(tag, payload) + s0[i..]
  {
    var v := VarintBytes(|payload|);
    var rest := payload + s0[i..];
    assert s1 == s0[..k] + rest;
    Prepend(s0, s1, s2, k, m + 1, v, rest);
    ByteBefore(s0, s2, s3, m, tag, v + rest);
    assert [tag] + (v + rest) == Delimited(tag, payload) + s0[i..];
  }

  /** Writes a whole delimited field so that it ends just before `i`: payload, then its length, then the tag. */
  method WriteDelimited(buf: array<byte>, i: int, tag: byte, payload: Bytes) returns (j: int)
    requires |Delimited(tag, payload)| <= i <= buf.Length < TwoTo63
    modifies buf
    ensures j == i - |Delimited(tag, payload)|
    ensures buf[..] == old(buf[..j]) + Delimited(tag, payload) + old(buf[i..])
  {
    SovIsVarintLength(|payload|);
    ghost var s0 := buf[..];
    var k := CopyBefore(buf, i, payload);
    ghost var s1 := buf[..];
    var m := EncodeVarint(buf, k, |payload|);
    ghost var s2 := buf[..];
    m := m - 1;
    buf[m] := tag;
    DelimitedLayers(s0, s1, s2, buf[..], i, k, m, tag, payload);
    j := m;
  }

  /** One step of the backwards walk over the roles: the entry at `k` goes just before those after it. */
  lemma RolesStep(enc: NestedEncoders, rs: seq<VoterRole>, k: nat, orig: seq<byte>, cur: seq<byte>, next: seq<byte>,
                  i: nat, j: nat, j': nat)
    requires k < |rs| && i <= |orig| && j <= i && j' <= j && j <= |cur|
    requires j == i - |RolesBytes(enc, rs[k + 1..])|
    requires j' == j - |Delimited(TagVoterRole, enc.role(rs[k]))|
    requires cur == orig[..j] + (RolesBytes(enc, rs[k + 1..]) + orig[i..])
    requires next == cur[..j'] + Delimited(TagVoterRole, enc.role(rs[k])) + cur[j..]
    ensures j' == i - |RolesBytes(enc, rs[k..])|
    ensures next == orig[..j'] + (RolesBytes(enc, rs[k..]) + orig[i..])
  {
    assert rs[k..][1..] == rs[k + 1..];
    Prepend(orig, cur, next, j, j', Delimited(TagVoterRole, enc.role(rs[k])), RolesBytes(enc, rs[k + 1..]) + orig[i..]);
  }

  /** The bytes of the first `k` roles and of the rest make up the whole field. */
  lemma RolesSplit(enc: NestedEncoders, rs: seq<VoterRole>, k: nat)
    requires k < |rs|
    ensures |RolesBytes(enc, rs[..k + 1])| == |RolesBytes(enc, rs[..k])| + |Delimited(TagVoterRole, enc.role(rs[k]))|
  {
    assert rs[..k + 1] == rs[..k] + [rs[k]];
    RolesBytesAppend(enc, rs[..k], [rs[k]]);
  }

  /** The repeated VoterRole field, written last entry first so that the entries end up in list order. */
  method WriteRoles(buf: array<byte>, i: int, enc: NestedEncoders, rs: seq<VoterRole>) returns (j: int)
    requires |RolesBytes(enc, rs)| <= i <= buf.Length < TwoTo63
    modifies buf
    ensures j == i - |RolesBytes(enc, rs)|
    ensures buf[..] == old(buf[..j]) + RolesBytes(enc, rs) + old(buf[i..])
  {
    ghost var orig := buf[..];
    j := i;
    var k := |rs|;
    assert rs[..k] == rs && rs[k..] == [];
    assert buf[..] == orig[..j] + (RolesBytes(enc, rs[k..]) + orig[i..]);
    while k > 0
      invariant 0 <= k <= |rs|
      invariant j == i - |RolesBytes(enc, rs[k..])|
      invariant j >= |RolesBytes(enc, rs[..k])|
      invariant buf[..] == orig[..j] + (RolesBytes(enc, rs[k..]) + orig[i..])
    {
      k := k - 1;
      RolesSplit(enc, rs, k);
      ghost var cur := buf[..];
      var j' := WriteDelimited(buf, j, TagVoterRole, enc.role(rs[k]));
      RolesStep(enc, rs, k, orig, cur, buf[..], i, j, j');
      j := j';
    }
    assert rs[0..] == rs;
  }

  /** The VoterRoleCount field, written only when the count is not zero. */
  method WriteCount(buf: array<byte>, i: int, count: uint64) returns (j: int)
    requires |CountBytes(count)| <= i <= buf.Length
    modifies buf
    ensures j == i - |CountBytes(count)|
    ensures buf[..] == old(buf[..j]) + CountBytes(count) + old(buf[i..])
  {
    j := i;
    if count != 0 {
      SovIsVarintLength(count);
      ghost var s0 := buf[..];
      var m := EncodeVarint(buf, i, count);
      ghost var s1 := buf[..];
      m := m - 1;
      buf[m] := TagVoterRoleCount;
      ByteBefore(s0, s1, buf[..], m, TagVoterRoleCount, VarintBytes(count) + s0[i..]);
      j := m;
    }
  }

  /** The PortId field, written only when the identifier is not empty. */
  method WritePort(buf: array<byte>, i: int, portId: Bytes) returns (j: int)
    requires |PortBytes(portId)| <= i <= buf.Length < TwoTo63
    modifies buf
    ensures j == i - |PortBytes(portId)|
    ensures buf[..] == old(buf[..j]) + PortBytes(portId) + old(buf[i..])
  {
    j := i;
    if |portId| > 0 {
      j := WriteDelimited(buf, i, TagPortId, portId);
    }
  }

  /** The four fields' writes, last field first, compose into the whole encoding. */
  lemma MarshalLayers(s0: seq<byte>, s1: seq<byte>, s2: seq<byte>, s3: seq<byte>, s4: seq<byte>,
                      i0: nat, i1: nat, i2: nat, i3: nat, i4: nat, a: Bytes, b: Bytes, c: Bytes, d: Bytes)
    requires i4 <= i3 <= i2 <= i1 <= i0 == |s0|
    requires s1 == s0[..i1] + d + s0[i0..]
    requires s2 == s1[..i2] + c + s1[i1..]
    requires s3 == s2[..i3] + b + s2[i2..]
    requires s4 == s3[..i4] + a + s3[i3..]
    ensures s4 == s0[..i4] + (a + b + c + d)
  {
    Prepend(s0, s1, s2, i1, i2, c, d);
    Prepend(s0, s2, s3, i2, i3, b, c + d);
    Prepend(s0, s3, s4, i3, i4, a, b + (c + d));
  }

  /**
   * MarshalToSizedBuffer: writes the encoding into the end of `buf`, last
   * field first, leaves the bytes before it alone, and returns its length.
   */
  method MarshalToSizedBuffer(gs: GenesisState, enc: NestedEncoders, buf: array<byte>) returns (n: int)
    requires |Encode(gs, enc)| <= buf.Length < TwoTo63
    modifies buf
    ensures n == |Encode(gs, enc)|
    ensures buf[..] == old(buf[..buf.Length - n]) + Encode(gs, enc)
  {
    ghost var s0 := buf[..];
    var i0 := buf.Length;
    var i1 := WriteCount(buf, i0, gs.voterRoleCount);
    ghost var s1 := buf[..];
    var i2 := WriteRoles(buf, i1, enc, gs.voterRoleList);
    ghost var s2 := buf[..];
    var i3 := WritePort(buf, i2, gs.portId);
    ghost var s3 := buf[..];
    var i4 := WriteDelimited(buf, i3, TagParams, enc.params(gs.params));
    MarshalLayers(s0, s1, s2, s3, buf[..], i0, i1, i2, i3, i4,
                  Delimited(TagParams, enc.params(gs.params)), PortBytes(gs.portId),
                  RolesBytes(enc, gs.voterRoleList), CountBytes(gs.voterRoleCount));
    n := buf.Length - i4;
  }

  /** Marshal: a buffer of exactly `Size` bytes, filled by MarshalToSizedBuffer. */
  method Marshal(gs: GenesisState, enc: NestedEncoders) returns (data: Bytes)
    requires |Encode(gs, enc)| < TwoTo63
    ensures data == Encode(gs, enc)
  {
    var size := Size(gs, enc);
    var buf := new byte[size];
    var n := MarshalToSizedBuffer(gs, enc, buf);
    data := buf[..n];
  }
}
