/**
 * The wire-level pieces of the generated GenesisState codec: the base-128
 * varint (section "Base 128 Varints" of the Protocol Buffers encoding), its
 * length `sovGenesis`, the backwards varint writer and the varint reader the
 * decoder inlines at every field, and the codec's error kinds.
 */
module GenesisWire {
  import opened Wrappers
  import opened VotingTypes

  datatype CodecError =
    | IntOverflow                                 // ErrIntOverflowGenesis
    | UnexpectedEOF                               // io.ErrUnexpectedEOF
    | InvalidLength                               // ErrInvalidLengthGenesis
    | UnexpectedEndOfGroup                        // ErrUnexpectedEndOfGroupGenesis
    | WireTypeEndGroup                            // an end-group tag where a field was expected
    | IllegalTag(fieldNum: int, wire: uint64)
    | WrongWireType(field: int, wireType: int)
    | IllegalWireType(wireType: int)
    | NestedFailed(reason: string)                // a nested message's decoder failed

  function Pow2(n: nat): (p: nat)
    ensures p >= 1
  {
    if n == 0 then 1 else 2 * Pow2(n - 1)
  }

  lemma Pow2Plus7(n: nat)
    ensures Pow2(n + 7) == 128 * Pow2(n)
  {
    assert Pow2(n + 7) == 2 * Pow2(n + 6);
    assert Pow2(n + 6) == 2 * Pow2(n + 5);
    assert Pow2(n + 5) == 2 * Pow2(n + 4);
    assert Pow2(n + 4) == 2 * Pow2(n + 3);
    assert Pow2(n + 3) == 2 * Pow2(n + 2);
  }

  lemma {:induction false} Pow2Add(a: nat, b: nat)
    ensures Pow2(a + b) == Pow2(a) * Pow2(b)
  {
    if b > 0 {
      Pow2Add(a, b - 1);
      assert Pow2(a + b) == 2 * Pow2(a + b - 1);
    }
  }

  lemma Pow2At64()
    ensures Pow2(64) == TwoTo64
  {
    Pow2Plus7(1);
    assert Pow2(1) == 2;
    assert Pow2(8) == 256;
    Pow2Add(8, 8);
    assert Pow2(16) == 0x1_0000;
    Pow2Add(16, 16);
    assert Pow2(32) == 0x1_0000_0000;
    Pow2Add(32, 32);
  }

  /** math/bits.Len64: the number of binary digits of `x`, 0 for 0. */
  function BitLen(x: nat): nat {
    if x == 0 then 0 else 1 + BitLen(x / 2)
  }

  /** `x | 1`. */
  function OrOne(x: nat): (y: nat)
    ensures y % 2 == 1 && (y == x || y == x + 1)
  {
    if x % 2 == 0 then x + 1 else x
  }

  /** sovGenesis: (Len64(x | 1) + 6) / 7. */
  function Sov(x: nat): nat {
    (BitLen(OrOne(x)) + 6) / 7
  }

  /** The varint encoding of `v`: low 7-bit groups first, every byte but the last with 0x80 set. */
  function VarintBytes(v: nat): (bs: seq<byte>)
    ensures |bs| >= 1
  {
    if v < 0x80 then [v] else [v % 0x80 + 0x80] + VarintBytes(v / 0x80)
  }

  /** Every byte of a varint but the last carries the continuation bit 0x80; the last does not. */
  lemma {:induction false} VarintBytesShape(v: nat)
    ensures VarintBytes(v)[|VarintBytes(v)| - 1] < 0x80
    ensures forall i :: 0 <= i < |VarintBytes(v)| - 1 ==> VarintBytes(v)[i] >= 0x80
    ensures v < 0x80 <==> |VarintBytes(v)| == 1
  {
    if v >= 0x80 {
      VarintBytesShape(v / 0x80);
      var bs := VarintBytes(v);
      var rest := VarintBytes(v / 0x80);
      assert forall i :: 1 <= i < |bs| ==> bs[i] == rest[i - 1];
    }
  }

  /** A varint of two or more bytes is its low group with the continuation bit, then the varint of the rest. */
  lemma VarintBytesUnfold(x: nat)
    requires x >= 0x80
    ensures VarintBytes(x)[0] == x % 0x80 + 0x80
    ensures VarintBytes(x)[1..] == VarintBytes(x / 0x80)
  {
  }

  /** `x` has at most `n` binary digits exactly when it is below 2^n. */
  lemma {:induction false} BitLenBelow(x: nat, n: nat)
    ensures BitLen(x) <= n <==> x < Pow2(n)
  {
    if x > 0 && n > 0 {
      BitLenBelow(x / 2, n - 1);
    }
  }

  /** The varint of `v` fits in `k` bytes exactly when `v` is below 2^(7k). */
  lemma {:induction false} VarintFitsBelow(v: nat, k: nat)
    requires k >= 1
    ensures |VarintBytes(v)| <= k <==> v < Pow2(7 * k)
  {
    Pow2Plus7(7 * (k - 1));
    if v >= 0x80 {
      if k == 1 {
        assert Pow2(7) == 128;
      } else {
        VarintFitsBelow(v / 0x80, k - 1);
      }
    } else {
      Pow2Monotone(7, 7 * k);
      assert Pow2(7) == 128;
    }
  }

  lemma {:induction false} Pow2Monotone(a: nat, b: nat)
    requires a <= b
    ensures Pow2(a) <= Pow2(b)
    decreases b
  {
    if a < b {
      Pow2Monotone(a, b - 1);
    }
  }

  /** Below a power of two of at least 2, `x` and `x | 1` are together. */
  lemma OrOneBelow(x: nat, n: nat)
    requires n >= 1
    ensures x < Pow2(n) <==> OrOne(x) < Pow2(n)
  {
    assert Pow2(n) == 2 * Pow2(n - 1);
  }

  /** sovGenesis is the length of the varint encoding. */
  lemma SovIsVarintLength(v: nat)
    ensures Sov(v) == |VarintBytes(v)|
  {
    var w := OrOne(v);
    var b := BitLen(w);
    var n1 := |VarintBytes(v)|;
    var n2 := Sov(v);
    assert b >= 1;
    assert n2 >= 1;
    BitLenBelow(w, 7 * n2);
    OrOneBelow(v, 7 * n2);
    VarintFitsBelow(v, n2);
    BitLenBelow(w, 7 * n1);
    OrOneBelow(v, 7 * n1);
    VarintFitsBelow(v, n1);
  }

  /** A uint64 takes between one and ten bytes. */
  lemma SovBounds(v: uint64)
    ensures 1 <= Sov(v) <= 10
  {
    SovIsVarintLength(v);
    Pow2At64();
    Pow2Monotone(64, 70);
    VarintFitsBelow(v, 10);
  }

  /**
   * encodeVarintGenesis: writes the varint of `v` into the `Sov(v)` bytes that
   * end just before `offset` and returns where it starts; nothing else changes.
   */
  method EncodeVarint(buf: array<byte>, offset: int, v: uint64) returns (base: int)
    requires Sov(v) <= offset <= buf.Length
    modifies buf
    ensures base == offset - Sov(v)
    ensures buf[..] == old(buf[..base]) + VarintBytes(v) + old(buf[offset..])
  {
    SovIsVarintLength(v);
    ghost var before := buf[..];
    ghost var bs := VarintBytes(v);
    var off := offset - Sov(v);
    base := off;
    var x: nat := v;
    while x >= 0x80
      invariant base <= off <= offset && off - base <= |bs|
      invariant bs[off - base..] == VarintBytes(x)
      invariant buf[..] == before[..base] + bs[..off - base] + before[off..]
      decreases x
    {
      assert bs[off + 1 - base..] == VarintBytes(x / 0x80) && bs[off - base] == x % 0x80 + 0x80 by {
        VarintBytesUnfold(x);
        assert bs[off + 1 - base..] == bs[off - base..][1..];
      }
      WriteOne(before, bs, base, off, x % 0x80 + 0x80);
      buf[off] := x % 0x80 + 0x80;
      x := x / 0x80;
      off := off + 1;
    }
    WriteOne(before, bs, base, off, x);
    buf[off] := x;
    assert bs[..off + 1 - base] == bs;
  }

  /** Writing the next byte of `bs` extends the written prefix by one. */
  lemma WriteOne(before: seq<byte>, bs: seq<byte>, base: nat, off: nat, c: byte)
    requires base <= off < |before| && off - base < |bs| && bs[off - base] == c
    ensures (before[..base] + bs[..off - base] + before[off..])[off := c] ==
            before[..base] + bs[..off + 1 - base] + before[off + 1..]
  {
    var lhs := (before[..base] + bs[..off - base] + before[off..])[off := c];
    var rhs := before[..base] + bs[..off + 1 - base] + before[off + 1..];
    assert |lhs| == |rhs|;
    forall j | 0 <= j < |lhs| ensures lhs[j] == rhs[j] {
      if j < base {
      } else if j <= off {
      } else {
      }
    }
  }

  /** `g << s` on unbounded integers. */
  function Shl(g: nat, s: nat): nat {
    if s == 0 then g else 2 * Shl(g, s - 1)
  }

  lemma {:induction false} ShlAdd(a: nat, b: nat, s: nat)
    ensures Shl(a + b, s) == Shl(a, s) + Shl(b, s)
  {
    if s > 0 { ShlAdd(a, b, s - 1); }
  }

  lemma {:induction false} ShlMonotone(a: nat, b: nat, s: nat)
    requires a <= b
    ensures Shl(a, s) <= Shl(b, s)
  {
    if s > 0 { ShlMonotone(a, b, s - 1); }
  }

  /** Shifting 128 times `q` by `s` is shifting `q` by `s + 7`. */
  lemma {:induction false} ShlBy7(q: nat, s: nat)
    ensures Shl(128 * q, s) == Shl(q, s + 7)
  {
    if s == 0 {
      assert Shl(q, 7) == 2 * Shl(q, 6);
      assert Shl(q, 6) == 2 * Shl(q, 5);
      assert Shl(q, 5) == 2 * Shl(q, 4);
      assert Shl(q, 4) == 2 * Shl(q, 3);
      assert Shl(q, 3) == 2 * Shl(q, 2);
      assert Shl(q, 2) == 2 * Shl(q, 1);
      assert Shl(q, 1) == 2 * Shl(q, 0);
    } else {
      ShlBy7(q, s - 1);
    }
  }

  lemma {:induction false} ShlOneIsPow2(s: nat)
    ensures Shl(1, s) == Pow2(s)
  {
    if s > 0 { ShlOneIsPow2(s - 1); }
  }

  /**
   * The varint reader, having consumed the groups before `data[i]` into `acc`
   * at bit offset `shift`. Each group lands on bits `acc` does not use yet, so
   * OR-ing it in is adding it; bits shifted past 64 are lost.
   */
  function ReadVarintFrom(data: Bytes, i: nat, shift: nat, acc: uint64): (r: Result<(uint64, nat), CodecError>)
    ensures r.Success? ==> i < r.value.1 <= |data|
    decreases 64 - shift
  {
    if shift >= 64 then Failure(IntOverflow)
    else if i >= |data| then Failure(UnexpectedEOF)
    else
      var b := data[i];
      var acc' := (acc + Shl(b % 0x80, shift)) % TwoTo64;
      if b < 0x80 then Success((acc', i + 1))
      else ReadVarintFrom(data, i + 1, shift + 7, acc')
  }

  /** The varint at `data[i]`: its value and the index just past it. */
  function ReadVarint(data: Bytes, i: nat): (r: Result<(uint64, nat), CodecError>)
    ensures r.Success? ==> i < r.value.1 <= |data|
  {
    ReadVarintFrom(data, i, 0, 0)
  }

  /** The varint loop the decoder runs at every tag, length and integer field. */
  method ReadVarintAt(data: Bytes, i: nat) returns (r: Result<(uint64, nat), CodecError>)
    ensures r == ReadVarint(data, i)
  {
    var wire: uint64 := 0;
    var idx: nat := i;
    var shift: nat := 0;
    while true
      invariant ReadVarintFrom(data, idx, shift, wire) == ReadVarint(data, i)
      decreases 64 - shift
    {
      if shift >= 64 {
        return Failure(IntOverflow);
      }
      if idx >= |data| {
        return Failure(UnexpectedEOF);
      }
      var b := data[idx];
      idx := idx + 1;
      wire := (wire + Shl(b % 0x80, shift)) % TwoTo64;
      if b < 0x80 {
        return Success((wire, idx));
      }
      shift := shift + 7;
    }
  }

  /**
   * The arithmetic of one group: with `acc` below 1 << shift, the low group
   * `r` of `q * 128 + r` lands below 1 << (shift + 7), and the rest is `q`
   * shifted by `shift + 7`.
   */
  lemma GroupStep(acc: nat, q: nat, r: nat, s: nat)
    requires acc < Shl(1, s) && r < 128 && q >= 1
    requires acc + Shl(q * 128 + r, s) < TwoTo64
    ensures acc + Shl(r, s) < Shl(1, s + 7)
    ensures acc + Shl(q * 128 + r, s) == (acc + Shl(r, s)) + Shl(q, s + 7)
    ensures s + 7 <= 63
  {
    ShlAdd(128 * q, r, s);
    ShlBy7(q, s);
    ShlBy7(1, s);
    ShlMonotone(r, 127, s);
    ShlAdd(1, 127, s);
    ShlMonotone(1, q, s + 7);
    if s + 7 > 63 {
      ShlOneIsPow2(s + 7);
      Pow2Monotone(64, s + 7);
      Pow2At64();
    }
  }

  /**
   * Reading back what the writer wrote: continuing a read at bit offset
   * `shift` over the varint of `v` adds `v << shift`.
   */
  lemma {:induction false} ReadVarintFromWritten(data: Bytes, i: nat, shift: nat, acc: uint64, v: nat)
    requires i + |VarintBytes(v)| <= |data| && data[i..i + |VarintBytes(v)|] == VarintBytes(v)
    requires shift <= 63 && acc < Shl(1, shift)
    requires acc + Shl(v, shift) < TwoTo64
    ensures ReadVarintFrom(data, i, shift, acc) == Success((acc + Shl(v, shift), i + |VarintBytes(v)|))
    decreases v
  {
    var bs := VarintBytes(v);
    assert data[i] == bs[0];
    if v >= 0x80 {
      var q, r := v / 0x80, v % 0x80;
      VarintBytesUnfold(v);
      LowGroup(r);
      GroupStep(acc, q, r, shift);
      var rest := VarintBytes(q);
      assert data[i + 1..i + 1 + |rest|] == rest by {
        assert data[i + 1..i + 1 + |rest|] == data[i..i + |bs|][1..];
      }
      var acc' := acc + Shl(r, shift);
      SmallModulo(acc');
      ReadStep(data, i, shift, acc);
      ReadVarintFromWritten(data, i + 1, shift + 7, acc', q);
    } else {
      assert bs == [v];
      SmallModulo(acc + Shl(v, shift));
    }
  }

  lemma LowGroup(r: nat)
    requires r < 0x80
    ensures (r + 0x80) % 0x80 == r && (r + 0x80) >= 0x80
  {
  }

  lemma SmallModulo(x: nat)
    requires x < TwoTo64
    ensures x % TwoTo64 == x
  {
  }

  /** A byte with the continuation bit set hands the read on to the next byte. */
  lemma ReadStep(data: Bytes, i: nat, shift: nat, acc: uint64)
    requires shift < 64 && i < |data| && data[i] >= 0x80
    ensures ReadVarintFrom(data, i, shift, acc) ==
      ReadVarintFrom(data, i + 1, shift + 7, (acc + Shl(data[i] % 0x80, shift)) % TwoTo64)
  {
  }

  /** Reading a varint back yields the value written and stops right after it. */
  lemma ReadVarintWritten(data: Bytes, i: nat, v: uint64)
    requires i + |VarintBytes(v)| <= |data| && data[i..i + |VarintBytes(v)|] == VarintBytes(v)
    ensures ReadVarint(data, i) == Success((v, i + |VarintBytes(v)|))
  {
    ReadVarintFromWritten(data, i, 0, 0, v);
  }

  /** Ten bytes that all carry the continuation bit overflow the reader. */
  lemma {:induction false} ReadVarintOverflows(data: Bytes, i: nat, shift: nat, acc: uint64)
    requires shift % 7 == 0 && shift <= 63
    requires i + (70 - shift) / 7 <= |data|
    requires forall j :: i <= j < i + (70 - shift) / 7 ==> data[j] >= 0x80
    ensures ReadVarintFrom(data, i, shift, acc) == Failure(IntOverflow)
    decreases 64 - shift
  {
    var acc' := (acc + Shl(data[i] % 0x80, shift)) % TwoTo64;
    if shift + 7 <= 63 {
      ReadVarintOverflows(data, i + 1, shift + 7, acc');
    }
  }

  /** Input that ends while every byte still carries the continuation bit is cut short. */
  lemma {:induction false} ReadVarintRunsOut(data: Bytes, i: nat, shift: nat, acc: uint64)
    requires shift % 7 == 0 && shift <= 63
    requires i + (70 - shift) / 7 > |data|
    requires forall j :: i <= j < |data| ==> data[j] >= 0x80
    ensures ReadVarintFrom(data, i, shift, acc) == Failure(UnexpectedEOF)
    decreases 64 - shift
  {
    if i < |data| {
      var acc' := (acc + Shl(data[i] % 0x80, shift)) % TwoTo64;
      ReadVarintRunsOut(data, i + 1, shift + 7, acc');
    }
  }
}
