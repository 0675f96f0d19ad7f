/**
 * skipGenesis: the length of the unknown field at the start of a byte string,
 * found by reading its tag and stepping over its value according to the
 * wire type, and over whole groups when the field opens one.
 */
module GenesisSkip {
  import opened Wrappers
  import opened VotingTypes
  import opened GenesisWire

  const WireVarint: nat := 0
  const WireFixed64: nat := 1
  const WireBytes: nat := 2
  const WireStartGroup: nat := 3
  const WireEndGroup: nat := 4
  const WireFixed32: nat := 5

  /**
   * One turn of the loop at `idx` with `depth` groups open: the index after
   * the tag and its value, and the new depth. Go's index arithmetic is left
   * unbounded here; `SkipFrom` checks it.
   */
  function SkipStep(data: Bytes, idx: nat, depth: nat): (r: Result<(nat, nat), CodecError>)
    ensures r.Success? ==> r.value.0 > idx
  {
    match ReadVarint(data, idx)
    case Failure(e) => Failure(e)
    case Success((wire, k)) =>
      var wireType := wire % 8;
      if wireType == WireVarint then
        match ReadVarint(data, k)
        case Failure(e) => Failure(e)
        case Success((_, k2)) => Success((k2, depth))
      else if wireType == WireFixed64 then Success((k + 8, depth))
      else if wireType == WireBytes then
        match ReadVarint(data, k)
        case Failure(e) => Failure(e)
        case Success((length, k2)) =>
          // the length as a Go int is negative
          if length >= TwoTo63 then Failure(InvalidLength) else Success((k2 + length, depth))
      else if wireType == WireStartGroup then Success((k, depth + 1))
      else if wireType == WireEndGroup then
        if depth == 0 then Failure(UnexpectedEndOfGroup) else Success((k, depth - 1))
      else if wireType == WireFixed32 then Success((k + 4, depth))
      else Failure(IllegalWireType(wireType))
  }

  /**
   * The loop from `idx`: an index that overflows Go's int is an invalid
   * length, the field ends once no group is open, and running out of input
   * first is an unexpected end of input.
   */
  function SkipFrom(data: Bytes, idx: nat, depth: nat): (r: Result<nat, CodecError>)
    ensures r.Success? ==> idx < r.value < TwoTo63
    decreases |data| - idx
  {
    if idx >= |data| then Failure(UnexpectedEOF)
    else
      match SkipStep(data, idx, depth)
      case Failure(e) => Failure(e)
      case Success((n, d)) =>
        if n >= TwoTo63 then Failure(InvalidLength)
        else if d == 0 then Success(n)
        else SkipFrom(data, n, d)
  }

  function Skip(data: Bytes): (r: Result<nat, CodecError>)
    ensures r.Success? ==> 0 < r.value < TwoTo63
  {
    SkipFrom(data, 0, 0)
  }

  /**
   * One turn of skipGenesis's loop: the field at `idx` stepped over; a varint
   * value is read and dropped. A method rather than a call of SkipStep because
   * the tag, a varint value and a length are each read by the varint loop
   * (ReadVarintAt), as the source reads them with its inner loops.
   */
  method SkipStepAt(data: Bytes, idx: nat, depth: nat) returns (r: Result<(nat, nat), CodecError>)
    ensures r == SkipStep(data, idx, depth)
  {
    var tag := ReadVarintAt(data, idx);
    if tag.Failure? {
      return Failure(tag.error);
    }
    var wire, k := tag.value.0, tag.value.1;
    var wireType := wire % 8;
    if wireType == WireVarint {
      var v := ReadVarintAt(data, k);
      if v.Failure? {
        return Failure(v.error);
      }
      return Success((v.value.1, depth));
    } else if wireType == WireFixed64 {
      return Success((k + 8, depth));
    } else if wireType == WireBytes {
      var v := ReadVarintAt(data, k);
      if v.Failure? {
        return Failure(v.error);
      }
      if v.value.0 >= TwoTo63 {
        return Failure(InvalidLength);
      }
      return Success((v.value.1 + v.value.0, depth));
    } else if wireType == WireStartGroup {
      return Success((k, depth + 1));
    } else if wireType == WireEndGroup {
      if depth == 0 {
        return Failure(UnexpectedEndOfGroup);
      }
      return Success((k, depth - 1));
    } else if wireType == WireFixed32 {
      return Success((k + 4, depth));
    } else {
      return Failure(IllegalWireType(wireType));
    }
  }

  /** skipGenesis, with its loop: steps over fields until the group depth is back to zero. */
  method SkipGenesis(data: Bytes) returns (r: Result<nat, CodecError>)
    ensures r == Skip(data)
  {
    var idx: nat := 0;
    var depth: nat := 0;
    while idx < |data|
      invariant SkipFrom(data, idx, depth) == Skip(data)
      decreases |data| - idx
    {
      var step := SkipStepAt(data, idx, depth);
      if step.Failure? {
        return Failure(step.error);
      }
      var next := step.value.0;
      if next >= TwoTo63 {
        return Failure(InvalidLength);
      }
      idx, depth := next, step.value.1;
      if depth == 0 {
        return Success(idx);
      }
    }
    return Failure(UnexpectedEOF);
  }

  /** A varint field is skipped by its tag and its value. */
  lemma SkipVarintField(data: Bytes, tag: uint64, v: uint64)
    requires tag % 8 == WireVarint
    requires |VarintBytes(tag)| + |VarintBytes(v)| <= |data|
    requires data[..|VarintBytes(tag)|] == VarintBytes(tag)
    requires data[|VarintBytes(tag)|..|VarintBytes(tag)| + |VarintBytes(v)|] == VarintBytes(v)
    ensures Skip(data) == Success(|VarintBytes(tag)| + |VarintBytes(v)|)
  {
    var a := |VarintBytes(tag)|;
    ReadVarintWritten(data, 0, tag);
    ReadVarintWritten(data, a, v);
    SovIsVarintLength(tag);
    SovIsVarintLength(v);
    SovBounds(tag);
    SovBounds(v);
  }

  /** A length-delimited field is skipped by its tag, its length and that many bytes. */
  lemma SkipBytesField(data: Bytes, tag: uint64, length: uint64)
    requires tag % 8 == WireBytes && length < TwoTo63
    requires |VarintBytes(tag)| + |VarintBytes(length)| + length <= |data|
    requires |VarintBytes(tag)| + |VarintBytes(length)| + length < TwoTo63
    requires data[..|VarintBytes(tag)|] == VarintBytes(tag)
    requires data[|VarintBytes(tag)|..|VarintBytes(tag)| + |VarintBytes(length)|] == VarintBytes(length)
    ensures Skip(data) == Success(|VarintBytes(tag)| + |VarintBytes(length)| + length)
  {
    ReadVarintWritten(data, 0, tag);
    ReadVarintWritten(data, |VarintBytes(tag)|, length);
  }

  /** A group opened and closed at once is skipped by its two tags. */
  lemma SkipEmptyGroup(data: Bytes, start: uint64, end: uint64)
    requires start % 8 == WireStartGroup && end % 8 == WireEndGroup
    requires |VarintBytes(start)| + |VarintBytes(end)| <= |data|
    requires data[..|VarintBytes(start)|] == VarintBytes(start)
    requires data[|VarintBytes(start)|..|VarintBytes(start)| + |VarintBytes(end)|] == VarintBytes(end)
    ensures Skip(data) == Success(|VarintBytes(start)| + |VarintBytes(end)|)
  {
    var a := |VarintBytes(start)|;
    var b := |VarintBytes(end)|;
    ReadVarintWritten(data, 0, start);
    ReadVarintWritten(data, a, end);
    SovIsVarintLength(start);
    SovIsVarintLength(end);
    SovBounds(start);
    SovBounds(end);
    assert SkipStep(data, 0, 0) == Success((a, 1));
    assert SkipStep(data, a, 1) == Success((a + b, 0));
    assert SkipFrom(data, a, 1) == Success(a + b);
  }

  /** A field that closes a group that was never opened is an error. */
  lemma SkipEndGroupAtTop(data: Bytes, tag: uint64)
    requires tag % 8 == WireEndGroup
    requires |VarintBytes(tag)| <= |data| && data[..|VarintBytes(tag)|] == VarintBytes(tag)
    ensures Skip(data) == Failure(UnexpectedEndOfGroup)
  {
    ReadVarintWritten(data, 0, tag);
  }

  /** Wire types 6 and 7 do not exist. */
  lemma SkipIllegalWireType(data: Bytes, tag: uint64)
    requires tag % 8 >= 6
    requires |VarintBytes(tag)| <= |data| && data[..|VarintBytes(tag)|] == VarintBytes(tag)
    ensures Skip(data) == Failure(IllegalWireType(tag % 8))
  {
    ReadVarintWritten(data, 0, tag);
  }
}
