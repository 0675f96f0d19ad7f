/**
 * The voting module's records: the stored voter role, the module parameters,
 * the genesis state, the three role-management messages and the error kinds
 * the handlers return. Go's fixed-width integers are subset types here.
 */
module VotingTypes {

  const TwoTo32: int := 0x1_0000_0000
  const TwoTo63: int := 0x8000_0000_0000_0000
  const TwoTo64: int := 0x1_0000_0000_0000_0000

  type uint32 = x: int | 0 <= x < TwoTo32
  type uint64 = x: int | 0 <= x < TwoTo64
  type int64 = x: int | -TwoTo63 <= x < TwoTo63

  type byte = x: int | 0 <= x < 256
  type Bytes = seq<byte>

  /** Go's int64 subtraction, which wraps around on overflow. */
  function SubInt64(a: int64, b: int64): (d: int64)
    ensures -TwoTo63 <= a - b < TwoTo63 ==> d == a - b
  {
    var m := (a - b + TwoTo63) % TwoTo64;
    m - TwoTo63
  }

  /** Incrementing a uint32 counter that holds `c` modulo 2^32 gives `c + 1` modulo 2^32. */
  lemma IncrementWraps(c: nat)
    ensures (c % TwoTo32 + 1) % TwoTo32 == (c + 1) % TwoTo32
  {
    var q, r := c / TwoTo32, c % TwoTo32;
    assert c == q * TwoTo32 + r;
    if r + 1 == TwoTo32 {
      assert c + 1 == (q + 1) * TwoTo32;
    } else {
      assert c + 1 == q * TwoTo32 + (r + 1);
    }
  }

  /** A voter role as stored under its id. */
  datatype VoterRole = VoterRole(
    id: uint64,
    creator: string,
    address: string,
    role: string,
    multiplier: string,
    addedAt: int64,
    addedBy: string)

  /** The module parameters: the per-address role cap and the global creation cooldown in seconds. */
  datatype Params = Params(maxVoterRolesPerAddress: uint32, roleCreationCooldown: uint32)

  /** The genesis state; the port identifier is held as the bytes of the Go string. */
  datatype GenesisState = GenesisState(
    params: Params,
    portId: Bytes,
    voterRoleList: seq<VoterRole>,
    voterRoleCount: uint64)

  datatype MsgCreateVoterRole = MsgCreateVoterRole(
    creator: string, address: string, role: string, multiplier: string, addedAt: int64, addedBy: string)

  datatype MsgUpdateVoterRole = MsgUpdateVoterRole(
    creator: string, id: uint64, address: string, role: string, multiplier: string, addedAt: int64, addedBy: string)

  datatype MsgDeleteVoterRole = MsgDeleteVoterRole(creator: string, id: uint64)

  /** The registered error a failure wraps. */
  datatype ErrorCode = ErrInvalidAddress | ErrInvalidSigner | ErrLogic | ErrInvalidRequest | ErrKeyNotFound

  /** The failures of the role registry, each with the fields its message reports. */
  datatype Error =
    | InvalidCreatorAddress
    | NotAuthority
    | ParamsUnavailable
    | RateLimited(remaining: int64)
    | InvalidVoterAddress
    | InvalidRole(role: string)
    | InvalidMultiplierFormat(multiplier: string)
    | MultiplierOutOfRange(multiplier: string)
    | AlreadyHasRole(address: string)
    | RoleLimitReached(address: string, max: uint32)
    | KeyNotFound(id: uint64)
    | RoleNotFoundForAddress
  {
    function Code(): ErrorCode {
      match this
      case InvalidCreatorAddress | InvalidVoterAddress => ErrInvalidAddress
      case NotAuthority => ErrInvalidSigner
      case ParamsUnavailable => ErrLogic
      case KeyNotFound(_) | RoleNotFoundForAddress => ErrKeyNotFound
      case _ => ErrInvalidRequest
    }
  }
}
