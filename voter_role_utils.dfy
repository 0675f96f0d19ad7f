/**
 * Validation of a voter role's fields, the fixed default multipliers, and the
 * meaning of the read-only queries over the stored roles. Each query is
 * defined here over the roles in the order Walk visits them (ascending id);
 * the keeper's methods compute the same values with loops.
 */
module VoterRoleUtils {
  import opened Wrappers
  import opened VotingTypes
  import opened Decimal

  /** The bech32 address codec's decoding direction: None when the string is not an address. */
  type AddressCodec = string -> Option<Bytes>

  /** LegacyNewDecFromStr: None when the string is not a decimal. */
  type DecParser = string -> Option<Dec>

  const ValidRoles: set<string> := {"core_contributor", "validator", "community_member", "strategic_partner"}

  /** 0.1 */
  const MinMultiplier: Dec := DecWithPrec(1, 1)

  /** 10.0 */
  const MaxMultiplier: Dec := 10 * One

  /**
   * Checks, in this order, that the address decodes, that the role is one of the
   * four kinds, that the multiplier parses and that it lies in [0.1, 10.0].
   */
  function ValidateVoterRole(codec: AddressCodec, parse: DecParser, address: string, role: string, multiplier: string): (r: Outcome<Error>)
    ensures r.Pass? <==>
      && codec(address).Some?
      && role in ValidRoles
      && parse(multiplier).Some?
      && MinMultiplier <= parse(multiplier).value <= MaxMultiplier
    ensures codec(address).None? ==> r == Fail(InvalidVoterAddress)
    ensures codec(address).Some? && role !in ValidRoles ==> r == Fail(InvalidRole(role))
    ensures codec(address).Some? && role in ValidRoles && parse(multiplier).None? ==> r == Fail(InvalidMultiplierFormat(multiplier))
    ensures codec(address).Some? && role in ValidRoles && parse(multiplier).Some? ==>
      (MinMultiplier <= parse(multiplier).value <= MaxMultiplier || r == Fail(MultiplierOutOfRange(multiplier)))
    ensures r.Fail? ==> r.error.Code() in {ErrInvalidAddress, ErrInvalidRequest}
  {
    if codec(address).None? then Fail(InvalidVoterAddress)
    else if role !in ValidRoles then Fail(InvalidRole(role))
    else match parse(multiplier)
      case None => Fail(InvalidMultiplierFormat(multiplier))
      case Some(m) =>
        if m < MinMultiplier || m > MaxMultiplier then Fail(MultiplierOutOfRange(multiplier)) else Pass
  }

  lemma MultiplierBoundsAreInclusive(codec: AddressCodec, parse: DecParser, address: string, role: string, multiplier: string)
    requires codec(address).Some? && role in ValidRoles
    requires parse(multiplier) == Some(MinMultiplier) || parse(multiplier) == Some(MaxMultiplier)
    ensures ValidateVoterRole(codec, parse, address, role, multiplier) == Pass
  {
  }

  function GetDefaultMultipliers(): (m: map<string, string>)
    ensures m.Keys == ValidRoles
  {
    map["core_contributor" := "2.0", "validator" := "1.5", "community_member" := "1.0", "strategic_partner" := "1.8"]
  }

  /** What the default multiplier strings denote as decimals. */
  const DefaultMultiplierValues: map<string, Dec> :=
    map["2.0" := 2 * One, "1.5" := DecWithPrec(15, 1), "1.0" := One, "1.8" := DecWithPrec(18, 1)]

  /** Under a parser that reads decimal notation, every default multiplier passes validation for its role. */
  lemma DefaultMultipliersValidate(codec: AddressCodec, parse: DecParser, address: string)
    requires codec(address).Some?
    requires forall s :: s in DefaultMultiplierValues ==> parse(s) == Some(DefaultMultiplierValues[s])
    ensures forall role :: role in GetDefaultMultipliers() ==>
      ValidateVoterRole(codec, parse, address, role, GetDefaultMultipliers()[role]) == Pass
  {
    var d := GetDefaultMultipliers();
    forall role | role in d
      ensures ValidateVoterRole(codec, parse, address, role, d[role]) == Pass
    {
      assert d[role] in DefaultMultiplierValues;
    }
  }

  /** The addresses of `rs`, in order. */
  function Addresses(rs: seq<VoterRole>): (addrs: seq<string>)
    ensures |addrs| == |rs| && forall i :: 0 <= i < |rs| ==> addrs[i] == rs[i].address
  {
    seq(|rs|, i requires 0 <= i < |rs| => rs[i].address)
  }

  /** The role kinds of `rs`, in order. */
  function Roles(rs: seq<VoterRole>): (ks: seq<string>)
    ensures |ks| == |rs| && forall i :: 0 <= i < |rs| ==> ks[i] == rs[i].role
  {
    seq(|rs|, i requires 0 <= i < |rs| => rs[i].role)
  }

  /** GetVoterRoleByAddress: the first role, in walk order, held by `address`. */
  function FirstWithAddress(rs: seq<VoterRole>, address: string): (r: Option<VoterRole>)
    ensures r.None? <==> forall i :: 0 <= i < |rs| ==> rs[i].address != address
    ensures r.Some? ==> r.value.address == address && r.value in rs
  {
    if rs == [] then None
    else if rs[0].address == address then Some(rs[0])
    else
      var r := FirstWithAddress(rs[1..], address);
      assert forall i :: 1 <= i < |rs| ==> rs[i] == rs[1..][i - 1];
      r
  }

  /** The role FirstWithAddress finds is the one at the first index held by `address`. */
  lemma {:induction false} FirstWithAddressAt(rs: seq<VoterRole>, address: string, i: int)
    requires 0 <= i < |rs| && rs[i].address == address
    requires forall j :: 0 <= j < i ==> rs[j].address != address
    ensures FirstWithAddress(rs, address) == Some(rs[i])
    decreases i
  {
    if i > 0 {
      assert rs[1..][i - 1] == rs[i];
      assert forall j :: 0 <= j < i - 1 ==> rs[1..][j].address != address by {
        forall j | 0 <= j < i - 1 ensures rs[1..][j].address != address {
          assert rs[1..][j] == rs[j + 1];
        }
      }
      FirstWithAddressAt(rs[1..], address, i - 1);
    }
  }

  /** HasVoterRole: some stored role is held by `address`. */
  predicate HasRole(rs: seq<VoterRole>, address: string) {
    exists i :: 0 <= i < |rs| && rs[i].address == address
  }

  /** CountRolesForAddress: how many of `rs` are held by `address`. */
  function CountAddress(rs: seq<VoterRole>, address: string): (n: nat)
    ensures n <= |rs|
  {
    if rs == [] then 0
    else CountAddress(rs[..|rs| - 1], address) + (if rs[|rs| - 1].address == address then 1 else 0)
  }

  /** The count is the multiplicity of `address` among the roles' addresses. */
  lemma {:induction false} CountAddressIsMultiplicity(rs: seq<VoterRole>, address: string)
    ensures CountAddress(rs, address) == multiset(Addresses(rs))[address]
  {
    if rs != [] {
      var init := rs[..|rs| - 1];
      assert Addresses(rs) == Addresses(init) + [rs[|rs| - 1].address];
      CountAddressIsMultiplicity(init, address);
    }
  }

  /** The count is zero exactly when no role is held by `address`. */
  lemma {:induction false} CountAddressZeroIff(rs: seq<VoterRole>, address: string)
    ensures CountAddress(rs, address) == 0 <==> !HasRole(rs, address)
  {
    if rs != [] {
      var init := rs[..|rs| - 1];
      var last := rs[|rs| - 1];
      CountAddressZeroIff(init, address);
      if HasRole(rs, address) {
        var i :| 0 <= i < |rs| && rs[i].address == address;
        if i < |rs| - 1 { assert init[i] == rs[i]; }
      }
      if HasRole(init, address) {
        var i :| 0 <= i < |init| && init[i].address == address;
        assert rs[i] == init[i];
      }
    }
  }

  /** Counting over one more role adds one exactly when that role is held by `address`. */
  lemma CountAddressSnoc(rs: seq<VoterRole>, i: int, address: string)
    requires 0 <= i < |rs|
    ensures CountAddress(rs[..i + 1], address) == CountAddress(rs[..i], address) + (if rs[i].address == address then 1 else 0)
  {
    assert rs[..i + 1][..i] == rs[..i];
  }

  /** ListVoterRolesByRole: the roles of kind `role`, in walk order. */
  function WithRole(rs: seq<VoterRole>, role: string): (out: seq<VoterRole>)
    ensures |out| <= |rs|
  {
    if rs == [] then []
    else
      var last := rs[|rs| - 1];
      WithRole(rs[..|rs| - 1], role) + (if last.role == role then [last] else [])
  }

  /** The filtered roles are exactly the roles of kind `role`, as many as there are of that kind. */
  lemma {:induction false} WithRoleSelects(rs: seq<VoterRole>, role: string)
    ensures forall x :: x in WithRole(rs, role) <==> x in rs && x.role == role
    ensures |WithRole(rs, role)| == multiset(Roles(rs))[role]
  {
    if rs != [] {
      var init := rs[..|rs| - 1];
      var last := rs[|rs| - 1];
      WithRoleSelects(init, role);
      assert rs == init + [last];
      assert Roles(rs) == Roles(init) + [last.role];
    }
  }

  /** Filtering one more role appends it exactly when it has kind `role`. */
  lemma WithRoleSnoc(rs: seq<VoterRole>, i: int, role: string)
    requires 0 <= i < |rs|
    ensures WithRole(rs[..i + 1], role) == WithRole(rs[..i], role) + (if rs[i].role == role then [rs[i]] else [])
  {
    assert rs[..i + 1][..i] == rs[..i];
  }

  /** Filtering by role kind keeps the walk order: it distributes over concatenation. */
  lemma {:induction false} WithRoleKeepsOrder(a: seq<VoterRole>, b: seq<VoterRole>, role: string)
    ensures WithRole(a + b, role) == WithRole(a, role) + WithRole(b, role)
    decreases |b|
  {
    if b == [] {
      assert a + b == a;
    } else {
      var init := b[..|b| - 1];
      var last := b[|b| - 1];
      var tail := if last.role == role then [last] else [];
      assert (a + b)[..|a + b| - 1] == a + init;
      assert (a + b)[|a + b| - 1] == last;
      calc {
        WithRole(a + b, role);
        WithRole(a + init, role) + tail;
        { WithRoleKeepsOrder(a, init, role); }
        WithRole(a, role) + WithRole(init, role) + tail;
        WithRole(a, role) + WithRole(b, role);
      }
    }
  }

  /** GetVoterRoleStats: each role kind present, with the number of roles of that kind. */
  function RoleStats(rs: seq<VoterRole>): (stats: map<string, nat>)
    ensures forall k :: k in stats ==> stats[k] >= 1
  {
    if rs == [] then map[]
    else
      var s := RoleStats(rs[..|rs| - 1]);
      var kind := rs[|rs| - 1].role;
      s[kind := (if kind in s then s[kind] else 0) + 1]
  }

  /**
   * The statistics are the multiset of role kinds written as a map: a kind is a
   * key exactly when some role has it, and its value is how many do. So the
   * values add up to the number of roles.
   */
  lemma {:induction false} RoleStatsCountsKinds(rs: seq<VoterRole>)
    ensures forall k :: k in RoleStats(rs) <==> k in Roles(rs)
    ensures forall k :: k in RoleStats(rs) ==> RoleStats(rs)[k] == multiset(Roles(rs))[k]
  {
    if rs != [] {
      var init := rs[..|rs| - 1];
      RoleStatsCountsKinds(init);
      assert Roles(rs) == Roles(init) + [rs[|rs| - 1].role];
    }
  }

  /** Tallying one more role increments the count of its kind. */
  lemma RoleStatsSnoc(rs: seq<VoterRole>, i: int)
    requires 0 <= i < |rs|
    ensures var s := RoleStats(rs[..i]);
      RoleStats(rs[..i + 1]) == s[rs[i].role := (if rs[i].role in s then s[rs[i].role] else 0) + 1]
  {
    assert rs[..i + 1][..i] == rs[..i];
  }

  /** GetVotingMultiplier as written: an address without a role is an error, not 1.0. */
  function VotingMultiplier(parse: DecParser, rs: seq<VoterRole>, address: string): (r: Result<Dec, Error>)
    ensures !HasRole(rs, address) ==> r == Failure(RoleNotFoundForAddress)
    ensures HasRole(rs, address) ==> (r.Success? <==> parse(FirstWithAddress(rs, address).value.multiplier).Some?)
    ensures r.Success? ==> Some(r.value) == parse(FirstWithAddress(rs, address).value.multiplier)
  {
    match FirstWithAddress(rs, address)
    case None => Failure(RoleNotFoundForAddress)
    case Some(role) =>
      match parse(role.multiplier)
      case None => Failure(InvalidMultiplierFormat(role.multiplier))
      case Some(m) => Success(m)
  }

  /** GetVotingMultiplier as its comment intends: an address without a role gets 1.0. */
  function VotingMultiplierOrDefault(parse: DecParser, rs: seq<VoterRole>, address: string): (r: Result<Dec, Error>)
    ensures !HasRole(rs, address) ==> r == Success(One)
    ensures HasRole(rs, address) ==> r == VotingMultiplier(parse, rs, address)
  {
    if FirstWithAddress(rs, address).None? then Success(One) else VotingMultiplier(parse, rs, address)
  }

  /** The two differ exactly on addresses that hold no role: the not-found guard never fires. */
  lemma UnassignedAddressIsAnError(parse: DecParser, rs: seq<VoterRole>, address: string)
    requires !HasRole(rs, address)
    ensures VotingMultiplier(parse, rs, address) != VotingMultiplierOrDefault(parse, rs, address)
  {
  }
}
