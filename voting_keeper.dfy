/**
 * The voting keeper's state and the operations on it: the authority-gated
 * create, update and delete handlers for voter roles, the read-only lookups
 * that walk the stored roles in ascending id order, and genesis import and
 * export. The store's items become fields; an item that may be unset is an
 * Option.
 */
module VotingKeeper {
  import opened Wrappers
  import opened VotingTypes
  import opened Decimal
  import opened RoleOrder
  import opened VoterRoleUtils

  /**
   * The gate every handler passes first: the creator string must decode, and
   * the decoded bytes must be the module's authority.
   */
  function AuthorityCheck(codec: AddressCodec, authority: Bytes, creator: string): (r: Outcome<Error>)
    ensures r.Pass? <==> codec(creator) == Some(authority)
    ensures codec(creator).None? ==> r == Fail(InvalidCreatorAddress)
    ensures codec(creator).Some? && codec(creator).value != authority ==> r == Fail(NotAuthority)
  {
    match codec(creator)
    case None => Fail(InvalidCreatorAddress)
    case Some(b) => if b != authority then Fail(NotAuthority) else Pass
  }

  /**
   * The global creation cooldown: it applies only when a previous creation
   * time is stored and the cooldown is non-zero; the elapsed time and the
   * reported remaining time are int64 differences.
   */
  function RateLimitCheck(p: Params, last: Option<int64>, now: int64): (r: Outcome<Error>)
    ensures last.None? || p.roleCreationCooldown == 0 ==> r == Pass
    ensures last.Some? && p.roleCreationCooldown > 0 && -TwoTo63 <= now - last.value < TwoTo63 ==>
      (r.Fail? <==> now - last.value < p.roleCreationCooldown)
    ensures r.Fail? ==> last.Some? && r.error.RateLimited? && r.error.Code() == ErrInvalidRequest
    ensures r.Fail? && -TwoTo63 <= now - last.value < TwoTo63 && p.roleCreationCooldown - (now - last.value) < TwoTo63 ==>
      r.error.remaining == p.roleCreationCooldown - (now - last.value)
  {
    if last.Some? && p.roleCreationCooldown > 0 then
      var elapsed := SubInt64(now, last.value);
      if elapsed < p.roleCreationCooldown then Fail(RateLimited(SubInt64(p.roleCreationCooldown, elapsed)))
      else Pass
    else Pass
  }

  /** An elapsed time exactly equal to the cooldown is allowed. */
  lemma CooldownBoundaryPasses(p: Params, last: int64, now: int64)
    requires p.roleCreationCooldown > 0
    requires now - last == p.roleCreationCooldown
    ensures RateLimitCheck(p, Some(last), now) == Pass
  {
  }

  /** When no difference wraps, a rejected creation reports a positive remaining time. */
  lemma RemainingIsPositive(p: Params, last: int64, now: int64)
    requires -TwoTo63 <= now - last < TwoTo63 && p.roleCreationCooldown - (now - last) < TwoTo63
    requires RateLimitCheck(p, Some(last), now).Fail?
    ensures RateLimitCheck(p, Some(last), now).error.remaining > 0
  {
  }

  /** The ids of `l`, in list order. */
  function Ids(l: seq<VoterRole>): (ids: seq<uint64>)
    ensures |ids| == |l| && forall i :: 0 <= i < |l| ==> ids[i] == l[i].id
  {
    seq(|l|, i requires 0 <= i < |l| => l[i].id)
  }

  /** The set of ids of `l`. */
  function IdSet(l: seq<VoterRole>): set<uint64> {
    set i | 0 <= i < |l| :: l[i].id
  }

  /**
   * Storing each role of `l` under its own id, in list order, over `m`:
   * an id listed twice ends up holding its last entry.
   */
  function PutAll(m: map<uint64, VoterRole>, l: seq<VoterRole>): (r: map<uint64, VoterRole>)
    ensures r.Keys == m.Keys + IdSet(l)
    decreases |l|
  {
    if l == [] then m
    else
      assert forall k :: k in IdSet(l) <==> k == l[0].id || k in IdSet(l[1..]) by {
        forall k | k in IdSet(l) && k != l[0].id ensures k in IdSet(l[1..]) {
          var i :| 0 <= i < |l| && l[i].id == k;
          assert l[1..][i - 1].id == k;
        }
        forall k | k in IdSet(l[1..]) ensures k in IdSet(l) {
          var i :| 0 <= i < |l[1..]| && l[1..][i].id == k;
          assert l[i + 1].id == k;
        }
      }
      PutAll(m[l[0].id := l[0]], l[1..])
  }

  /** Storing the entries from index `i` on is storing entry `i`, then the rest. */
  lemma PutAllStep(m: map<uint64, VoterRole>, l: seq<VoterRole>, i: int)
    requires 0 <= i < |l|
    ensures PutAll(m, l[i..]) == PutAll(m[l[i].id := l[i]], l[i + 1..])
  {
    assert l[i..][1..] == l[i + 1..];
  }

  /** The import loop: each listed role is written under its id, in list order. */
  method StoreAll(m0: map<uint64, VoterRole>, l: seq<VoterRole>) returns (m: map<uint64, VoterRole>)
    ensures m == PutAll(m0, l)
  {
    m := m0;
    assert l[0..] == l;
    var i := 0;
    while i < |l|
      invariant 0 <= i <= |l|
      invariant PutAll(m, l[i..]) == PutAll(m0, l)
    {
      PutAllStep(m, l, i);
      m := m[l[i].id := l[i]];
      i := i + 1;
    }
    assert l[i..] == [];
  }

  /** An id that is not listed keeps the value it had. */
  lemma {:induction false} PutAllKeeps(m: map<uint64, VoterRole>, l: seq<VoterRole>, k: uint64)
    requires k in m && k !in IdSet(l)
    ensures PutAll(m, l)[k] == m[k]
    decreases |l|
  {
    if l != [] {
      assert k != l[0].id;
      forall i | 0 <= i < |l[1..]| ensures l[1..][i].id != k {
        assert l[1..][i] == l[i + 1];
      }
      PutAllKeeps(m[l[0].id := l[0]], l[1..], k);
    }
  }

  /** A listed entry whose id is not listed again later is the value stored under that id. */
  lemma {:induction false} PutAllLastWins(m: map<uint64, VoterRole>, l: seq<VoterRole>, i: int)
    requires 0 <= i < |l|
    requires forall j :: i < j < |l| ==> l[j].id != l[i].id
    ensures l[i].id in PutAll(m, l) && PutAll(m, l)[l[i].id] == l[i]
    decreases |l|
  {
    if i == 0 {
      forall j | 0 <= j < |l[1..]| ensures l[1..][j].id != l[0].id {
        assert l[1..][j] == l[j + 1];
      }
      PutAllKeeps(m[l[0].id := l[0]], l[1..], l[0].id);
    } else {
      assert l[1..][i - 1] == l[i];
      forall j | i - 1 < j < |l[1..]| ensures l[1..][j].id != l[1..][i - 1].id {
        assert l[1..][j] == l[j + 1];
      }
      PutAllLastWins(m[l[0].id := l[0]], l[1..], i - 1);
    }
  }

  /** Every id of a strictly increasing id list occurs once. */
  lemma IncreasingIdsAreUnique(l: seq<VoterRole>, i: int)
    requires StrictlyIncreasing(Ids(l))
    requires 0 <= i < |l|
    ensures forall j :: i < j < |l| ==> l[j].id != l[i].id
  {
    forall j | i < j < |l| ensures l[j].id != l[i].id {
      assert Ids(l)[i] < Ids(l)[j];
    }
  }

  /**
   * Importing a role list whose ids are strictly ascending into an empty store
   * and walking the store gives the list back.
   */
  lemma {:induction false} ImportedRolesWalkInOrder(l: seq<VoterRole>)
    requires StrictlyIncreasing(Ids(l))
    ensures InIdOrder(PutAll(map[], l)) == l
  {
    var m := PutAll(map[], l);
    var ks := Ids(l);
    ImportedKeys(l);
    SortedListIsIdsAscending(ks, m.Keys);
    var vs := ValuesAt(m, ks);
    forall i | 0 <= i < |l| ensures vs[i] == l[i] {
      ImportedAt(l, i);
    }
    assert vs == l;
  }

  /** Each imported entry is stored under its id when the ids strictly ascend. */
  lemma ImportedAt(l: seq<VoterRole>, i: int)
    requires StrictlyIncreasing(Ids(l))
    requires 0 <= i < |l|
    ensures l[i].id in PutAll(map[], l) && PutAll(map[], l)[l[i].id] == l[i]
  {
    IncreasingIdsAreUnique(l, i);
    PutAllLastWins(map[], l, i);
  }

  /** The ids an import stores into an empty store are exactly the listed ids. */
  lemma ImportedKeys(l: seq<VoterRole>)
    ensures forall k :: k in Ids(l) <==> k in PutAll(map[], l).Keys
  {
    var ks := Ids(l);
    forall k ensures k in ks <==> k in IdSet(l) {
      if k in ks {
        var i :| 0 <= i < |ks| && ks[i] == k;
        assert l[i].id == k;
      }
      if k in IdSet(l) {
        var i :| 0 <= i < |l| && l[i].id == k;
        assert ks[i] == k;
      }
    }
  }

  /** A role held by `address` is among the walked roles exactly when some stored entry has that address. */
  lemma HasRoleInStore(m: map<uint64, VoterRole>, address: string)
    ensures HasRole(InIdOrder(m), address) <==> exists k :: k in m && m[k].address == address
  {
    var rs := InIdOrder(m);
    if HasRole(rs, address) {
      var i :| 0 <= i < |rs| && rs[i].address == address;
      InIdOrderMembers(m, rs[i]);
    }
    if exists k :: k in m && m[k].address == address {
      var k :| k in m && m[k].address == address;
      InIdOrderMembers(m, m[k]);
      var i :| 0 <= i < |rs| && rs[i] == m[k];
    }
  }

  class Keeper {
    /** The account allowed to manage voter roles, normally the governance module account. */
    const authority: Bytes
    const codec: AddressCodec
    const parse: DecParser

    var params: Option<Params>
    var port: Option<Bytes>
    var voterRoles: map<uint64, VoterRole>
    /** The next id to hand out (collections.Sequence). */
    var voterRoleSeq: uint64
    var lastRoleCreationTime: Option<int64>

    /** Every role is stored under its own id. */
    ghost predicate KeysMatchIds()
      reads this
    {
      forall k :: k in voterRoles ==> voterRoles[k].id == k
    }

    /** Every role's id has already been handed out by the sequence. */
    ghost predicate Valid()
      reads this
    {
      KeysMatchIds() && forall k :: k in voterRoles ==> k < voterRoleSeq
    }

    /** The stored roles in the order a walk over the store visits them. */
    ghost function StoredRoles(): (rs: seq<VoterRole>)
      reads this
    {
      InIdOrder(voterRoles)
    }

    constructor (authority: Bytes, codec: AddressCodec, parse: DecParser)
      ensures this.authority == authority && this.codec == codec && this.parse == parse
      ensures params == None && port == None && lastRoleCreationTime == None
      ensures voterRoles == map[] && voterRoleSeq == 0
      ensures Valid()
    {
      this.authority := authority;
      this.codec := codec;
      this.parse := parse;
      params := None;
      port := None;
      voterRoles := map[];
      voterRoleSeq := 0;
      lastRoleCreationTime := None;
    }

    /** The store's Walk over the whole map: every stored role, smallest id first. */
    method Walk() returns (rs: seq<VoterRole>)
      ensures rs == StoredRoles()
    {
      var m := voterRoles;
      var rest := m.Keys;
      ghost var done: seq<uint64> := [];
      rs := [];
      while rest != {}
        invariant rest <= m.Keys
        invariant forall i :: 0 <= i < |done| ==> done[i] in m
        invariant done + IdsAscending(rest) == IdsAscending(m.Keys)
        invariant rs == ValuesAt(m, done)
        decreases |rest|
      {
        ghost var least := MinId(rest);
        var k :| k in rest && forall j :: j in rest ==> k <= j;
        WalkStep(m.Keys, done, rest, k);
        ValuesAtSnoc(m, done, k);
        rs := rs + [m[k]];
        done := done + [k];
        rest := rest - {k};
      }
      assert IdsAscending(rest) == [];
    }

    /** GetVoterRoleByAddress: the first walked role held by `address`, or a not-found error. */
    method GetVoterRoleByAddress(address: string) returns (r: Result<VoterRole, Error>)
      ensures r.Success? <==> HasRole(StoredRoles(), address)
      ensures r.Success? ==> Some(r.value) == FirstWithAddress(StoredRoles(), address)
      ensures r.Failure? ==> r.error == RoleNotFoundForAddress && r.error.Code() == ErrKeyNotFound
    {
      var rs := Walk();
      var i := 0;
      while i < |rs|
        invariant 0 <= i <= |rs|
        invariant forall j :: 0 <= j < i ==> rs[j].address != address
      {
        if rs[i].address == address {
          FirstWithAddressAt(rs, address, i);
          return Success(rs[i]);
        }
        i := i + 1;
      }
      return Failure(RoleNotFoundForAddress);
    }

    /** HasVoterRole: whether the lookup by address succeeds. */
    method HasVoterRole(address: string) returns (b: bool)
      ensures b == HasRole(StoredRoles(), address)
      ensures b <==> exists k :: k in voterRoles && voterRoles[k].address == address
    {
      var r := GetVoterRoleByAddress(address);
      HasRoleInStore(voterRoles, address);
      b := r.Success?;
    }

    /** CountRolesForAddress: the number of walked roles held by `address`, kept in a uint32 that wraps. */
    method CountRolesForAddress(address: string) returns (n: uint32)
      ensures n == CountAddress(StoredRoles(), address) % TwoTo32
    {
      var rs := Walk();
      n := 0;
      var i := 0;
      while i < |rs|
        invariant 0 <= i <= |rs|
        invariant n == CountAddress(rs[..i], address) % TwoTo32
      {
        CountAddressSnoc(rs, i, address);
        IncrementWraps(CountAddress(rs[..i], address));
        if rs[i].address == address {
          n := (n + 1) % TwoTo32;
        }
        i := i + 1;
      }
      assert rs[..i] == rs;
    }

    /** ListVoterRolesByRole: the walked roles of kind `role`, in walk order. */
    method ListVoterRolesByRole(role: string) returns (out: seq<VoterRole>)
      ensures out == WithRole(StoredRoles(), role)
    {
      var rs := Walk();
      out := [];
      var i := 0;
      while i < |rs|
        invariant 0 <= i <= |rs|
        invariant out == WithRole(rs[..i], role)
      {
        WithRoleSnoc(rs, i, role);
        if rs[i].role == role {
          out := out + [rs[i]];
        }
        i := i + 1;
      }
      assert rs[..i] == rs;
    }

    /** GetVoterRoleStats: for each role kind present, how many roles have it. */
    method GetVoterRoleStats() returns (stats: map<string, nat>)
      ensures stats == RoleStats(StoredRoles())
    {
      var rs := Walk();
      stats := map[];
      var i := 0;
      while i < |rs|
        invariant 0 <= i <= |rs|
        invariant stats == RoleStats(rs[..i])
      {
        RoleStatsSnoc(rs, i);
        var kind := rs[i].role;
        stats := stats[kind := (if kind in stats then stats[kind] else 0) + 1];
        i := i + 1;
      }
      assert rs[..i] == rs;
    }

    /**
     * GetVotingMultiplier as written: its fallback to 1.0 waits for the store's
     * not-found error, which the lookup by address never returns, so an address
     * without a role gets the lookup's error.
     */
    method GetVotingMultiplier(address: string) returns (r: Result<Dec, Error>)
      ensures r == VotingMultiplier(parse, StoredRoles(), address)
    {
      var found := GetVoterRoleByAddress(address);
      if found.Failure? {
        return Failure(found.error);
      }
      match parse(found.value.multiplier)
      case None => r := Failure(InvalidMultiplierFormat(found.value.multiplier));
      case Some(m) => r := Success(m);
    }

    /** GetVotingMultiplier with the fallback its comment describes: 1.0 for an address without a role. */
    method GetVotingMultiplierOrDefault(address: string) returns (r: Result<Dec, Error>)
      ensures r == VotingMultiplierOrDefault(parse, StoredRoles(), address)
    {
      var found := GetVoterRoleByAddress(address);
      if found.Failure? {
        return Success(One);
      }
      r := GetVotingMultiplier(address);
    }

    /**
     * The checks CreateVoterRole makes before it writes anything, in order: the
     * authority gate, that params are set, the cooldown, the role's fields,
     * that the address holds no role yet, and the per-address cap. Since an
     * address reaching the cap check holds no role, the cap only rejects when
     * it is zero.
     */
    ghost function CreateCheck(msg: MsgCreateVoterRole, now: int64): (r: Outcome<Error>)
      reads this
      ensures r.Pass? <==>
        && codec(msg.creator) == Some(authority)
        && params.Some?
        && RateLimitCheck(params.value, lastRoleCreationTime, now).Pass?
        && ValidateVoterRole(codec, parse, msg.address, msg.role, msg.multiplier).Pass?
        && (forall k :: k in voterRoles ==> voterRoles[k].address != msg.address)
        && params.value.maxVoterRolesPerAddress > 0
      ensures codec(msg.creator) != Some(authority) ==> r == AuthorityCheck(codec, authority, msg.creator)
      ensures codec(msg.creator) == Some(authority) && params.None? ==> r == Fail(ParamsUnavailable)
      ensures
        (&& codec(msg.creator) == Some(authority)
         && params.Some?
         && RateLimitCheck(params.value, lastRoleCreationTime, now).Pass?
         && ValidateVoterRole(codec, parse, msg.address, msg.role, msg.multiplier).Pass?
         && (exists k :: k in voterRoles && voterRoles[k].address == msg.address))
        ==> r == Fail(AlreadyHasRole(msg.address))
      ensures r.Fail? ==> r.error.Code() != ErrKeyNotFound
    {
      var auth := AuthorityCheck(codec, authority, msg.creator);
      if auth.Fail? then auth
      else if params.None? then Fail(ParamsUnavailable)
      else
        var limit := RateLimitCheck(params.value, lastRoleCreationTime, now);
        var valid := ValidateVoterRole(codec, parse, msg.address, msg.role, msg.multiplier);
        if limit.Fail? then limit
        else if valid.Fail? then valid
        else if exists k :: k in voterRoles && voterRoles[k].address == msg.address then Fail(AlreadyHasRole(msg.address))
        else if params.value.maxVoterRolesPerAddress == 0 then Fail(RoleLimitReached(msg.address, 0))
        else Pass
    }

    /** The checks of CreateVoterRole, made with the store's lookups and counts. */
    method CheckCreate(msg: MsgCreateVoterRole, now: int64) returns (r: Outcome<Error>)
      ensures r == CreateCheck(msg, now)
    {
      r := AuthorityCheck(codec, authority, msg.creator);
      if r.Fail? {
        return;
      }
      if params.None? {
        return Fail(ParamsUnavailable);
      }
      var p := params.value;
      r := RateLimitCheck(p, lastRoleCreationTime, now);
      if r.Fail? {
        return;
      }
      r := ValidateVoterRole(codec, parse, msg.address, msg.role, msg.multiplier);
      if r.Fail? {
        return;
      }
      var has := HasVoterRole(msg.address);
      if has {
        return Fail(AlreadyHasRole(msg.address));
      }
      var count := CountRolesForAddress(msg.address);
      HasRoleInStore(voterRoles, msg.address);
      CountAddressZeroIff(StoredRoles(), msg.address);
      if count >= p.maxVoterRolesPerAddress {
        return Fail(RoleLimitReached(msg.address, p.maxVoterRolesPerAddress));
      }
    }

    /**
     * CreateVoterRole. When every check passes, the role takes the sequence's
     * current value as id, its fields are copied from the message, the
     * sequence advances and the block time is recorded; otherwise nothing
     * changes.
     */
    method CreateVoterRole(msg: MsgCreateVoterRole, blockTime: int64) returns (r: Result<uint64, Error>)
      modifies this
      ensures r.Failure? <==> old(CreateCheck(msg, blockTime)).Fail?
      ensures r.Failure? ==>
        && r.error == old(CreateCheck(msg, blockTime)).error
        && voterRoles == old(voterRoles) && voterRoleSeq == old(voterRoleSeq)
        && lastRoleCreationTime == old(lastRoleCreationTime)
      ensures r.Success? ==>
        && r.value == old(voterRoleSeq)
        && voterRoles == old(voterRoles)[r.value :=
             VoterRole(r.value, msg.creator, msg.address, msg.role, msg.multiplier, msg.addedAt, msg.addedBy)]
        && voterRoleSeq == (old(voterRoleSeq) + 1) % TwoTo64
        && lastRoleCreationTime == Some(blockTime)
      ensures r.Success? ==> forall k :: k in voterRoles && voterRoles[k].address == msg.address ==> k == r.value
      ensures r.Success? && old(Valid()) ==> r.value !in old(voterRoles)
      ensures old(Valid()) && old(voterRoleSeq) + 1 < TwoTo64 ==> Valid()
      ensures old(KeysMatchIds()) ==> KeysMatchIds()
      ensures params == old(params) && port == old(port)
    {
      var check := CheckCreate(msg, blockTime);
      if check.Fail? {
        return Failure(check.error);
      }
      var id := voterRoleSeq;
      voterRoleSeq := (voterRoleSeq + 1) % TwoTo64;
      voterRoles := voterRoles[id := VoterRole(id, msg.creator, msg.address, msg.role, msg.multiplier, msg.addedAt, msg.addedBy)];
      lastRoleCreationTime := Some(blockTime);
      return Success(id);
    }

    /**
     * UpdateVoterRole: the authority gate, then the role's fields, then that
     * the id exists; on success the whole record at that id is replaced. The
     * cooldown and the one-role-per-address rule do not apply, and the
     * sequence and the last creation time are not touched.
     */
    method UpdateVoterRole(msg: MsgUpdateVoterRole) returns (r: Outcome<Error>)
      modifies this`voterRoles
      ensures AuthorityCheck(codec, authority, msg.creator).Fail? ==>
        r == AuthorityCheck(codec, authority, msg.creator)
      ensures AuthorityCheck(codec, authority, msg.creator).Pass? ==>
        var valid := ValidateVoterRole(codec, parse, msg.address, msg.role, msg.multiplier);
        && (valid.Fail? ==> r == valid)
        && (valid.Pass? && msg.id !in old(voterRoles) ==> r == Fail(KeyNotFound(msg.id)))
        && (r.Pass? <==> valid.Pass? && msg.id in old(voterRoles))
      ensures voterRoles == if r.Pass? then
          old(voterRoles)[msg.id := VoterRole(msg.id, msg.creator, msg.address, msg.role, msg.multiplier, msg.addedAt, msg.addedBy)]
        else old(voterRoles)
      ensures r.Pass? ==> voterRoles.Keys == old(voterRoles).Keys
      ensures old(Valid()) ==> Valid()
    {
      r := AuthorityCheck(codec, authority, msg.creator);
      if r.Fail? {
        return;
      }
      r := ValidateVoterRole(codec, parse, msg.address, msg.role, msg.multiplier);
      if r.Fail? {
        return;
      }
      if msg.id !in voterRoles {
        return Fail(KeyNotFound(msg.id));
      }
      voterRoles := voterRoles[msg.id := VoterRole(msg.id, msg.creator, msg.address, msg.role, msg.multiplier, msg.addedAt, msg.addedBy)];
    }

    /**
     * DeleteVoterRole: the authority gate, then that the id exists; on success
     * exactly that entry is removed. The sequence is not rewound.
     */
    method DeleteVoterRole(msg: MsgDeleteVoterRole) returns (r: Outcome<Error>)
      modifies this`voterRoles
      ensures AuthorityCheck(codec, authority, msg.creator).Fail? ==>
        r == AuthorityCheck(codec, authority, msg.creator)
      ensures AuthorityCheck(codec, authority, msg.creator).Pass? ==>
        (r.Pass? <==> msg.id in old(voterRoles)) && (r.Fail? ==> r == Fail(KeyNotFound(msg.id)))
      ensures voterRoles == if r.Pass? then old(voterRoles) - {msg.id} else old(voterRoles)
      ensures old(Valid()) ==> Valid()
    {
      r := AuthorityCheck(codec, authority, msg.creator);
      if r.Fail? {
        return;
      }
      if msg.id !in voterRoles {
        return Fail(KeyNotFound(msg.id));
      }
      voterRoles := voterRoles - {msg.id};
    }

    /**
     * InitGenesis: sets the port, stores each listed role under its own id in
     * list order, sets the sequence to the listed count and sets params.
     */
    method InitGenesis(gs: GenesisState)
      modifies this
      ensures port == Some(gs.portId) && params == Some(gs.params)
      ensures voterRoles == PutAll(old(voterRoles), gs.voterRoleList)
      ensures voterRoleSeq == gs.voterRoleCount
      ensures lastRoleCreationTime == old(lastRoleCreationTime)
    {
      port := Some(gs.portId);
      voterRoles := StoreAll(voterRoles, gs.voterRoleList);
      voterRoleSeq := gs.voterRoleCount;
      params := Some(gs.params);
    }

    /**
     * ExportGenesis: fails when params are unset; an unset port exports as the
     * empty string; the roles are listed in walk order with the sequence's
     * current value as the count.
     */
    method ExportGenesis() returns (r: Option<GenesisState>)
      ensures r.None? <==> params.None?
      ensures r.Some? ==> r.value == GenesisState(params.value, if port.Some? then port.value else [], StoredRoles(), voterRoleSeq)
    {
      if params.None? {
        return None;
      }
      var portId := if port.Some? then port.value else [];
      var roles := Walk();
      return Some(GenesisState(params.value, portId, roles, voterRoleSeq));
    }
  }

  /**
   * Importing a genesis state whose role ids are strictly ascending into a
   * keeper with no stored roles, then exporting, gives the same state back.
   */
  method InitThenExport(k: Keeper, gs: GenesisState) returns (out: Option<GenesisState>)
    requires k.voterRoles == map[]
    requires StrictlyIncreasing(Ids(gs.voterRoleList))
    modifies k
    ensures out == Some(gs)
  {
    k.InitGenesis(gs);
    ImportedRolesWalkInOrder(gs.voterRoleList);
    out := k.ExportGenesis();
  }
}
