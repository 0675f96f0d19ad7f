/**
 * The voting module's default genesis state and its validation: the port
 * identifier first, then the role list (no id twice, every id below the
 * recorded count), then the parameters.
 */
module VotingGenesis {
  import opened Wrappers
  import opened VotingTypes
  import VotingParams

  /** The IBC host's port identifier validator: true when the identifier is acceptable. */
  type PortValidator = Bytes -> bool

  datatype GenesisError =
    | InvalidPortId
    | DuplicatedId(id: uint64)
    | IdNotBelowCount(id: uint64)
    | InvalidParams(cause: VotingParams.ParamsError)

  /** The default genesis: default parameters, the module's port, no roles and a zero count. */
  function DefaultGenesis(portID: Bytes): (gs: GenesisState)
    ensures gs.params == VotingParams.DefaultParams()
    ensures gs.portId == portID && gs.voterRoleList == [] && gs.voterRoleCount == 0
  {
    GenesisState(VotingParams.DefaultParams(), portID, [], 0)
  }

  /** The ids of the roles in `l`. */
  function IdSetOf(l: seq<VoterRole>): (s: set<uint64>)
    ensures forall i :: 0 <= i < |l| ==> l[i].id in s
  {
    if l == [] then {} else IdSetOf(l[..|l| - 1]) + {l[|l| - 1].id}
  }

  /** An id no role of `l` carries is not among its ids. */
  lemma {:induction false} NotInIdSetOf(l: seq<VoterRole>, k: uint64)
    requires forall i :: 0 <= i < |l| ==> l[i].id != k
    ensures k !in IdSetOf(l)
  {
    if l != [] {
      var init := l[..|l| - 1];
      assert forall i :: 0 <= i < |init| ==> init[i] == l[i];
      NotInIdSetOf(init, k);
    }
  }

  /**
   * The error the list check stops at, scanning `l` front to back: the first
   * entry whose id was already seen or is not below `count`.
   */
  function ListError(l: seq<VoterRole>, count: uint64): Option<GenesisError>
  {
    if l == [] then None
    else
      var init := l[..|l| - 1];
      var last := l[|l| - 1];
      match ListError(init, count)
      case Some(e) => Some(e)
      case None =>
        if last.id in IdSetOf(init) then Some(DuplicatedId(last.id))
        else if last.id >= count then Some(IdNotBelowCount(last.id))
        else None
  }

  /** The ids of `l` are pairwise distinct. */
  predicate DistinctIds(l: seq<VoterRole>) {
    forall i, j :: 0 <= i < j < |l| ==> l[i].id != l[j].id
  }

  /** Every id of `l` is below `count`. */
  predicate IdsBelow(l: seq<VoterRole>, count: uint64) {
    forall i :: 0 <= i < |l| ==> l[i].id < count
  }

  /** The list check passes exactly when no id repeats and every id is below the count. */
  lemma ListErrorNoneIff(l: seq<VoterRole>, count: uint64)
    ensures ListError(l, count).None? <==> DistinctIds(l) && IdsBelow(l, count)
  {
    if ListError(l, count).None? {
      PassedListIsDistinct(l, count);
    }
    if DistinctIds(l) && IdsBelow(l, count) {
      DistinctListPasses(l, count);
    }
  }

  lemma {:induction false} PassedListIsDistinct(l: seq<VoterRole>, count: uint64)
    requires ListError(l, count).None?
    ensures DistinctIds(l) && IdsBelow(l, count)
  {
    if l != [] {
      var n := |l| - 1;
      var init := l[..n];
      PassedListIsDistinct(init, count);
      assert l[n].id !in IdSetOf(init);
      forall i, j | 0 <= i < j < |l| ensures l[i].id != l[j].id {
        assert init[i] == l[i];
        if j < n {
          assert init[j] == l[j];
        } else {
          assert init[i].id in IdSetOf(init);
        }
      }
      forall i | 0 <= i < |l| ensures l[i].id < count {
        if i < n { assert init[i] == l[i]; }
      }
    }
  }

  lemma {:induction false} DistinctListPasses(l: seq<VoterRole>, count: uint64)
    requires DistinctIds(l) && IdsBelow(l, count)
    ensures ListError(l, count).None?
  {
    if l != [] {
      var n := |l| - 1;
      var init := l[..n];
      assert forall i :: 0 <= i < n ==> init[i] == l[i];
      DistinctListPasses(init, count);
      NotInIdSetOf(init, l[n].id);
    }
  }

  /** GenesisState.Validate as a value: the port, then the role list, then the parameters. */
  function ValidationOutcome(gs: GenesisState, portValid: PortValidator): (r: Outcome<GenesisError>)
    ensures !portValid(gs.portId) ==> r == Fail(InvalidPortId)
    ensures portValid(gs.portId) && ListError(gs.voterRoleList, gs.voterRoleCount).Some? ==>
      r == Fail(ListError(gs.voterRoleList, gs.voterRoleCount).value)
    ensures portValid(gs.portId) && DistinctIds(gs.voterRoleList) && IdsBelow(gs.voterRoleList, gs.voterRoleCount) ==>
      (r.Pass? <==> VotingParams.Validate(gs.params).Pass?)
    ensures r.Pass? <==>
      portValid(gs.portId) && DistinctIds(gs.voterRoleList) && IdsBelow(gs.voterRoleList, gs.voterRoleCount)
      && gs.params.maxVoterRolesPerAddress > 0
  {
    ListErrorNoneIff(gs.voterRoleList, gs.voterRoleCount);
    if !portValid(gs.portId) then Fail(InvalidPortId)
    else match ListError(gs.voterRoleList, gs.voterRoleCount)
      case Some(e) => Fail(e)
      case None =>
        match VotingParams.Validate(gs.params)
        case Fail(e) => Fail(InvalidParams(e))
        case Pass => Pass
  }

  /**
   * The scan of the role list: remembers the ids seen so far and stops at the
   * first repeated id or id not below the count.
   */
  method CheckRoleList(l: seq<VoterRole>, count: uint64) returns (e: Option<GenesisError>)
    ensures e == ListError(l, count)
  {
    var seen: set<uint64> := {};
    var i := 0;
    while i < |l|
      invariant 0 <= i <= |l|
      invariant ListError(l[..i], count).None?
      invariant seen == IdSetOf(l[..i])
    {
      var elem := l[i];
      assert l[..i + 1][..i] == l[..i];
      if elem.id in seen {
        assert ListError(l[..i + 1], count) == Some(DuplicatedId(elem.id));
        ListErrorExtends(l, i + 1, count);
        return Some(DuplicatedId(elem.id));
      }
      if elem.id >= count {
        assert ListError(l[..i + 1], count) == Some(IdNotBelowCount(elem.id));
        ListErrorExtends(l, i + 1, count);
        return Some(IdNotBelowCount(elem.id));
      }
      seen := seen + {elem.id};
      i := i + 1;
    }
    assert l[..i] == l;
    return None;
  }

  /** Validate: the port, then the scan of the role list, then the parameters. */
  method Validate(gs: GenesisState, portValid: PortValidator) returns (r: Outcome<GenesisError>)
    ensures r == ValidationOutcome(gs, portValid)
  {
    if !portValid(gs.portId) {
      return Fail(InvalidPortId);
    }
    var e := CheckRoleList(gs.voterRoleList, gs.voterRoleCount);
    if e.Some? {
      return Fail(e.value);
    }
    match VotingParams.Validate(gs.params)
    case Fail(pe) => return Fail(InvalidParams(pe));
    case Pass => return Pass;
  }

  /** Once a prefix of the list has failed, the whole list fails with the same error. */
  lemma {:induction false} ListErrorExtends(l: seq<VoterRole>, n: nat, count: uint64)
    requires n <= |l| && ListError(l[..n], count).Some?
    ensures ListError(l, count) == ListError(l[..n], count)
    decreases |l| - n
  {
    if n < |l| {
      assert l[..n + 1][..n] == l[..n];
      assert ListError(l[..n + 1], count) == ListError(l[..n], count);
      ListErrorExtends(l, n + 1, count);
    } else {
      assert l[..n] == l;
    }
  }

  /** The default genesis validates whenever the module's port identifier does. */
  lemma DefaultGenesisIsValid(portID: Bytes, portValid: PortValidator)
    requires portValid(portID)
    ensures ValidationOutcome(DefaultGenesis(portID), portValid) == Pass
  {
  }

  /** Two roles with ids 0 and 1, a count of 2 and valid parameters are accepted. */
  lemma TwoRolesBelowCountAreValid(gs: GenesisState, portValid: PortValidator)
    requires portValid(gs.portId) && gs.params == VotingParams.DefaultParams()
    requires |gs.voterRoleList| == 2 && gs.voterRoleList[0].id == 0 && gs.voterRoleList[1].id == 1
    requires gs.voterRoleCount == 2
    ensures ValidationOutcome(gs, portValid) == Pass
  {
  }

  /** A list holding some id twice is rejected, whatever the count and parameters. */
  lemma DuplicateIdIsRejected(gs: GenesisState, portValid: PortValidator, i: int, j: int)
    requires 0 <= i < j < |gs.voterRoleList| && gs.voterRoleList[i].id == gs.voterRoleList[j].id
    ensures ValidationOutcome(gs, portValid).Fail?
  {
  }

  /** A list holding an id at or above the count is rejected. */
  lemma IdAtCountIsRejected(gs: GenesisState, portValid: PortValidator, i: int)
    requires 0 <= i < |gs.voterRoleList| && gs.voterRoleList[i].id >= gs.voterRoleCount
    ensures ValidationOutcome(gs, portValid).Fail?
  {
  }
}
