/**
 * The weighted tally handler. It walks every stored voter role in ascending
 * id order, sums the tokens behind the voter's delegations, scales that
 * power by the role's multiplier, truncates it to an integer and credits it
 * to Yes. Roles it cannot price are skipped. The staking module is seen only
 * through the queries the handler makes.
 */
module WeightedTally {
  import opened Wrappers
  import opened VotingTypes
  import opened Decimal
  import opened VoterRoleUtils
  import opened VotingKeeper

  /** The number of delegations fetched per voter. */
  const MaxDelegationsPerVoter: nat := 100

  datatype Delegation = Delegation(validatorAddr: string, shares: Dec)

  /**
   * The staking queries the handler makes. `V` is the validator record, which
   * the tally only hands back to `tokensFromShares`. A query that fails is None.
   */
  datatype StakingView<!V> = StakingView(
    totalBondedTokens: Option<int>,
    getDelegatorDelegations: (Bytes, nat) -> Option<seq<Delegation>>,
    getValidator: string -> Option<V>,
    tokensFromShares: (V, Dec) -> Dec)

  /** LegacyDec multiplication, whose rounding belongs to the decimal library. */
  type DecMul = (Dec, Dec) -> Dec

  datatype TallyResult = TallyResult(yesCount: int, abstainCount: int, noCount: int, noWithVetoCount: int)

  datatype TallyError = TotalBondedUnavailable

  /** NewTallyResult: every count zero. */
  const ZeroTally: TallyResult := TallyResult(0, 0, 0, 0)

  /** The tokens behind `ds`; a delegation whose validator cannot be found adds nothing. */
  function PowerOf<V>(view: StakingView<V>, ds: seq<Delegation>): (power: Dec)
    ensures (forall i :: 0 <= i < |ds| ==> view.getValidator(ds[i].validatorAddr).None?) ==> power == 0
  {
    if ds == [] then 0
    else
      var d := ds[|ds| - 1];
      var rest := PowerOf(view, ds[..|ds| - 1]);
      assert forall i :: 0 <= i < |ds| - 1 ==> ds[..|ds| - 1][i] == ds[i];
      match view.getValidator(d.validatorAddr)
      case None => rest
      case Some(v) => rest + view.tokensFromShares(v, d.shares)
  }

  /** The multiplier a role votes with: its stored string parsed, or 1.0 when that fails. */
  function MultiplierOrOne(parse: DecParser, multiplier: string): (m: Dec)
    ensures parse(multiplier).Some? ==> m == parse(multiplier).value
    ensures parse(multiplier).None? ==> m == One
  {
    match parse(multiplier)
    case None => One
    case Some(m) => m
  }

  /**
   * The untruncated weighted power of one role, or None when the role is
   * skipped: its address does not decode or its delegations cannot be read.
   */
  function WeightedPower<V>(view: StakingView<V>, codec: AddressCodec, parse: DecParser, mul: DecMul, role: VoterRole): (w: Option<Dec>)
    ensures codec(role.address).None? ==> w.None?
    ensures codec(role.address).Some? ==>
      (w.None? <==> view.getDelegatorDelegations(codec(role.address).value, MaxDelegationsPerVoter).None?)
    ensures w.Some? ==>
      w.value == mul(PowerOf(view, view.getDelegatorDelegations(codec(role.address).value, MaxDelegationsPerVoter).value),
                     MultiplierOrOne(parse, role.multiplier))
  {
    match codec(role.address)
    case None => None
    case Some(addr) =>
      match view.getDelegatorDelegations(addr, MaxDelegationsPerVoter)
      case None => None
      case Some(ds) => Some(mul(PowerOf(view, ds), MultiplierOrOne(parse, role.multiplier)))
  }

  /** What one role adds to the Yes count: its weighted power truncated toward zero, or 0 when skipped. */
  function Contribution<V>(view: StakingView<V>, codec: AddressCodec, parse: DecParser, mul: DecMul, role: VoterRole): (c: int)
    ensures WeightedPower(view, codec, parse, mul, role).None? ==> c == 0
    ensures WeightedPower(view, codec, parse, mul, role).Some? ==>
      var w := WeightedPower(view, codec, parse, mul, role).value;
      w >= 0 ==> c * Precision <= w < (c + 1) * Precision
  {
    match WeightedPower(view, codec, parse, mul, role)
    case None => 0
    case Some(w) => TruncateInt(w)
  }

  /** The Yes count after crediting `rs` in order. */
  function YesTotal<V>(view: StakingView<V>, codec: AddressCodec, parse: DecParser, mul: DecMul, rs: seq<VoterRole>): int
  {
    if rs == [] then 0
    else YesTotal(view, codec, parse, mul, rs[..|rs| - 1]) + Contribution(view, codec, parse, mul, rs[|rs| - 1])
  }

  /** The untruncated sum of the weighted powers of the roles not skipped. */
  function ExactTotal<V>(view: StakingView<V>, codec: AddressCodec, parse: DecParser, mul: DecMul, rs: seq<VoterRole>): Dec
  {
    if rs == [] then 0
    else
      var w := WeightedPower(view, codec, parse, mul, rs[|rs| - 1]);
      ExactTotal(view, codec, parse, mul, rs[..|rs| - 1]) + (if w.Some? then w.value else 0)
  }

  /** The Yes count is additive over a split of the roles: each role is truncated on its own. */
  lemma {:induction false} YesTotalAppend<V>(view: StakingView<V>, codec: AddressCodec, parse: DecParser, mul: DecMul,
                                             a: seq<VoterRole>, b: seq<VoterRole>)
    ensures YesTotal(view, codec, parse, mul, a + b) ==
            YesTotal(view, codec, parse, mul, a) + YesTotal(view, codec, parse, mul, b)
    decreases |b|
  {
    if b == [] {
      assert a + b == a;
    } else {
      var init := b[..|b| - 1];
      assert (a + b)[..|a + b| - 1] == a + init;
      assert (a + b)[|a + b| - 1] == b[|b| - 1];
      YesTotalAppend(view, codec, parse, mul, a, init);
    }
  }

  /** Removing one role from the walk removes exactly its contribution. */
  lemma YesTotalRemove<V>(view: StakingView<V>, codec: AddressCodec, parse: DecParser, mul: DecMul,
                          rs: seq<VoterRole>, j: int)
    requires 0 <= j < |rs|
    ensures YesTotal(view, codec, parse, mul, rs) ==
            YesTotal(view, codec, parse, mul, rs[..j] + rs[j + 1..]) + Contribution(view, codec, parse, mul, rs[j])
  {
    assert rs == rs[..j] + ([rs[j]] + rs[j + 1..]);
    YesTotalAppend(view, codec, parse, mul, rs[..j], [rs[j]] + rs[j + 1..]);
    YesTotalAppend(view, codec, parse, mul, [rs[j]], rs[j + 1..]);
    assert [rs[j]][..0] == [];
    YesTotalAppend(view, codec, parse, mul, rs[..j], rs[j + 1..]);
  }

  /** The Yes count depends only on which roles are stored, not on the order they are visited in. */
  lemma {:induction false} YesTotalPermutation<V>(view: StakingView<V>, codec: AddressCodec, parse: DecParser, mul: DecMul,
                                                  a: seq<VoterRole>, b: seq<VoterRole>)
    requires multiset(a) == multiset(b)
    ensures YesTotal(view, codec, parse, mul, a) == YesTotal(view, codec, parse, mul, b)
    decreases |a|
  {
    if a != [] {
      var x := a[|a| - 1];
      var init := a[..|a| - 1];
      assert a == init + [x];
      assert x in multiset(b);
      var j :| 0 <= j < |b| && b[j] == x;
      var rest := b[..j] + b[j + 1..];
      assert b == b[..j] + [x] + b[j + 1..];
      assert multiset(rest) == multiset(b) - multiset{x};
      assert multiset(init) == multiset(a) - multiset{x};
      YesTotalPermutation(view, codec, parse, mul, init, rest);
      YesTotalRemove(view, codec, parse, mul, b, j);
    } else {
      assert |b| == |multiset(b)| == 0;
    }
  }

  /**
   * Per-role truncation loses less than one whole unit per role: when no
   * weighted power is negative, the Yes count is the exact weighted sum
   * rounded down by less than one unit for each role.
   */
  lemma {:induction false} YesTotalBounds<V>(view: StakingView<V>, codec: AddressCodec, parse: DecParser, mul: DecMul,
                                             rs: seq<VoterRole>)
    requires forall i :: 0 <= i < |rs| ==>
      var w := WeightedPower(view, codec, parse, mul, rs[i]);
      w.Some? ==> w.value >= 0
    ensures YesTotal(view, codec, parse, mul, rs) * Precision <= ExactTotal(view, codec, parse, mul, rs)
    ensures ExactTotal(view, codec, parse, mul, rs) < (YesTotal(view, codec, parse, mul, rs) + |rs|) * Precision || rs == []
  {
    if rs != [] {
      var init := rs[..|rs| - 1];
      assert forall i :: 0 <= i < |init| ==> init[i] == rs[i];
      YesTotalBounds(view, codec, parse, mul, init);
    }
  }

  /** The loop over one voter's delegations: the tokens behind them. */
  method DelegationPower<V>(view: StakingView<V>, ds: seq<Delegation>) returns (power: Dec)
    ensures power == PowerOf(view, ds)
  {
    power := 0;
    var j := 0;
    while j < |ds|
      invariant 0 <= j <= |ds|
      invariant power == PowerOf(view, ds[..j])
    {
      assert ds[..j + 1][..j] == ds[..j];
      var validator := view.getValidator(ds[j].validatorAddr);
      if validator.Some? {
        power := power + view.tokensFromShares(validator.value, ds[j].shares);
      }
      j := j + 1;
    }
    assert ds[..j] == ds;
  }

  /** One turn of the tally loop: what a role adds to the Yes count, or 0 when it is skipped. */
  method RoleContribution<V>(view: StakingView<V>, codec: AddressCodec, parse: DecParser, mul: DecMul, role: VoterRole)
    returns (c: int)
    ensures c == Contribution(view, codec, parse, mul, role)
  {
    c := 0;
    var addr := codec(role.address);
    if addr.Some? {
      var delegations := view.getDelegatorDelegations(addr.value, MaxDelegationsPerVoter);
      if delegations.Some? {
        var power := DelegationPower(view, delegations.value);
        var multiplier := MultiplierOrOne(parse, role.multiplier);
        c := TruncateInt(mul(power, multiplier));
      }
    }
  }

  /**
   * Tally: fails with the zero result when the total bonded tokens cannot be
   * read; otherwise credits every stored role, in walk order, to Yes. The
   * proposal is not consulted and the other counts stay zero.
   */
  method Tally<V, P>(k: Keeper, view: StakingView<V>, mul: DecMul, proposal: P) returns (result: TallyResult, err: Option<TallyError>)
    ensures view.totalBondedTokens.None? ==> result == ZeroTally && err == Some(TotalBondedUnavailable)
    ensures view.totalBondedTokens.Some? ==>
      && err.None?
      && result == TallyResult(YesTotal(view, k.codec, k.parse, mul, k.StoredRoles()), 0, 0, 0)
  {
    result := ZeroTally;
    if view.totalBondedTokens.None? {
      return result, Some(TotalBondedUnavailable);
    }
    var rs := k.Walk();
    var yes := 0;
    var i := 0;
    while i < |rs|
      invariant 0 <= i <= |rs|
      invariant yes == YesTotal(view, k.codec, k.parse, mul, rs[..i])
    {
      assert rs[..i + 1][..i] == rs[..i];
      var c := RoleContribution(view, k.codec, k.parse, mul, rs[i]);
      yes := yes + c;
      i := i + 1;
    }
    assert rs[..i] == rs;
    result := result.(yesCount := yes);
    return result, None;
  }
}
