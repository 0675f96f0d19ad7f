/**
 * The delegation module's vesting checks: whether an account may stake, whether
 * it is a vesting account, the staking-transaction gate built on the first, and
 * the vesting summary. Accounts are reached through the auth module's address
 * codec and account lookup; a vesting account's schedule is seen only through
 * the coins it reports as vested and still vesting at a block time.
 */
module Vesting {
  import opened Wrappers
  import opened VotingTypes

  /** A coin set: the amount held of each denomination. */
  type Coins = map<string, nat>

  datatype Coin = Coin(denom: string, amount: nat)

  /** The denomination the eligibility response reports amounts for. */
  const NativeDenom: string := "stake"

  /** The amount of `denom` in `c`; a denomination not held counts as zero. */
  function AmountOf(c: Coins, denom: string): (n: nat)
    ensures denom in c ==> n == c[denom]
    ensures denom !in c ==> n == 0
  {
    if denom in c then c[denom] else 0
  }

  /** No denomination holds a positive amount. */
  predicate IsZero(c: Coins) {
    forall d :: d in c ==> c[d] == 0
  }

  /** `a` holds at least as much of every denomination in `b` as `b` does. */
  predicate IsAllGTE(a: Coins, b: Coins) {
    forall d :: d in b ==> AmountOf(a, d) >= b[d]
  }

  /** Block time, in seconds. */
  type Time = int

  /**
   * An account as the auth module returns it. A vesting account carries its
   * schedule as the coins vested and still vesting at a given time, and the
   * coins originally put under vesting.
   */
  datatype Account =
    | BaseAccount
    | VestingAccount(vestedCoins: Time -> Coins, vestingCoins: Time -> Coins, originalVesting: Coins)

  /**
   * What the SDK's vesting accounts guarantee of their schedule: at every
   * block time the coins still vesting are the original grant minus the
   * coins vested, and vested coins never decrease as time goes on.
   */
  ghost predicate ConsistentSchedule(acc: Account) {
    acc.VestingAccount? ==>
      && (forall t: Time, d: string ::
            AmountOf(acc.vestedCoins(t), d) + AmountOf(acc.vestingCoins(t), d) == AmountOf(acc.originalVesting, d))
      && (forall t1: Time, t2: Time, d: string :: t1 <= t2 ==>
            AmountOf(acc.vestedCoins(t1), d) <= AmountOf(acc.vestedCoins(t2), d))
  }

  /**
   * The auth module's view: address decoding, account lookup (None when no
   * account exists) and the integer library's conversion of an amount to int64.
   */
  datatype AuthView = AuthView(
    stringToBytes: string -> Option<Bytes>,
    getAccount: Bytes -> Option<Account>,
    toInt64: nat -> int64)

  datatype Eligibility = Eligibility(
    isEligible: bool,
    reason: string,
    isVesting: bool,
    vestedAmount: int64,
    vestingAmount: int64)

  /** What the eligibility query and the vesting summary can fail with. */
  datatype VestingError = InvalidAddress | AccountNotFound | StakingNotAllowed(reason: string)

  const ReasonInvalidAddress: string := "invalid address format"
  const ReasonAccountNotFound: string := "account not found"
  const ReasonNonVesting: string := "non-vesting account"
  const ReasonAllVested: string := "all tokens are vested"
  const ReasonStillVesting: string := "tokens are still vesting - staking restricted"

  /** The account at `address`, or None when the address does not decode or no account exists. */
  function Lookup(auth: AuthView, address: string): (a: Option<Account>)
    ensures a.Some? <==> auth.stringToBytes(address).Some? && auth.getAccount(auth.stringToBytes(address).value).Some?
    ensures a.Some? ==> a.value == auth.getAccount(auth.stringToBytes(address).value).value
  {
    match auth.stringToBytes(address)
    case None => None
    case Some(addr) => auth.getAccount(addr)
  }

  /** The reported amount of the native denomination: its int64 conversion when positive, otherwise 0. */
  function ReportedAmount(auth: AuthView, c: Coins): (n: int64)
    ensures AmountOf(c, NativeDenom) == 0 ==> n == 0
    ensures AmountOf(c, NativeDenom) > 0 ==> n == auth.toInt64(AmountOf(c, NativeDenom))
  {
    var amount := AmountOf(c, NativeDenom);
    if amount > 0 then auth.toInt64(amount) else 0
  }

  /** A vesting account may stake once nothing is still vesting or everything original has vested. */
  predicate AllVested(acc: Account, now: Time)
    requires acc.VestingAccount?
  {
    IsZero(acc.vestingCoins(now)) || IsAllGTE(acc.vestedCoins(now), acc.originalVesting)
  }

  /**
   * CheckStakingEligibility: always answers, never fails. An undecodable
   * address or missing account is ineligible, a non-vesting account is
   * eligible, and a vesting account is eligible exactly when all its tokens
   * are vested.
   */
  function CheckStakingEligibility(auth: AuthView, now: Time, address: string): (r: Result<Eligibility, VestingError>)
    ensures r.Success?
    ensures auth.stringToBytes(address).None? ==>
      r.value == Eligibility(false, ReasonInvalidAddress, false, 0, 0)
    ensures auth.stringToBytes(address).Some? && Lookup(auth, address).None? ==>
      r.value == Eligibility(false, ReasonAccountNotFound, false, 0, 0)
    ensures Lookup(auth, address) == Some(BaseAccount) ==>
      r.value == Eligibility(true, ReasonNonVesting, false, 0, 0)
    ensures Lookup(auth, address).Some? && Lookup(auth, address).value.VestingAccount? ==>
      var acc := Lookup(auth, address).value;
      && r.value.isVesting
      && (r.value.isEligible <==> AllVested(acc, now))
      && r.value.reason == (if AllVested(acc, now) then ReasonAllVested else ReasonStillVesting)
      && r.value.vestedAmount == ReportedAmount(auth, acc.vestedCoins(now))
      && r.value.vestingAmount == ReportedAmount(auth, acc.vestingCoins(now))
  {
    match auth.stringToBytes(address)
    case None => Success(Eligibility(false, ReasonInvalidAddress, false, 0, 0))
    case Some(addr) =>
      match auth.getAccount(addr)
      case None => Success(Eligibility(false, ReasonAccountNotFound, false, 0, 0))
      case Some(BaseAccount) => Success(Eligibility(true, ReasonNonVesting, false, 0, 0))
      case Some(acc) =>
        var vested := acc.vestedCoins(now);
        var vesting := acc.vestingCoins(now);
        var vestedAmount := ReportedAmount(auth, vested);
        var vestingAmount := ReportedAmount(auth, vesting);
        if IsZero(vesting) || IsAllGTE(vested, acc.originalVesting) then
          Success(Eligibility(true, ReasonAllVested, true, vestedAmount, vestingAmount))
        else
          Success(Eligibility(false, ReasonStillVesting, true, vestedAmount, vestingAmount))
  }

  /** IsVestingAccount: false for an undecodable address or missing account, otherwise whether the account vests. */
  function IsVestingAccount(auth: AuthView, address: string): (b: bool)
    ensures b <==> Lookup(auth, address).Some? && Lookup(auth, address).value.VestingAccount?
  {
    match auth.stringToBytes(address)
    case None => false
    case Some(addr) =>
      match auth.getAccount(addr)
      case None => false
      case Some(acc) => acc.VestingAccount?
  }

  /**
   * ValidateStakingTransaction: passes exactly when the delegator is eligible,
   * otherwise fails with the eligibility reason. The amount is not consulted.
   */
  function ValidateStakingTransaction(auth: AuthView, now: Time, delegator: string, amount: Coin): (r: Outcome<VestingError>)
    ensures r.Pass? <==> CheckStakingEligibility(auth, now, delegator).value.isEligible
    ensures r.Fail? ==> r.error == StakingNotAllowed(CheckStakingEligibility(auth, now, delegator).value.reason)
  {
    match CheckStakingEligibility(auth, now, delegator)
    case Failure(e) => Fail(e)
    case Success(eligibility) =>
      if !eligibility.isEligible then Fail(StakingNotAllowed(eligibility.reason)) else Pass
  }

  datatype VestingInfo = VestingInfo(
    isVesting: bool,
    isFullyVested: bool,
    vestedCoins: Coins,
    vestingCoins: Coins,
    originalVesting: Coins,
    blockTime: Option<Time>)

  /**
   * GetVestingInfo: fails for an undecodable address or a missing account; a
   * non-vesting account is reported fully vested; a vesting account is fully
   * vested exactly when nothing is still vesting.
   */
  function GetVestingInfo(auth: AuthView, now: Time, address: string): (r: Result<VestingInfo, VestingError>)
    ensures auth.stringToBytes(address).None? ==> r == Failure(InvalidAddress)
    ensures auth.stringToBytes(address).Some? && Lookup(auth, address).None? ==> r == Failure(AccountNotFound)
    ensures r.Success? <==> Lookup(auth, address).Some?
    ensures Lookup(auth, address) == Some(BaseAccount) ==> r.value == VestingInfo(false, true, map[], map[], map[], None)
    ensures Lookup(auth, address).Some? && Lookup(auth, address).value.VestingAccount? ==>
      var acc := Lookup(auth, address).value;
      && r.value.isVesting
      && (r.value.isFullyVested <==> IsZero(acc.vestingCoins(now)))
      && r.value.vestedCoins == acc.vestedCoins(now)
      && r.value.vestingCoins == acc.vestingCoins(now)
      && r.value.originalVesting == acc.originalVesting
      && r.value.blockTime == Some(now)
  {
    match auth.stringToBytes(address)
    case None => Failure(InvalidAddress)
    case Some(addr) =>
      match auth.getAccount(addr)
      case None => Failure(AccountNotFound)
      case Some(BaseAccount) => Success(VestingInfo(false, true, map[], map[], map[], None))
      case Some(acc) =>
        var vesting := acc.vestingCoins(now);
        Success(VestingInfo(true, IsZero(vesting), acc.vestedCoins(now), vesting, acc.originalVesting, Some(now)))
  }

  /** The two queries agree on which addresses hold vesting accounts. */
  lemma EligibilityReportsVesting(auth: AuthView, now: Time, address: string)
    ensures CheckStakingEligibility(auth, now, address).value.isVesting == IsVestingAccount(auth, address)
  {
  }

  /** Whatever the block time, a non-vesting account may stake and a missing one may not. */
  lemma EligibilityOfNonVesting(auth: AuthView, t1: Time, t2: Time, address: string)
    requires !IsVestingAccount(auth, address)
    ensures CheckStakingEligibility(auth, t1, address) == CheckStakingEligibility(auth, t2, address)
    ensures CheckStakingEligibility(auth, t1, address).value.isEligible <==> Lookup(auth, address).Some?
  {
  }

  /** An account the summary reports fully vested may stake. */
  lemma FullyVestedIsEligible(auth: AuthView, now: Time, address: string)
    requires GetVestingInfo(auth, now, address).Success?
    requires GetVestingInfo(auth, now, address).value.isFullyVested
    ensures CheckStakingEligibility(auth, now, address).value.isEligible
  {
  }

  /** Every account eligibility rejects is either unknown or still vesting by the summary's own measure. */
  lemma IneligibleIsUnknownOrVesting(auth: AuthView, now: Time, address: string)
    requires !CheckStakingEligibility(auth, now, address).value.isEligible
    ensures GetVestingInfo(auth, now, address).Failure? ||
            (GetVestingInfo(auth, now, address).value.isVesting && !GetVestingInfo(auth, now, address).value.isFullyVested)
  {
  }

  /** The staking gate gives the same answer for any amount, of any denomination. */
  lemma ValidationIgnoresAmount(auth: AuthView, now: Time, delegator: string, a: Coin, b: Coin)
    ensures ValidateStakingTransaction(auth, now, delegator, a) == ValidateStakingTransaction(auth, now, delegator, b)
  {
  }

  /** Under a consistent schedule, nothing is left vesting exactly when the vested coins cover the grant. */
  lemma AllVestedIffNothingVesting(acc: Account, now: Time)
    requires acc.VestingAccount? && ConsistentSchedule(acc)
    ensures AllVested(acc, now) <==> IsZero(acc.vestingCoins(now))
  {
    if IsAllGTE(acc.vestedCoins(now), acc.originalVesting) {
      forall d | d in acc.vestingCoins(now)
        ensures acc.vestingCoins(now)[d] == 0
      {
        assert AmountOf(acc.vestedCoins(now), d) + AmountOf(acc.vestingCoins(now), d) == AmountOf(acc.originalVesting, d);
      }
    }
  }

  /** Under a consistent schedule, once nothing is vesting, nothing is vesting at any later time. */
  lemma NothingVestingPersists(acc: Account, t1: Time, t2: Time)
    requires acc.VestingAccount? && ConsistentSchedule(acc)
    requires t1 <= t2 && IsZero(acc.vestingCoins(t1))
    ensures IsZero(acc.vestingCoins(t2))
  {
    forall d | d in acc.vestingCoins(t2)
      ensures acc.vestingCoins(t2)[d] == 0
    {
      assert AmountOf(acc.vestedCoins(t1), d) + AmountOf(acc.vestingCoins(t1), d) == AmountOf(acc.originalVesting, d);
      assert AmountOf(acc.vestedCoins(t2), d) + AmountOf(acc.vestingCoins(t2), d) == AmountOf(acc.originalVesting, d);
      assert AmountOf(acc.vestedCoins(t1), d) <= AmountOf(acc.vestedCoins(t2), d);
    }
  }

  /** For an account with a consistent schedule, eligibility and the summary's "fully vested" agree. */
  lemma EligibleIffFullyVested(auth: AuthView, now: Time, address: string)
    requires Lookup(auth, address).Some? && ConsistentSchedule(Lookup(auth, address).value)
    ensures CheckStakingEligibility(auth, now, address).value.isEligible <==> GetVestingInfo(auth, now, address).value.isFullyVested
  {
    var acc := Lookup(auth, address).value;
    if acc.VestingAccount? {
      AllVestedIffNothingVesting(acc, now);
    }
  }

  /** Under a consistent schedule, an address that may stake at one block time may stake at every later one. */
  lemma EligibilityPersists(auth: AuthView, t1: Time, t2: Time, address: string)
    requires Lookup(auth, address).None? || ConsistentSchedule(Lookup(auth, address).value)
    requires t1 <= t2 && CheckStakingEligibility(auth, t1, address).value.isEligible
    ensures CheckStakingEligibility(auth, t2, address).value.isEligible
  {
    var acc := Lookup(auth, address).value;
    if acc.VestingAccount? {
      AllVestedIffNothingVesting(acc, t1);
      NothingVestingPersists(acc, t1, t2);
      AllVestedIffNothingVesting(acc, t2);
    }
  }

  /**
   * Eligibility and "fully vested" part only for a schedule that breaks the
   * SDK's identity: an account reporting its whole grant vested while coins
   * are still reported vesting may stake, yet is not fully vested.
   */
  lemma EligibleWhileStillVesting(auth: AuthView, now: Time, address: string)
    requires Lookup(auth, address).Some? && Lookup(auth, address).value.VestingAccount?
    requires Lookup(auth, address).value.vestedCoins(now) == map["stake" := 10]
    requires Lookup(auth, address).value.vestingCoins(now) == map["stake" := 5]
    requires Lookup(auth, address).value.originalVesting == map["stake" := 10]
    ensures CheckStakingEligibility(auth, now, address).value.isEligible
    ensures !GetVestingInfo(auth, now, address).value.isFullyVested
    ensures !ConsistentSchedule(Lookup(auth, address).value)
  {
    var acc := Lookup(auth, address).value;
    assert acc.vestingCoins(now)["stake"] != 0;
    assert AmountOf(acc.vestedCoins(now), "stake") + AmountOf(acc.vestingCoins(now), "stake") != AmountOf(acc.originalVesting, "stake");
  }
}
