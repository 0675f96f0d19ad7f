/**
 * The vesting ante decorator. Outside simulation it checks every delegate and
 * redelegate message of a transaction against the vesting gate and rejects
 * the transaction at the first message that fails; otherwise it hands the
 * transaction on to the next handler unchanged.
 */
module VestingAnte {
  import opened Wrappers
  import opened Vesting

  /** The staking messages the decorator distinguishes; every other kind is `OtherMsg`. */
  datatype Msg =
    | MsgDelegate(delegatorAddress: string, validatorAddress: string, amount: Coin)
    | MsgBeginRedelegate(delegatorAddress: string, validatorSrcAddress: string, validatorDstAddress: string, amount: Coin)
    | MsgUndelegate(delegatorAddress: string, validatorAddress: string, amount: Coin)
    | OtherMsg(typeUrl: string)

  datatype Tx = Tx(msgs: seq<Msg>)

  /** The part of the context the decorator reads: the block time the vesting schedule is evaluated at. */
  datatype Context = Context(blockTime: Time)

  /** ErrInvalidRequest wrapping "vesting validation failed: " and the gate's own error. */
  datatype AnteError = VestingValidationFailed(cause: VestingError)

  datatype AnteResult = AnteResult(ctx: Context, err: Option<AnteError>)

  /** The rest of the ante chain. */
  type AnteHandler = (Context, Tx, bool) -> AnteResult

  /** validateDelegation: the staking gate at the context's block time, its failure wrapped. */
  function ValidateDelegation(auth: AuthView, ctx: Context, delegator: string, amount: Coin): (r: Outcome<AnteError>)
    ensures r.Pass? <==> CheckStakingEligibility(auth, ctx.blockTime, delegator).value.isEligible
    ensures r.Fail? ==> r.error == VestingValidationFailed(StakingNotAllowed(CheckStakingEligibility(auth, ctx.blockTime, delegator).value.reason))
  {
    match ValidateStakingTransaction(auth, ctx.blockTime, delegator, amount)
    case Fail(e) => Fail(VestingValidationFailed(e))
    case Pass => Pass
  }

  /** What checking one message gives: delegations and redelegations go through the gate, the rest pass. */
  function CheckMsg(auth: AuthView, ctx: Context, m: Msg): (r: Outcome<AnteError>)
    ensures (m.MsgUndelegate? || m.OtherMsg?) ==> r.Pass?
    ensures (m.MsgDelegate? || m.MsgBeginRedelegate?) ==>
      r == ValidateDelegation(auth, ctx, m.delegatorAddress, m.amount)
  {
    match m
    case MsgDelegate(delegator, _, amount) => ValidateDelegation(auth, ctx, delegator, amount)
    case MsgBeginRedelegate(delegator, _, _, amount) => ValidateDelegation(auth, ctx, delegator, amount)
    case MsgUndelegate(_, _, _) => Pass
    case OtherMsg(_) => Pass
  }

  /** A message the decorator lets through: an ungated kind, or a gated one whose delegator may stake. */
  predicate Admitted(auth: AuthView, ctx: Context, m: Msg) {
    (m.MsgDelegate? || m.MsgBeginRedelegate?) ==> CheckStakingEligibility(auth, ctx.blockTime, m.delegatorAddress).value.isEligible
  }

  /** The error of the first message that fails its check, or None when every message passes. */
  function FirstRejection(auth: AuthView, ctx: Context, msgs: seq<Msg>): (r: Option<AnteError>)
    ensures r.None? <==> forall i :: 0 <= i < |msgs| ==> Admitted(auth, ctx, msgs[i])
  {
    if msgs == [] then None
    else
      match CheckMsg(auth, ctx, msgs[0])
      case Fail(e) => Some(e)
      case Pass =>
        var rest := FirstRejection(auth, ctx, msgs[1..]);
        assert forall i :: 1 <= i < |msgs| ==> msgs[1..][i - 1] == msgs[i];
        rest
  }

  /** The rejection reported is the one of the first message not admitted. */
  lemma {:induction false} FirstRejectionAt(auth: AuthView, ctx: Context, msgs: seq<Msg>, i: int)
    requires 0 <= i < |msgs| && !Admitted(auth, ctx, msgs[i])
    requires forall j :: 0 <= j < i ==> Admitted(auth, ctx, msgs[j])
    ensures FirstRejection(auth, ctx, msgs) == Some(CheckMsg(auth, ctx, msgs[i]).error)
    ensures FirstRejection(auth, ctx, msgs) ==
      Some(VestingValidationFailed(StakingNotAllowed(CheckStakingEligibility(auth, ctx.blockTime, msgs[i].delegatorAddress).value.reason)))
  {
    if i > 0 {
      assert Admitted(auth, ctx, msgs[0]);
      assert msgs[1..][i - 1] == msgs[i];
      FirstRejectionAt(auth, ctx, msgs[1..], i - 1);
    }
  }

  /**
   * AnteHandle: in simulation, or when every message is admitted, the result is
   * the next handler's on the same context, transaction and flag; otherwise
   * the first rejection, with the context unchanged and the next handler not
   * consulted.
   */
  function AnteHandle(auth: AuthView, ctx: Context, tx: Tx, simulate: bool, next: AnteHandler): (r: AnteResult)
    ensures simulate ==> r == next(ctx, tx, simulate)
    ensures !simulate && (forall i :: 0 <= i < |tx.msgs| ==> Admitted(auth, ctx, tx.msgs[i])) ==> r == next(ctx, tx, simulate)
    ensures !simulate && !(forall i :: 0 <= i < |tx.msgs| ==> Admitted(auth, ctx, tx.msgs[i])) ==>
      r.ctx == ctx && r.err.Some?
  {
    if simulate then next(ctx, tx, simulate)
    else
      match FirstRejection(auth, ctx, tx.msgs)
      case Some(e) => AnteResult(ctx, Some(e))
      case None => next(ctx, tx, simulate)
  }

  /** A transaction of undelegations and other ungated messages is always handed on. */
  lemma UngatedTxPasses(auth: AuthView, ctx: Context, tx: Tx, next: AnteHandler)
    requires forall i :: 0 <= i < |tx.msgs| ==> tx.msgs[i].MsgUndelegate? || tx.msgs[i].OtherMsg?
    ensures AnteHandle(auth, ctx, tx, false, next) == next(ctx, tx, false)
  {
  }

  /**
   * A rejected transaction is rejected with the gate's error for its first
   * inadmissible delegation, and that delegation's delegator may not stake.
   */
  lemma RejectionNamesFirstFailure(auth: AuthView, ctx: Context, tx: Tx, next: AnteHandler, i: int)
    requires 0 <= i < |tx.msgs| && !Admitted(auth, ctx, tx.msgs[i])
    requires forall j :: 0 <= j < i ==> Admitted(auth, ctx, tx.msgs[j])
    ensures tx.msgs[i].MsgDelegate? || tx.msgs[i].MsgBeginRedelegate?
    ensures !CheckStakingEligibility(auth, ctx.blockTime, tx.msgs[i].delegatorAddress).value.isEligible
    ensures AnteHandle(auth, ctx, tx, false, next) ==
      AnteResult(ctx, Some(VestingValidationFailed(StakingNotAllowed(
        CheckStakingEligibility(auth, ctx.blockTime, tx.msgs[i].delegatorAddress).value.reason))))
  {
    FirstRejectionAt(auth, ctx, tx.msgs, i);
  }
}
