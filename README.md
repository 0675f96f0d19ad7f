# Weighted governance: a Dafny model

This project models the core of a Cosmos SDK chain that replaces token-weighted governance with role-weighted governance. The model covers five areas.

- **The voting module's voter-role registry.** Governance creates, updates and deletes voter roles. A role binds an account address to a role kind (`core_contributor`, `validator`, `community_member`, `strategic_partner`) and a decimal voting multiplier. The keeper's read-only lookups walk the stored roles in ascending id order.
- **Genesis import and export for the voting module, and validation of its genesis state and parameters.**
- **The weighted tally handler.** It credits every registered voter's delegated tokens, scaled by the role's multiplier and truncated to an integer, to the Yes count.
- **The delegation module's vesting checks and the ante decorator built on them.** The decorator refuses delegations and redelegations from accounts whose tokens are still vesting. The delegation module's parameters are modelled too.
- **The protobuf codec of the voting module's `GenesisState`.** This covers Size, Marshal (which writes back to front into a sized buffer), Unmarshal and the unknown-field skipper.

Everything the core reaches outside itself becomes a parameter of the model:

| Outside dependency | Model |
|---|---|
| The bech32 address codec | `AddressCodec` |
| The decimal parser | `DecParser` |
| `LegacyDec` multiplication | `DecMul` |
| The staking keeper's queries | `StakingView` |
| The auth module's account lookup and the int64 conversion of amounts | `AuthView` |
| The IBC port-identifier validator | `PortValidator` |
| The nested `Params` and `VoterRole` codecs | `NestedEncoders` / `NestedDecoders` |
| The block time | a parameter |

Other modelling choices:

- A decimal is an integer in units of 10^-18.
- Go's fixed-width integers are subset types (`uint32`, `uint64`, `int64`, `byte`). Wherever they can overflow, the wrap-around is written out.
- The keeper is a class whose fields are the module's store items. An item that may be unset is an `Option`.

Modules, one per file:

| Module | File | What it holds |
|---|---|---|
| `Wrappers` | wrappers.dfy | `Option`, `Result` and `Outcome` |
| `Decimal` | decimal.dfy | `LegacyDec` as scaled integers |
| `VotingTypes` | voting_types.dfy | entities, integer widths and errors |
| `VotingParams` | voting_params.dfy | voting module parameters |
| `VotingGenesis` | voting_genesis.dfy | voting genesis defaults and validation |
| `RoleOrder` | role_order.dfy | the ascending-id walk over a `map<uint64, V>` |
| `VoterRoleUtils` | voter_role_utils.dfy | pure specifications of the keeper's lookups |
| `VotingKeeper` | voting_keeper.dfy | the `Keeper` class, message handlers and genesis |
| `WeightedTally` | weighted_tally.dfy | the weighted tally |
| `DelegationParams` | delegation_params.dfy | delegation module parameters |
| `Vesting` | vesting.dfy | the vesting checks |
| `VestingAnte` | vesting_ante.dfy | the ante decorator |
| `GenesisWire` | genesis_wire.dfy | varints |
| `GenesisMarshal` | genesis_marshal.dfy | Size and Marshal |
| `GenesisSkip` | genesis_skip.dfy | the unknown-field skipper |
| `GenesisUnmarshal` | genesis_unmarshal.dfy | Unmarshal and the round trip |

## Model

| member | source | states |
|---|---|---|
| VotingTypes.SubInt64 | x/voting/keeper/msg_server_voter_role.go:40-44 | Go's int64 subtraction of block times equals the true difference whenever that difference fits in int64 |
| VotingTypes.IncrementWraps | x/voting/keeper/voter_role_utils.go:150-161 | advancing the uint32 role count by one (`count++`) is the same as wrapping the advanced value, so the wrapped count the loop keeps is the true count modulo 2^32 |
| Decimal.Pow10 | x/voting/keeper/voter_role_utils.go:86-87 | powers of ten used to place a decimal's precision are at least 1 |
| Decimal.TruncateInt | x/voting/keeper/tally.go:81-85 | the integer part of a decimal is rounded toward zero: for non-negative d, t*10^18 <= d < (t+1)*10^18, and the mirror bound for negative d |
| VotingParams.NewParams | x/voting/types/params.go:14-19 | the parameters hold exactly the given cap and cooldown |
| VotingParams.DefaultParams | x/voting/types/params.go:5-11 | the defaults are a cap of 1 role per address and a 300-second cooldown |
| VotingParams.Validate | x/voting/types/params.go:27-34 | validation fails exactly when the per-address cap is zero |
| VotingParams.DefaultParamsAreValid | x/voting/types/params.go:22-34 | the default parameters pass validation |
| VotingParams.ZeroCooldownIsValid | x/voting/types/params.go:27-34 | a zero cooldown with a positive cap is accepted, which means the rate limit can be switched off |
| DelegationParams.NewParams | x/delegation/types/params.go:9-13 | the parameters hold exactly the given stake denomination |
| DelegationParams.DefaultParams | x/delegation/types/params.go:3-18 | the default stake denomination is "stake" |
| DelegationParams.Validate | x/delegation/types/params.go:21-26 | validation fails, with ErrInvalidStakeDenom, exactly when the denomination is empty |
| DelegationParams.DefaultParamsAreValid | x/delegation/types/params.go:16-26 | the default parameters pass validation |
| VotingGenesis.DefaultGenesis | x/voting/types/genesis.go:10-14 | the default genesis has default params, the module port, no roles and count 0 |
| VotingGenesis.IdSetOf | x/voting/types/genesis.go:24-32 | every listed role's id is in the id set |
| VotingGenesis.NotInIdSetOf | x/voting/types/genesis.go:24-32 | an id that no listed role carries is not in the id set |
| VotingGenesis.ListErrorNoneIff | x/voting/types/genesis.go:24-32 | the role-list scan passes if and only if the ids are pairwise distinct and all below the count |
| VotingGenesis.PassedListIsDistinct | x/voting/types/genesis.go:24-32 | a list the scan passes has distinct ids, all below the count |
| VotingGenesis.DistinctListPasses | x/voting/types/genesis.go:24-32 | a list with distinct ids below the count passes the scan |
| VotingGenesis.ListErrorExtends | x/voting/types/genesis.go:24-32 | the scan reports the first error: once a prefix fails, the whole list fails with that same error |
| VotingGenesis.ValidationOutcome | x/voting/types/genesis.go:18-35 | checks run in order (port, then list, then params): an invalid port fails with InvalidPortId, else a list error is reported, else the params decide; the whole validation passes if and only if all three pass |
| VotingGenesis.CheckRoleList | x/voting/types/genesis.go:24-32 | the scanning loop with its id set returns exactly the list's first error |
| VotingGenesis.Validate | x/voting/types/genesis.go:18-35 | the validation method returns exactly the outcome specified by ValidationOutcome |
| VotingGenesis.DefaultGenesisIsValid | x/voting/types/genesis.go:10-35 | the default genesis validates whenever its port identifier does |
| VotingGenesis.TwoRolesBelowCountAreValid | x/voting/types/genesis.go:18-35 | roles with ids 0 and 1 and a count of 2 are accepted |
| VotingGenesis.DuplicateIdIsRejected | x/voting/types/genesis.go:25-27 | any list holding an id twice is rejected |
| VotingGenesis.IdAtCountIsRejected | x/voting/types/genesis.go:28-30 | any list holding an id at or above the count is rejected |
| RoleOrder.MinId | x/voting/keeper/voter_role_utils.go:20-26 | the smallest id of a non-empty set is in it and below every other element, which is where a store walk starts |
| RoleOrder.IdsAscendingMembers | x/voting/keeper/voter_role_utils.go:20-26 | the ascending listing holds exactly the ids of the set |
| RoleOrder.ConsIncreasing | x/voting/keeper/voter_role_utils.go:20-26 | putting a smaller id in front of a strictly increasing list keeps it strictly increasing |
| RoleOrder.IdsAscendingIsSorted | x/voting/keeper/voter_role_utils.go:20-26 | the walk visits ids in strictly increasing order |
| RoleOrder.ValuesAt | x/voting/keeper/voter_role_utils.go:20-26 | the values visited are the stored values at those ids, position by position |
| RoleOrder.IdsAscendingUnfold | x/voting/keeper/voter_role_utils.go:20-26 | the walk starts at the minimum, then walks the rest |
| RoleOrder.WalkStep | x/voting/keeper/voter_role_utils.go:20-26 | taking the minimum of the ids still to visit extends the visited prefix of the walk |
| RoleOrder.ValuesAtSnoc | x/voting/keeper/voter_role_utils.go:20-26 | visiting one more id appends its value |
| RoleOrder.HeadIsMin | x/voting/keeper/genesis.go:43-46 | the head of a strictly increasing listing of a set is its minimum |
| RoleOrder.TailLists | x/voting/keeper/genesis.go:43-46 | the tail of a strictly increasing listing lists the set without its minimum |
| RoleOrder.SortedListIsIdsAscending | x/voting/keeper/genesis.go:43-46 | a strictly increasing list is the walk order of its own elements |
| RoleOrder.InIdOrderMembers | x/voting/keeper/voter_role_utils.go:20-26 | a value is visited if and only if some stored id holds it |
| VoterRoleUtils.ValidateVoterRole | x/voting/keeper/voter_role_utils.go:61-97 | passes if and only if the address decodes, the role is one of the four kinds (core_contributor, validator, community_member, strategic_partner), the multiplier parses, and it lies in [0.1, 10.0]; each failure is the first failing check's own error (InvalidVoterAddress, InvalidRole, InvalidMultiplierFormat, MultiplierOutOfRange), registered as ErrInvalidAddress or ErrInvalidRequest |
| VoterRoleUtils.MultiplierBoundsAreInclusive | x/voting/keeper/voter_role_utils.go:86-92 | multipliers of exactly 0.1 and 10.0 are accepted |
| VoterRoleUtils.GetDefaultMultipliers | x/voting/keeper/voter_role_utils.go:100-107 | the default table has an entry for exactly the four valid role kinds |
| VoterRoleUtils.DefaultMultipliersValidate | x/voting/keeper/voter_role_utils.go:61-107 | every default multiplier passes validation for its role under a decimal parser |
| VoterRoleUtils.Addresses | x/voting/keeper/voter_role_utils.go:150-161 | the addresses of the roles, position by position |
| VoterRoleUtils.Roles | x/voting/keeper/voter_role_utils.go:134-147 | the role kinds of the roles, position by position |
| VoterRoleUtils.FirstWithAddress | x/voting/keeper/voter_role_utils.go:17-37 | the lookup finds nothing if and only if no role has the address; what it finds has the address and is stored |
| VoterRoleUtils.FirstWithAddressAt | x/voting/keeper/voter_role_utils.go:20-26 | the walk stops at the first role, in id order, held by the address |
| VoterRoleUtils.CountAddress | x/voting/keeper/voter_role_utils.go:150-161 | the count never exceeds the number of roles |
| VoterRoleUtils.CountAddressIsMultiplicity | x/voting/keeper/voter_role_utils.go:150-161 | the count is the multiplicity of the address among the roles' addresses |
| VoterRoleUtils.CountAddressZeroIff | x/voting/keeper/voter_role_utils.go:110-161 | the count is zero if and only if HasVoterRole is false |
| VoterRoleUtils.CountAddressSnoc | x/voting/keeper/voter_role_utils.go:152-157 | one more walked role adds one exactly when it has the address |
| VoterRoleUtils.WithRole | x/voting/keeper/voter_role_utils.go:116-131 | the filtered list is no longer than the walk |
| VoterRoleUtils.WithRoleSelects | x/voting/keeper/voter_role_utils.go:116-131 | the filtered list holds exactly the roles of that kind, as many as there are |
| VoterRoleUtils.WithRoleSnoc | x/voting/keeper/voter_role_utils.go:118-123 | one more walked role is appended exactly when it has that kind |
| VoterRoleUtils.WithRoleKeepsOrder | x/voting/keeper/voter_role_utils.go:116-131 | filtering distributes over concatenation, so walk order is kept |
| VoterRoleUtils.RoleStats | x/voting/keeper/voter_role_utils.go:134-147 | every reported kind has a count of at least one |
| VoterRoleUtils.RoleStatsCountsKinds | x/voting/keeper/voter_role_utils.go:134-147 | the stats hold exactly the role kinds present, each mapped to its multiplicity |
| VoterRoleUtils.RoleStatsSnoc | x/voting/keeper/voter_role_utils.go:137-140 | one more walked role increments its kind's count, starting at 1 |
| VoterRoleUtils.VotingMultiplier | x/voting/keeper/voter_role_utils.go:40-58 | as written: an address without a role gets the not-found error; otherwise the first role's multiplier parsed, or an invalid-format error |
| VoterRoleUtils.VotingMultiplierOrDefault | x/voting/keeper/voter_role_utils.go:40-47 | as intended: an address without a role gets 1.0, otherwise the result of VotingMultiplier |
| VoterRoleUtils.UnassignedAddressIsAnError | x/voting/keeper/voter_role_utils.go:44 | for every address without a role, the as-written and the intended multiplier differ |
| VotingKeeper.AuthorityCheck | x/voting/keeper/msg_server_voter_role.go:18-27 | passes if and only if the creator decodes to the authority; an undecodable creator gives InvalidCreatorAddress, any other creator gives NotAuthority |
| VotingKeeper.RateLimitCheck | x/voting/keeper/msg_server_voter_role.go:36-47 | no earlier creation or a zero cooldown passes; otherwise it passes exactly when the int64 elapsed time reaches the cooldown, and a rejection is an ErrInvalidRequest carrying cooldown minus elapsed |
| VotingKeeper.CooldownBoundaryPasses | x/voting/keeper/msg_server_voter_role.go:40-42 | an elapsed time exactly equal to the cooldown is allowed |
| VotingKeeper.RemainingIsPositive | x/voting/keeper/msg_server_voter_role.go:40-46 | when nothing wraps, a rejected creation reports a positive remaining time |
| VotingKeeper.Ids | x/voting/keeper/genesis.go:17-21 | the ids of the listed roles, position by position |
| VotingKeeper.PutAll | x/voting/keeper/genesis.go:17-21 | importing stores exactly the old ids plus the listed ids |
| VotingKeeper.PutAllStep | x/voting/keeper/genesis.go:17-21 | importing from index i writes entry i, then the rest |
| VotingKeeper.StoreAll | x/voting/keeper/genesis.go:17-21 | the import loop's result is the specified sequence of writes |
| VotingKeeper.PutAllKeeps | x/voting/keeper/genesis.go:17-21 | an id not listed keeps its old value |
| VotingKeeper.PutAllLastWins | x/voting/keeper/genesis.go:17-21 | the last listed role with an id is the one stored under it |
| VotingKeeper.IncreasingIdsAreUnique | x/voting/keeper/genesis.go:17-21 | ids of a strictly increasing list occur once |
| VotingKeeper.ImportedRolesWalkInOrder | x/voting/keeper/genesis.go:13-57 | importing a strictly ascending list into an empty store and walking gives the list back |
| VotingKeeper.ImportedAt | x/voting/keeper/genesis.go:17-21 | each entry of an ascending list is stored under its id |
| VotingKeeper.ImportedKeys | x/voting/keeper/genesis.go:17-21 | the ids stored by an import into an empty store are exactly the listed ids |
| VotingKeeper.HasRoleInStore | x/voting/keeper/voter_role_utils.go:110-113 | an address has a role in the walk if and only if some stored entry holds it |
| VotingKeeper.InitThenExport | x/voting/keeper/genesis.go:13-57 | exporting right after importing an ascending genesis into an empty keeper returns the same genesis |
| VotingKeeper.Keeper.constructor | x/voting/keeper/genesis.go:13-28 | a fresh keeper has nothing stored, the sequence at 0, and satisfies the store invariant |
| VotingKeeper.Keeper.Walk | x/voting/keeper/voter_role_utils.go:20-26 | the loop over the store yields every stored role, smallest id first |
| VotingKeeper.Keeper.GetVoterRoleByAddress | x/voting/keeper/voter_role_utils.go:17-37 | succeeds if and only if some stored role has the address, and returns the first in id order; otherwise a not-found error registered as ErrKeyNotFound |
| VotingKeeper.Keeper.HasVoterRole | x/voting/keeper/voter_role_utils.go:110-113 | true if and only if some stored entry has the address |
| VotingKeeper.Keeper.CountRolesForAddress | x/voting/keeper/voter_role_utils.go:150-161 | the number of stored roles held by the address, wrapped in a uint32 |
| VotingKeeper.Keeper.ListVoterRolesByRole | x/voting/keeper/voter_role_utils.go:116-131 | the stored roles of that kind, in id order |
| VotingKeeper.Keeper.GetVoterRoleStats | x/voting/keeper/voter_role_utils.go:134-147 | the number of stored roles per role kind present |
| VotingKeeper.Keeper.GetVotingMultiplier | x/voting/keeper/voter_role_utils.go:40-58 | as written: the result of VotingMultiplier on the stored roles |
| VotingKeeper.Keeper.GetVotingMultiplierOrDefault | x/voting/keeper/voter_role_utils.go:40-58 | corrected: the result of VotingMultiplierOrDefault on the stored roles |
| VotingKeeper.Keeper.CreateCheck | x/voting/keeper/msg_server_voter_role.go:18-66 | creation is allowed if and only if the creator is the authority, params are set, the cooldown has passed, the role validates, the address holds no role and the cap is positive; failures come in source order, and a second role for an address is AlreadyHasRole |
| VotingKeeper.Keeper.CheckCreate | x/voting/keeper/msg_server_voter_role.go:18-66 | the checks made with the store's lookup and count give exactly CreateCheck |
| VotingKeeper.Keeper.CreateVoterRole | x/voting/keeper/msg_server_voter_role.go:17-113 | fails, changing nothing, exactly when a check fails; on success the new role takes the sequence's value as id, is stored with the message's fields, the sequence advances modulo 2^64, and the block time is recorded; the new id is fresh, the address holds only that role, and the store invariant is kept while the sequence does not wrap |
| VotingKeeper.Keeper.UpdateVoterRole | x/voting/keeper/msg_server_voter_role.go:115-172 | authority, then validation, then existence of the id; on success exactly that record is replaced, with the same set of ids; otherwise the store is unchanged; the invariant is kept |
| VotingKeeper.Keeper.DeleteVoterRole | x/voting/keeper/msg_server_voter_role.go:174-214 | authority, then existence; on success exactly that id is removed, otherwise the store is unchanged; the sequence is untouched and the invariant is kept |
| VotingKeeper.Keeper.InitGenesis | x/voting/keeper/genesis.go:13-28 | sets the port and params, writes every listed role under its id in list order, and sets the sequence to the count |
| VotingKeeper.Keeper.ExportGenesis | x/voting/keeper/genesis.go:31-57 | fails exactly when params are unset; otherwise exports params, the port (empty when unset), the roles in id order and the sequence value |
| WeightedTally.PowerOf | x/voting/keeper/tally.go:65-73 | delegations whose validators are all unknown carry no power |
| WeightedTally.MultiplierOrOne | x/voting/keeper/tally.go:76-79 | the parsed multiplier, or 1.0 when the string does not parse |
| WeightedTally.WeightedPower | x/voting/keeper/tally.go:53-85 | a role is skipped when its address does not decode or its delegations cannot be read; otherwise it weighs its delegated tokens times its multiplier |
| WeightedTally.Contribution | x/voting/keeper/tally.go:81-85 | a role adds its weighted power truncated toward zero, or 0 when skipped |
| WeightedTally.YesTotalAppend | x/voting/keeper/tally.go:51-88 | the Yes count is additive over any split of the walked roles |
| WeightedTally.YesTotalRemove | x/voting/keeper/tally.go:51-88 | removing one role removes exactly its contribution |
| WeightedTally.YesTotalPermutation | x/voting/keeper/tally.go:51-88 | the Yes count depends only on which roles are stored, not on walk order |
| WeightedTally.YesTotalBounds | x/voting/keeper/tally.go:81-85 | with non-negative weighted powers, the truncated sum is at most the exact sum and loses less than one unit per role |
| WeightedTally.DelegationPower | x/voting/keeper/tally.go:65-73 | the delegation loop sums the tokens specified by PowerOf |
| WeightedTally.RoleContribution | x/voting/keeper/tally.go:52-86 | one loop turn adds exactly the role's Contribution |
| WeightedTally.Tally | x/voting/keeper/tally.go:31-95 | fails with a zero result when total bonded tokens are unavailable; otherwise Yes is the sum of contributions over all stored roles and the other counts are zero |
| Vesting.AmountOf | x/delegation/keeper/vesting_utils.go:55-66 | the amount of a denomination, zero when it is not held |
| Vesting.Lookup | x/delegation/keeper/vesting_utils.go:16-33 | an account is found if and only if the address decodes and an account exists there |
| Vesting.ReportedAmount | x/delegation/keeper/vesting_utils.go:55-66 | the reported native amount is its int64 conversion when positive, else 0 |
| Vesting.CheckStakingEligibility | x/delegation/keeper/vesting_utils.go:14-90 | never fails; an undecodable address or missing account is ineligible; a non-vesting account is eligible; a vesting account is eligible if and only if nothing is still vesting or the vested coins cover the original grant, with the matching reason and reported amounts |
| Vesting.IsVestingAccount | x/delegation/keeper/vesting_utils.go:93-106 | true if and only if the address resolves to a vesting account |
| Vesting.ValidateStakingTransaction | x/delegation/keeper/vesting_utils.go:109-128 | passes if and only if the delegator is eligible; otherwise fails with the eligibility reason |
| Vesting.GetVestingInfo | x/delegation/keeper/vesting_utils.go:131-163 | fails for an undecodable address or missing account; a non-vesting account is fully vested; a vesting account is fully vested if and only if nothing is still vesting |
| Vesting.EligibilityReportsVesting | x/delegation/keeper/vesting_utils.go:14-106 | the eligibility response's isVesting agrees with IsVestingAccount |
| Vesting.EligibilityOfNonVesting | x/delegation/keeper/vesting_utils.go:14-44 | for non-vesting addresses the answer is independent of block time, and eligible if and only if the account exists |
| Vesting.FullyVestedIsEligible | x/delegation/keeper/vesting_utils.go:69-163 | an account reported fully vested may stake |
| Vesting.IneligibleIsUnknownOrVesting | x/delegation/keeper/vesting_utils.go:14-163 | an ineligible account is unknown or still vesting |
| Vesting.ValidationIgnoresAmount | x/delegation/keeper/vesting_utils.go:109-128 | the staking gate ignores the amount |
| Vesting.AllVestedIffNothingVesting | x/delegation/keeper/vesting_utils.go:69-70 | for a schedule that keeps vesting = original - vested, the eligibility test "nothing vesting or vested covers the grant" holds exactly when nothing is vesting |
| Vesting.NothingVestingPersists | x/delegation/keeper/vesting_utils.go:50-52 | for a consistent schedule whose vested coins never decrease, once nothing is vesting nothing is vesting at any later block time |
| Vesting.EligibleIffFullyVested | x/delegation/keeper/vesting_utils.go:14-163 | for any existing account with a consistent schedule, CheckStakingEligibility's isEligible and GetVestingInfo's isFullyVested agree |
| Vesting.EligibilityPersists | x/delegation/keeper/vesting_utils.go:14-90 | for a consistent schedule, an address eligible to stake at one block time is eligible at every later one |
| Vesting.EligibleWhileStillVesting | x/delegation/keeper/vesting_utils.go:69-70 | the two answers part only for a schedule that breaks the identity: an account reporting its whole grant vested while 5 coins are still reported vesting may stake yet is not fully vested, and its schedule is not consistent |
| VestingAnte.ValidateDelegation | x/delegation/ante/vesting_decorator.go:54-62 | passes if and only if the delegator is eligible at the block time; a failure wraps the gate's error |
| VestingAnte.CheckMsg | x/delegation/ante/vesting_decorator.go:32-48 | undelegations and other messages pass; delegations and redelegations are checked for their delegator |
| VestingAnte.FirstRejection | x/delegation/ante/vesting_decorator.go:32-48 | no rejection if and only if every message is admitted |
| VestingAnte.FirstRejectionAt | x/delegation/ante/vesting_decorator.go:32-48 | the rejection is the error of the first message not admitted |
| VestingAnte.AnteHandle | x/delegation/ante/vesting_decorator.go:25-51 | in simulation, or when every message is admitted, the result is the next handler's; otherwise it is the first rejection, with the next handler not called |
| VestingAnte.UngatedTxPasses | x/delegation/ante/vesting_decorator.go:44-50 | a transaction with only undelegations and other messages is handed on |
| VestingAnte.RejectionNamesFirstFailure | x/delegation/ante/vesting_decorator.go:32-48 | a rejection comes from the first inadmissible delegation or redelegation, whose delegator may not stake |
| GenesisWire.Pow2 | x/voting/types/genesis.pb.go:224-226 | powers of two are positive |
| GenesisWire.Pow2Plus7 | x/voting/types/genesis.pb.go:189-199 | seven more bits is a factor 128 |
| GenesisWire.Pow2Add | x/voting/types/genesis.pb.go:189-199 | 2^(a+b) = 2^a * 2^b |
| GenesisWire.Pow2At64 | x/voting/types/genesis.pb.go:189-199 | 2^64 is the uint64 range |
| GenesisWire.OrOne | x/voting/types/genesis.pb.go:224-226 | x \| 1 is odd and is x or x + 1 |
| GenesisWire.VarintBytes | x/voting/types/genesis.pb.go:189-199 | a varint has at least one byte |
| GenesisWire.VarintBytesShape | x/voting/types/genesis.pb.go:189-199 | every byte but the last has the continuation bit, the last does not; one byte exactly below 128 |
| GenesisWire.VarintBytesUnfold | x/voting/types/genesis.pb.go:192-196 | a long varint is the low group with 0x80, then the varint of the rest |
| GenesisWire.BitLenBelow | x/voting/types/genesis.pb.go:224-226 | Len64(x) <= n if and only if x < 2^n |
| GenesisWire.VarintFitsBelow | x/voting/types/genesis.pb.go:189-199 | a varint fits in k bytes if and only if the value is below 2^(7k) |
| GenesisWire.Pow2Monotone | x/voting/types/genesis.pb.go:224-226 | powers of two are monotone |
| GenesisWire.OrOneBelow | x/voting/types/genesis.pb.go:224-226 | x and x\|1 are below the same powers of two |
| GenesisWire.SovIsVarintLength | x/voting/types/genesis.pb.go:224-226 | sovGenesis is the length of the varint encoding |
| GenesisWire.SovBounds | x/voting/types/genesis.pb.go:224-226 | a uint64 takes 1 to 10 bytes |
| GenesisWire.EncodeVarint | x/voting/types/genesis.pb.go:189-199 | the varint is written in the sov bytes ending at the offset, the rest of the buffer is unchanged, and their start is returned |
| GenesisWire.WriteOne | x/voting/types/genesis.pb.go:192-196 | writing the next varint byte extends the written prefix |
| GenesisWire.ShlAdd | x/voting/types/genesis.pb.go:236-251 | shifting distributes over addition |
| GenesisWire.ShlMonotone | x/voting/types/genesis.pb.go:236-251 | shifting is monotone |
| GenesisWire.ShlBy7 | x/voting/types/genesis.pb.go:236-251 | shifting 128q by s is shifting q by s+7 |
| GenesisWire.ShlOneIsPow2 | x/voting/types/genesis.pb.go:236-251 | 1 << s = 2^s |
| GenesisWire.ReadVarintFrom | x/voting/types/genesis.pb.go:236-251 | a successful read ends after its start and within the input |
| GenesisWire.ReadVarint | x/voting/types/genesis.pb.go:236-251 | a successful read ends after its start and within the input |
| GenesisWire.ReadVarintAt | x/voting/types/genesis.pb.go:236-251 | the varint loop gives the result specified by ReadVarint |
| GenesisWire.GroupStep | x/voting/types/genesis.pb.go:236-251 | OR-ing one more 7-bit group is addition, and the accumulator stays below the next shift |
| GenesisWire.ReadVarintFromWritten | x/voting/types/genesis.pb.go:236-251 | reading back a written varint continues the accumulation exactly |
| GenesisWire.LowGroup | x/voting/types/genesis.pb.go:236-251 | a byte with the continuation bit keeps its low 7 bits |
| GenesisWire.SmallModulo | x/voting/types/genesis.pb.go:236-251 | values below 2^64 do not wrap |
| GenesisWire.ReadStep | x/voting/types/genesis.pb.go:236-251 | a byte with the continuation bit passes the read on to the next byte |
| GenesisWire.ReadVarintWritten | x/voting/types/genesis.pb.go:189-251 | round trip: reading an encoded varint yields the value and stops right after it |
| GenesisWire.ReadVarintOverflows | x/voting/types/genesis.pb.go:238-240 | ten continuation bytes give ErrIntOverflowGenesis |
| GenesisWire.ReadVarintRunsOut | x/voting/types/genesis.pb.go:241-243 | input ending mid-varint gives io.ErrUnexpectedEOF |
| GenesisMarshal.Delimited | x/voting/types/genesis.pb.go:200-222 | a delimited field is 1 + sov(len) + len bytes |
| GenesisMarshal.RolesBytesAppend | x/voting/types/genesis.pb.go:155-168 | the role field bytes distribute over concatenation of role lists |
| GenesisMarshal.RolesSize | x/voting/types/genesis.pb.go:212-217 | the Size loop over roles equals the length of their encoding |
| GenesisMarshal.Size | x/voting/types/genesis.pb.go:200-222 | Size is exactly the length of the encoding |
| GenesisMarshal.Prepend | x/voting/types/genesis.pb.go:145-187 | writing just before an already-written suffix extends it |
| GenesisMarshal.CopyBefore | x/voting/types/genesis.pb.go:170-171 | the copy places the bytes just before the index, the rest is unchanged |
| GenesisMarshal.ByteBefore | x/voting/types/genesis.pb.go:145-187 | writing a tag byte just before a suffix |
| GenesisMarshal.DelimitedLayers | x/voting/types/genesis.pb.go:145-187 | payload, length and tag writes compose into the delimited field |
| GenesisMarshal.WriteDelimited | x/voting/types/genesis.pb.go:157-166 | a delimited field ends just before the index; the rest of the buffer is unchanged |
| GenesisMarshal.RolesStep | x/voting/types/genesis.pb.go:155-168 | each backwards step puts one role's entry before those after it |
| GenesisMarshal.RolesSplit | x/voting/types/genesis.pb.go:155-168 | the role field's length splits at each entry |
| GenesisMarshal.WriteRoles | x/voting/types/genesis.pb.go:155-168 | the backward loop leaves the roles' entries in list order ending at the index |
| GenesisMarshal.WriteCount | x/voting/types/genesis.pb.go:150-154 | the count field is written only when non-zero |
| GenesisMarshal.WritePort | x/voting/types/genesis.pb.go:169-175 | the port field is written only when non-empty |
| GenesisMarshal.MarshalLayers | x/voting/types/genesis.pb.go:145-187 | four back-to-front writes compose into fields 1 to 4 in order |
| GenesisMarshal.MarshalToSizedBuffer | x/voting/types/genesis.pb.go:145-187 | the encoding fills the end of the buffer and its length is returned |
| GenesisMarshal.Marshal | x/voting/types/genesis.pb.go:130-138 | Marshal returns exactly the encoding |
| GenesisSkip.SkipStep | x/voting/types/genesis.pb.go:402-469 | one skip step always advances |
| GenesisSkip.SkipFrom | x/voting/types/genesis.pb.go:398-475 | a successful skip ends after its start, below 2^63 |
| GenesisSkip.Skip | x/voting/types/genesis.pb.go:398-475 | a successful skip is positive |
| GenesisSkip.SkipStepAt | x/voting/types/genesis.pb.go:402-469 | the loop body gives the result specified by SkipStep |
| GenesisSkip.SkipGenesis | x/voting/types/genesis.pb.go:398-475 | the loop gives the result specified by Skip |
| GenesisSkip.SkipVarintField | x/voting/types/genesis.pb.go:420-432 | a varint field is skipped by its tag and value |
| GenesisSkip.SkipBytesField | x/voting/types/genesis.pb.go:435-454 | a length-delimited field is skipped by its tag, length and payload |
| GenesisSkip.SkipEmptyGroup | x/voting/types/genesis.pb.go:455-461 | an empty group is skipped by its two tags |
| GenesisSkip.SkipEndGroupAtTop | x/voting/types/genesis.pb.go:457-460 | an unopened end-group tag is ErrUnexpectedEndOfGroupGenesis |
| GenesisSkip.SkipIllegalWireType | x/voting/types/genesis.pb.go:464-465 | wire types 6 and 7 are illegal |
| GenesisUnmarshal.Int32Of | x/voting/types/genesis.pb.go:250 | Go's int32 conversion lands in the int32 range |
| GenesisUnmarshal.ReadDelimited | x/voting/types/genesis.pb.go:262-287 | the payload bounds lie after the length prefix and within the input |
| GenesisUnmarshal.DelimitedField | x/voting/types/genesis.pb.go:259-357 | a delimited field ends after its tag and within the input |
| GenesisUnmarshal.CountField | x/voting/types/genesis.pb.go:358-379 | the count field ends after its tag and within the input |
| GenesisUnmarshal.UnknownField | x/voting/types/genesis.pb.go:380-391 | an unknown field ends after its tag and within the input |
| GenesisUnmarshal.FieldBody | x/voting/types/genesis.pb.go:252-391 | a field ends after its tag and within the input |
| GenesisUnmarshal.Field | x/voting/types/genesis.pb.go:234-391 | each loop turn advances within the input |
| GenesisUnmarshal.ReadDelimitedAt | x/voting/types/genesis.pb.go:262-287 | the length loop gives the result specified by ReadDelimited |
| GenesisUnmarshal.DecodeField | x/voting/types/genesis.pb.go:234-391 | the loop body gives the result specified by Field |
| GenesisUnmarshal.Unmarshal | x/voting/types/genesis.pb.go:230-397 | Unmarshal gives the result specified by DecodeFrom |
| GenesisUnmarshal.ReadTagByte | x/voting/types/genesis.pb.go:236-251 | a one-byte tag reads back as itself |
| GenesisUnmarshal.SliceOfSlice | x/voting/types/genesis.pb.go:288 | a slice of a slice is a slice |
| GenesisUnmarshal.ThreeSlices | x/voting/types/genesis.pb.go:230-397 | consecutive parts of a concatenation are slices |
| GenesisUnmarshal.ReadDelimitedWritten | x/voting/types/genesis.pb.go:262-287 | a written length prefix reads back as the payload bounds |
| GenesisUnmarshal.DelimitedAt | x/voting/types/genesis.pb.go:236-287 | a written delimited field reads back as its tag and payload |
| GenesisUnmarshal.DecodeStep | x/voting/types/genesis.pb.go:233-391 | decoding continues after each field |
| GenesisUnmarshal.FieldAfterTag | x/voting/types/genesis.pb.go:236-259 | after a one-byte tag the field is decoded at the next index |
| GenesisUnmarshal.DelimitedTag | x/voting/types/genesis.pb.go:252-259 | tags 0x0a, 0x12 and 0x1a select fields 1 to 3 with wire type 2 |
| GenesisUnmarshal.DelimitedFieldRead | x/voting/types/genesis.pb.go:259-357 | a delimited field whose payload merges ends at its payload end |
| GenesisUnmarshal.FieldFromReads | x/voting/types/genesis.pb.go:236-357 | tag read, bounds read and merge compose into the field |
| GenesisUnmarshal.FieldDelimited | x/voting/types/genesis.pb.go:259-357 | a written delimited field merges its payload |
| GenesisUnmarshal.FieldParams | x/voting/types/genesis.pb.go:259-291 | a Params field sets Params |
| GenesisUnmarshal.FieldPort | x/voting/types/genesis.pb.go:292-323 | a PortId field replaces PortId |
| GenesisUnmarshal.FieldRole | x/voting/types/genesis.pb.go:324-357 | a VoterRole field appends its role |
| GenesisUnmarshal.AppendFirst | x/voting/types/genesis.pb.go:353 | appending the head and then the tail is appending the list |
| GenesisUnmarshal.RolesSplit | x/voting/types/genesis.pb.go:324-357 | the role bytes are the first entry, then the rest |
| GenesisUnmarshal.DecodeRoles | x/voting/types/genesis.pb.go:324-357 | decoding the encoded roles appends them all in order |
| GenesisUnmarshal.FieldCount | x/voting/types/genesis.pb.go:358-379 | a count field replaces the count |
| GenesisUnmarshal.FieldCountFromReads | x/voting/types/genesis.pb.go:358-379 | a count tag followed by a varint replaces the count |
| GenesisUnmarshal.AppendToEmpty | x/voting/types/genesis.pb.go:353 | appending to an empty list gives the list |
| GenesisUnmarshal.Parts | x/voting/types/genesis.pb.go:145-187 | the four field groups are slices of the encoding |
| GenesisUnmarshal.DecodeSame | x/voting/types/genesis.pb.go:233-391 | equal positions and messages decode alike |
| GenesisUnmarshal.DecodeCountTail | x/voting/types/genesis.pb.go:358-396 | the encoded count completes the message |
| GenesisUnmarshal.DecodeHead | x/voting/types/genesis.pb.go:259-323 | the encoded Params and PortId lead to the rest of the decoding |
| GenesisUnmarshal.EncodedParams | x/voting/types/genesis.pb.go:259-291 | the first encoded field sets Params from the zero message |
| GenesisUnmarshal.EncodedPort | x/voting/types/genesis.pb.go:292-323 | the encoded port is absent when empty, or one field that sets it |
| GenesisUnmarshal.EncodedCount | x/voting/types/genesis.pb.go:358-379 | the encoded count is absent when zero, or one field that sets it |
| GenesisUnmarshal.EncodeLayout | x/voting/types/genesis.pb.go:145-187 | the encoding is Params, PortId, roles and count, at known offsets |
| GenesisUnmarshal.TailLaidOut | x/voting/types/genesis.pb.go:324-396 | encoded roles and count complete the message |
| GenesisUnmarshal.DecodeLaidOut | x/voting/types/genesis.pb.go:230-397 | input laid out as the encoder lays out gs decodes to gs |
| GenesisUnmarshal.DecodeEncode | x/voting/types/genesis.pb.go:130-397 | round trip: when the nested codecs round-trip, decoding Marshal's output from the zero message gives back the genesis state |
| GenesisUnmarshal.PortIdLastWins | x/voting/types/genesis.pb.go:292-323 | of two PortId fields the last one wins |
| GenesisUnmarshal.UnknownVarintFieldIsSkipped | x/voting/types/genesis.pb.go:380-391 | an unknown varint field leaves the message unchanged |
| GenesisUnmarshal.EndGroupTagRejected | x/voting/types/genesis.pb.go:252-254 | an end-group tag where a field starts is rejected |
| GenesisUnmarshal.FieldZeroRejected | x/voting/types/genesis.pb.go:255-257 | field number 0 is an illegal tag |
| GenesisUnmarshal.ParamsAsVarintRejected | x/voting/types/genesis.pb.go:260-262 | Params with wire type 0 is a wrong wire type |

## Left out

### Outside the model

- Events emitted by the message handlers. They are observable only off-chain.
- Storage-layer failures. Errors from `Walk`, `Get`, `Set`, `Remove` and `Sequence.Next` on the collections store are not modelled, so the ErrLogic paths that only a failing store reaches are absent.
- The `collections.Sequence` semantics come from the library: `Next` returns the current value, then stores it plus one. The handler test that expects id 1 for the first role relies on a fixture that is not part of this model.
- Keeper construction (`NewKeeper` and its panic on a bad authority), the governance hooks, the gRPC queries, the CLI and the simulation operations. They are outside the core.
- `LegacyDec` parsing, multiplication and `Int64()`. Their rounding and overflow belong to the decimal library, so they are parameters (`DecParser`, `DecMul`, `AuthView.toInt64`).
- The bech32 codec, the auth and staking keepers and the IBC port validator. They are parameters; the module's `PortID` constant is a parameter of `DefaultGenesis`.
- The ante handler chain assembly in x/delegation/ante/ante.go. It only wires decorators together.
- Error message strings. Each error is a constructor carrying the values its message formats, plus its registered code.
- The SDK's vesting schedules (continuous, delayed, periodic). A vesting account is its vested and still-vesting coins as functions of block time. The identity vesting = original - vested and the monotonicity of vested coins are the predicate `Vesting.ConsistentSchedule`, which only the lemmas that need them assume.
- The clock. The block time is a parameter of every operation that reads it.
- Proposal votes. `WeightedTally.Tally` does not read the proposal or its votes and credits every role to Yes, as the source does.
- The nested `Params` and `VoterRole` codecs. They are parameters; their own marshal errors are not modelled.

### Where the model is weaker than the source

- GenesisUnmarshal.Unmarshal: Go mutates the receiver in place and leaves it partly updated on failure. The model returns a new value and says nothing about the receiver after an error.
- GenesisUnmarshal.Unmarshal: the final `iNdEx > l` check cannot fire once every field stays within the input, so it has no branch in the model.
- GenesisUnmarshal.DecodeEncode: it is stated only for encodings shorter than 2^63 bytes. Longer lengths overflow Go's int and are decoded as ErrInvalidLengthGenesis.
- GenesisWire.ReadVarintFrom: the source ORs each 7-bit group into the accumulator. The model adds the group modulo 2^64, which agrees on every input because the groups never overlap (GroupStep).
- VotingKeeper.Keeper.CreateVoterRole: it keeps the store invariant `Valid()` only while the id sequence does not wrap past 2^64 - 1.
- Vesting.GetVestingInfo: the block time is reported as the time value it was given, not as a `time.Time`.

## Findings

| source | as written | input that shows it | evidently intended | confidence | as-written member | corrected member |
|---|---|---|---|---|---|---|
| x/voting/keeper/voter_role_utils.go:44 | GetVotingMultiplier falls back to 1.0 only when the lookup's error is `collections.ErrNotFound`. GetVoterRoleByAddress reports a missing role as `sdkerrors.ErrKeyNotFound` (line 33), so the fallback never fires. | any address that holds no voter role: the result is the not-found error, not 1.0 | an address without a role votes with multiplier 1.0, as the comment on line 43 says | not executed | VoterRoleUtils.UnassignedAddressIsAnError, VotingKeeper.Keeper.GetVotingMultiplier | VoterRoleUtils.VotingMultiplierOrDefault, VotingKeeper.Keeper.GetVotingMultiplierOrDefault |
