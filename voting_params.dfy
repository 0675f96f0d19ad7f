/** Construction, defaults and validation of the voting module's parameters. */
module VotingParams {
  import opened Wrappers
  import opened VotingTypes

  const DefaultMaxVoterRolesPerAddress: uint32 := 1

  /** Five minutes, in seconds. */
  const DefaultRoleCreationCooldown: uint32 := 300

  datatype ParamsError = ZeroRoleCap

  function NewParams(maxRolesPerAddress: uint32, cooldown: uint32): (p: Params)
    ensures p.maxVoterRolesPerAddress == maxRolesPerAddress && p.roleCreationCooldown == cooldown
  {
    Params(maxRolesPerAddress, cooldown)
  }

  function DefaultParams(): (p: Params)
    ensures p.maxVoterRolesPerAddress == 1 && p.roleCreationCooldown == 300
  {
    NewParams(DefaultMaxVoterRolesPerAddress, DefaultRoleCreationCooldown)
  }

  /** A cap of zero roles per address is the only invalid setting; a zero cooldown is allowed. */
  function Validate(p: Params): (r: Outcome<ParamsError>)
    ensures r.Fail? <==> p.maxVoterRolesPerAddress == 0
  {
    if p.maxVoterRolesPerAddress == 0 then Fail(ZeroRoleCap) else Pass
  }

  lemma DefaultParamsAreValid()
    ensures Validate(DefaultParams()) == Pass
  {
  }

  lemma ZeroCooldownIsValid(maxRolesPerAddress: uint32)
    requires maxRolesPerAddress > 0
    ensures Validate(NewParams(maxRolesPerAddress, 0)) == Pass
  {
  }
}
