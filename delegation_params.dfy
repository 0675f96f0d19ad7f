/** Construction, defaults and validation of the delegation module's parameters. */
module DelegationParams {
  import opened Wrappers

  /** The denomination staked when nothing else is configured. */
  const DefaultStakeDenom: string := "stake"

  datatype Params = Params(stakeDenom: string)

  /** ErrInvalidStakeDenom, registered with code 1101. */
  datatype ParamsError = InvalidStakeDenom

  function NewParams(stakeDenom: string): (p: Params)
    ensures p.stakeDenom == stakeDenom
  {
    Params(stakeDenom)
  }

  function DefaultParams(): (p: Params)
    ensures p.stakeDenom == "stake"
  {
    NewParams(DefaultStakeDenom)
  }

  /** The only invalid setting is an empty stake denomination. */
  function Validate(p: Params): (r: Outcome<ParamsError>)
    ensures r.Fail? <==> p.stakeDenom == ""
    ensures r.Fail? ==> r.error == InvalidStakeDenom
  {
    if p.stakeDenom == "" then Fail(InvalidStakeDenom) else Pass
  }

  lemma DefaultParamsAreValid()
    ensures Validate(DefaultParams()) == Pass
  {
  }
}
