/** `BallotSubmitSerializer` (elections/serializers.py): a ballot maps
    position IDs to candidate IDs and must hold at least one selection. */
module BallotSubmitSerializer {
  import opened Outcomes
  import opened PyValues

  const VotesRequired := NonFieldError("votes is required")

  /** `validate(attrs)`: the attributes unchanged, unless `votes` is missing
      or falsy. */
  function Validate(attrs: Attrs): (r: Result<Attrs>)
    ensures r.Ok? <==> "votes" in attrs && Truthy(attrs["votes"])
    ensures r.Ok? ==> r.value == attrs
    ensures r.Err? ==> r.failure == VotesRequired
  {
    if !Truthy(Get(attrs, "votes")) then Err(VotesRequired) else Ok(attrs)
  }

  /** For a ballot whose `votes` is a dictionary of selections, the ballot is
      refused exactly when the dictionary is empty. */
  lemma BallotRefusedIffEmpty(attrs: Attrs, selections: map<string, Value>)
    requires "votes" in attrs && attrs["votes"] == VDict(selections)
    ensures Validate(attrs) == Err(VotesRequired) <==> selections == map[]
    ensures Validate(attrs).Ok? <==> |selections| > 0
  {
    if selections != map[] {
      var k :| k in selections;
      assert k in selections.Keys;
    }
  }
}
