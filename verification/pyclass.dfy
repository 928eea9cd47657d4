/** How a Python class body binds its members: the statements run in order
    and each `def` assigns its name in the class namespace, so a later
    definition of the same name replaces an earlier one. */
module PyClass {

  /** The namespace a class body leaves behind, given its `def`s in order. */
  function Namespace<M>(body: seq<(string, M)>): (ns: map<string, M>)
    ensures forall k :: 0 <= k < |body| ==> body[k].0 in ns
    ensures forall name :: name in ns ==> exists k :: 0 <= k < |body| && body[k].0 == name
  {
    if body == [] then map[]
    else
      var last := body[|body| - 1];
      var ns := Namespace(body[..|body| - 1]);
      assert forall k :: 0 <= k < |body| - 1 ==> body[..|body| - 1][k] == body[k];
      ns[last.0 := last.1]
  }

  /** The member bound to a name is the one its last definition gives. */
  lemma {:induction false} LastDefinitionWins<M>(body: seq<(string, M)>, name: string, j: nat)
    requires j < |body| && body[j].0 == name
    requires forall k :: j < k < |body| ==> body[k].0 != name
    ensures name in Namespace(body) && Namespace(body)[name] == body[j].1
  {
    if j < |body| - 1 {
      var prefix := body[..|body| - 1];
      assert prefix[j] == body[j];
      assert forall k :: j < k < |prefix| ==> prefix[k] == body[k];
      LastDefinitionWins(prefix, name, j);
    }
  }

  /** An earlier definition that is defined again later is not reachable
      through the namespace (unless both bind the very same member). */
  lemma ShadowedDefinition<M>(body: seq<(string, M)>, name: string, i: nat, j: nat)
    requires i < j < |body| && body[i].0 == name && body[j].0 == name
    requires forall k :: j < k < |body| ==> body[k].0 != name
    requires body[i].1 != body[j].1
    ensures Namespace(body)[name] != body[i].1
  {
    LastDefinitionWins(body, name, j);
  }
}
