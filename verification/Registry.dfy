/**
 The registry that maps predicates authorised by the chain to compiled specs.
 */
module Registry {
  import opened Wrappers

  type PredicateKey = nat
  type SpecId = nat

  datatype Target = Target(key: PredicateKey, specId: SpecId)

  datatype RegistryError = DuplicateExecutionPredicate | DuplicateExecutionSpec(specId: SpecId)

  /** The spec of the first target under `key`. */
  function Resolve(targets: seq<Target>, key: PredicateKey): Option<SpecId> {
    if targets == [] then None
    else if targets[0].key == key then Some(targets[0].specId)
    else Resolve(targets[1..], key)
  }

  /** The predicate of the first target that runs `specId`. */
  function PredicateFor(targets: seq<Target>, specId: SpecId): Option<PredicateKey> {
    if targets == [] then None
    else if targets[0].specId == specId then Some(targets[0].key)
    else PredicateFor(targets[1..], specId)
  }

  ghost predicate OneToOne(targets: seq<Target>) {
    forall i, j :: 0 <= i < j < |targets| ==>
      targets[i].key != targets[j].key && targets[i].specId != targets[j].specId
  }

  lemma {:induction false} ResolveFinds(targets: seq<Target>, key: PredicateKey)
    ensures match Resolve(targets, key)
            case None => forall i :: 0 <= i < |targets| ==> targets[i].key != key
            case Some(s) => Target(key, s) in targets
  {
    if targets != [] && targets[0].key != key {
      ResolveFinds(targets[1..], key);
      assert forall t :: t in targets[1..] ==> t in targets;
      assert forall i :: 0 < i < |targets| ==> targets[i] == targets[1..][i - 1];
    } else if targets != [] {
      assert targets[0] in targets;
    }
  }

  lemma {:induction false} PredicateForFinds(targets: seq<Target>, specId: SpecId)
    ensures match PredicateFor(targets, specId)
            case None => forall i :: 0 <= i < |targets| ==> targets[i].specId != specId
            case Some(p) => Target(p, specId) in targets
  {
    if targets != [] && targets[0].specId != specId {
      PredicateForFinds(targets[1..], specId);
      assert forall t :: t in targets[1..] ==> t in targets;
      assert forall i :: 0 < i < |targets| ==> targets[i] == targets[1..][i - 1];
    } else if targets != [] {
      assert targets[0] in targets;
    }
  }

  /** In a one-to-one registry the two lookups undo each other. */
  lemma {:induction false} LookupsInverse(targets: seq<Target>, key: PredicateKey, specId: SpecId)
    requires OneToOne(targets)
    ensures Resolve(targets, key) == Some(specId) <==> PredicateFor(targets, specId) == Some(key)
  {
    ResolveFinds(targets, key);
    PredicateForFinds(targets, specId);
  }

  class ExecutionRegistry {
    var targets: seq<Target>

    constructor ()
      ensures targets == []
    {
      targets := [];
    }

    /** Refuses a second target with either key, and so keeps the registry one-to-one. */
    method Register(key: PredicateKey, specId: SpecId) returns (r: Result<(), RegistryError>)
      requires OneToOne(targets)
      modifies this
      ensures OneToOne(targets)
      ensures r.Ok? <==> forall t :: t in old(targets) ==> t.key != key && t.specId != specId
      ensures targets == if r.Ok? then old(targets) + [Target(key, specId)] else old(targets)
      ensures r == Err(DuplicateExecutionPredicate) <==> exists t :: t in old(targets) && t.key == key
      ensures r.Err? && r.error != DuplicateExecutionPredicate ==> r == Err(DuplicateExecutionSpec(specId))
    {
      if exists i :: 0 <= i < |targets| && targets[i].key == key {
        return Err(DuplicateExecutionPredicate);
      }
      if exists i :: 0 <= i < |targets| && targets[i].specId == specId {
        return Err(DuplicateExecutionSpec(specId));
      }
      targets := targets + [Target(key, specId)];
      return Ok(());
    }
  }
}
