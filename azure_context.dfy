/**
 * The context: one entity set per entity type, created on first request and
 * kept for the context's lifetime, and a save that flushes every set in turn.
 */
module AzureContext {
  import S = AzureSet
  import W = Wrappers
  import TE = TableEntity
  import Attributes
  import opened Expressions

  /** An entity as the context's sets hold it: its type and an identity within that type. */
  datatype EntityRef = EntityRef(typeName: string, identity: nat)

  class AzureContext {
    /** The registry, keyed by entity type name. */
    var sets: map<string, S.AzureSet<EntityRef>>
    /** The registry's enumeration order: the order in which types were first requested. */
    var order: seq<string>
    /** The tables whose creation has been requested, by table name, in order. */
    var creations: seq<string>

    /** The registry is keyed without repeats, its sets are distinct, and each set's ledger is well formed. */
    ghost predicate Valid()
      reads this, set t | t in sets :: sets[t]
    {
      && (forall i, j :: 0 <= i < j < |order| ==> order[i] != order[j])
      && (forall i :: 0 <= i < |order| ==> order[i] in sets)
      && (forall t :: t in sets ==> t in order)
      && (forall t, u :: t in sets && u in sets && t != u ==> sets[t] != sets[u])
      && (forall t :: t in sets ==> S.WellFormed(sets[t].dictionary))
    }

    constructor ()
      ensures Valid() && sets == map[] && order == [] && creations == []
    {
      sets := map[];
      order := [];
      creations := [];
    }

    /**
     * Returns the set registered for the type, or creates one, requests its
     * table, registers it and returns it. The table requested is the partition
     * key a new entity of the type gets (`new T().PartitionKey`); when that
     * cannot be generated, the set's constructor throws and nothing is
     * registered.
     */
    method Set(typeName: string, tableAttribute: W.Option<Attributes.TableAttribute>)
      returns (r: W.Result<S.AzureSet<EntityRef>, Exception>)
      requires Valid()
      modifies this
      ensures Valid()
      ensures r.Ok? ==> r.value.Valid()
      ensures typeName in old(sets) ==>
        r == W.Ok(old(sets)[typeName]) && sets == old(sets) && order == old(order) && creations == old(creations)
      ensures typeName !in old(sets) && TE.GeneratePartitionKey(tableAttribute, typeName).Err? ==>
        r == W.Err(TE.GeneratePartitionKey(tableAttribute, typeName).error)
        && sets == old(sets) && order == old(order) && creations == old(creations)
      ensures typeName !in old(sets) && TE.GeneratePartitionKey(tableAttribute, typeName).Ok? ==>
        && r.Ok? && fresh(r.value) && r.value.dictionary == S.Ledger(map[], [])
        && sets == old(sets)[typeName := r.value]
        && order == old(order) + [typeName]
        && creations == old(creations) + [TE.GeneratePartitionKey(tableAttribute, typeName).value]
    {
      if typeName in sets {
        return W.Ok(sets[typeName]);
      }
      var tableName := TE.GeneratePartitionKey(tableAttribute, typeName);
      if tableName.Err? {
        return W.Err(tableName.error);
      }
      var s := new S.AzureSet();
      creations := creations + [tableName.value];
      sets := sets[typeName := s];
      order := order + [typeName];
      return W.Ok(s);
    }

    /**
     * Flushes every registered set once, in registry order, each flush finishing
     * before the next starts, and returns 1. Returns also what each flush sent.
     */
    method SaveChanges() returns (r: int, flushes: seq<seq<seq<S.TableOperation<EntityRef>>>>)
      requires Valid()
      modifies set t | t in sets :: sets[t]
      ensures Valid()
      ensures r == 1
      ensures |flushes| == |order|
      ensures forall k :: 0 <= k < |order| ==> flushes[k] == S.FlushPlan(S.EntriesOf(old(sets[order[k]].dictionary)))
      ensures forall t :: t in sets ==> sets[t].dictionary == S.Ledger(map[], [])
    {
      var registry, registered := sets, order;
      var targets := seq(|registered|, k requires 0 <= k < |registered| => registry[registered[k]]);
      ghost var plans := seq(|targets|, k requires 0 <= k < |targets| reads targets =>
        S.FlushPlan(S.EntriesOf(targets[k].dictionary)));
      flushes := FlushAll(targets, plans);
      forall t | t in sets
        ensures sets[t].dictionary == S.Ledger(map[], [])
      {
        var k :| 0 <= k < |order| && order[k] == t;
        assert targets[k] == sets[t];
      }
      return 1, flushes;
    }
  }

  /**
   * Flushes the given sets one after another, in order; `plans` is what each
   * flush is due to send. The sets are distinct objects, so each flush leaves
   * the others untouched.
   */
  method FlushAll(targets: seq<S.AzureSet<EntityRef>>, ghost plans: seq<seq<seq<S.TableOperation<EntityRef>>>>)
    returns (flushes: seq<seq<seq<S.TableOperation<EntityRef>>>>)
    requires |plans| == |targets|
    requires forall k :: 0 <= k < |targets| ==> plans[k] == S.FlushPlan(S.EntriesOf(targets[k].dictionary))
    requires forall j, k :: 0 <= j < k < |targets| ==> targets[j] != targets[k]
    modifies targets
    ensures flushes == plans
    ensures forall k :: 0 <= k < |targets| ==> targets[k].dictionary == S.Ledger(map[], [])
  {
    flushes := [];
    var i := 0;
    while i < |targets|
      invariant 0 <= i <= |targets|
      invariant flushes == plans[..i]
      invariant forall k :: 0 <= k < i ==> targets[k].dictionary == S.Ledger(map[], [])
      invariant forall k :: i <= k < |targets| ==> targets[k].dictionary == old(targets[k].dictionary)
    {
      var azureSet := targets[i];
      assert forall k :: 0 <= k < |targets| && k != i ==> targets[k] != azureSet;
      assert plans[i] == S.FlushPlan(S.EntriesOf(old(azureSet.dictionary)));
      var submissions := azureSet.ExecuteBatchOperations();
      assert plans[..i + 1] == plans[..i] + [plans[i]];
      flushes := flushes + [submissions];
      i := i + 1;
    }
    assert plans[..|plans|] == plans;
  }
}
