/**
 * The change ledger of one entity set: pending actions keyed by entity (the
 * last write wins), flushed as batches of table operations and then cleared.
 *
 * The dictionary's enumeration order is modelled as the order in which keys
 * were first added (`order`); entity identity is the type parameter's equality.
 */
module AzureSet {
  import W = Wrappers
  import opened Expressions

  datatype ChangeAction = None | Insert | Update | Delete

  /** One entry of a batch sent to the service. */
  datatype TableOperation<T> = DeleteOperation(entity: T) | InsertOrReplaceOperation(entity: T)

  /** A ledger entry as the flush enumerates it. */
  datatype Entry<T> = Entry(key: T, action: ChangeAction)

  /** The ledger's contents: the pending action of each entity, and the keys in enumeration order. */
  datatype Ledger<T(==)> = Ledger(actions: map<T, ChangeAction>, order: seq<T>)

  const TableServiceBatchMaximumOperations: nat := 100

  // ---------------------------------------------------------------------------
  // Recording changes
  // ---------------------------------------------------------------------------

  /**
   * The keys are exactly the entities in `order`, and there are as many
   * positions as keys, so each key appears once (`OrderIsDistinct`).
   */
  ghost predicate WellFormed<T>(l: Ledger<T>)
  {
    && |l.order| == |l.actions|
    && (forall i :: 0 <= i < |l.order| ==> l.order[i] in l.actions)
    && (forall e :: e in l.actions ==> e in l.order)
  }

  /** The elements of a sequence. */
  ghost function Elements<T>(s: seq<T>): set<T>
  {
    set i | 0 <= i < |s| :: s[i]
  }

  /** A sequence has at most as many distinct elements as positions, and fewer when it repeats one. */
  lemma {:induction false} ElementsBound<T>(s: seq<T>)
    ensures |Elements(s)| <= |s|
    ensures (exists i, j :: 0 <= i < j < |s| && s[i] == s[j]) ==> |Elements(s)| < |s|
  {
    if s != [] {
      var init, last := s[..|s| - 1], s[|s| - 1];
      ElementsBound(init);
      assert Elements(s) == Elements(init) + {last} by {
        forall x | x in Elements(s) ensures x in Elements(init) + {last} {
          var i :| 0 <= i < |s| && s[i] == x;
          if i < |s| - 1 { assert init[i] == x; }
        }
        forall x | x in Elements(init) ensures x in Elements(s) {
          var i :| 0 <= i < |init| && init[i] == x;
          assert s[i] == x;
        }
      }
      if exists i, j :: 0 <= i < j < |s| && s[i] == s[j] {
        var i, j :| 0 <= i < j < |s| && s[i] == s[j];
        if j < |s| - 1 {
          assert init[i] == init[j];
        } else {
          assert init[i] == last;
          assert last in Elements(init);
        }
      }
    }
  }

  /** In a well-formed ledger no entity has two positions in the enumeration order. */
  lemma OrderIsDistinct<T>(l: Ledger<T>)
    requires WellFormed(l)
    ensures forall i, j :: 0 <= i < j < |l.order| ==> l.order[i] != l.order[j]
  {
    assert Elements(l.order) == l.actions.Keys by {
      forall e | e in l.actions ensures e in Elements(l.order) {
        var i :| 0 <= i < |l.order| && l.order[i] == e;
      }
    }
    ElementsBound(l.order);
  }

  /** Setting an entity's pending action: an existing key keeps its place, a new one goes last. */
  function Record<T(==)>(l: Ledger<T>, entity: T, action: ChangeAction): Ledger<T>
  {
    Ledger(l.actions[entity := action], if entity in l.actions then l.order else l.order + [entity])
  }

  /** Setting the same action for each entity in turn. */
  function RecordAll<T(==)>(l: Ledger<T>, entities: seq<T>, action: ChangeAction): Ledger<T>
  {
    if entities == [] then l
    else Record(RecordAll(l, entities[..|entities| - 1], action), entities[|entities| - 1], action)
  }

  /**
   * The entities of a range up to its first null reference (`None`), in order:
   * the ones a range operation records before the dictionary refuses the null key.
   */
  function BeforeNull<T>(entities: seq<W.Option<T>>): (r: seq<T>)
    ensures |r| <= |entities|
    ensures forall i :: 0 <= i < |r| ==> entities[i] == W.Some(r[i])
    ensures |r| < |entities| ==> entities[|r|].None?
  {
    if entities == [] || entities[0].None? then [] else [entities[0].value] + BeforeNull(entities[1..])
  }

  /** A range holds a null reference. */
  predicate HasNull<T>(entities: seq<W.Option<T>>)
  {
    exists i :: 0 <= i < |entities| && entities[i].None?
  }

  /** The prefix `BeforeNull` stops at is the only one of its kind: unwrapped elements up to the end or to a null. */
  lemma {:induction false} BeforeNullUnique<T>(entities: seq<W.Option<T>>, p: seq<T>)
    requires |p| <= |entities|
    requires forall i :: 0 <= i < |p| ==> entities[i] == W.Some(p[i])
    requires |p| < |entities| ==> entities[|p|].None?
    ensures BeforeNull(entities) == p
  {
    if p != [] {
      BeforeNullUnique(entities[1..], p[1..]);
      assert p == [p[0]] + p[1..];
    }
  }

  /** The range is recorded in full exactly when it holds no null; otherwise everything before the first null is. */
  lemma BeforeNullIsAllIffNoNull<T>(entities: seq<W.Option<T>>)
    ensures |BeforeNull(entities)| == |entities| <==> !HasNull(entities)
  {
    var r := BeforeNull(entities);
    if |r| < |entities| {
      assert entities[|r|].None?;
    }
  }

  /** The ledger's entries in enumeration order: each key of `order` with its pending action. */
  function EntriesOf<T(==)>(l: Ledger<T>): seq<Entry<T>>
    decreases |l.order|
  {
    if l.order == [] then []
    else
      var init, key := Ledger(l.actions, l.order[..|l.order| - 1]), l.order[|l.order| - 1];
      EntriesOf(init) + (if key in l.actions then [Entry(key, l.actions[key])] else [])
  }

  /** When every position holds a key, there is one entry per position, holding that key and its action. */
  lemma {:induction false} EntriesFollowOrder<T>(l: Ledger<T>)
    requires forall i :: 0 <= i < |l.order| ==> l.order[i] in l.actions
    ensures |EntriesOf(l)| == |l.order|
    ensures forall i :: 0 <= i < |l.order| ==> EntriesOf(l)[i] == Entry(l.order[i], l.actions[l.order[i]])
    decreases |l.order|
  {
    if l.order != [] {
      var init := Ledger(l.actions, l.order[..|l.order| - 1]);
      EntriesFollowOrder(init);
    }
  }

  /** Recording keeps the ledger well formed, sets the entity's action and leaves every other entry and position alone. */
  lemma RecordSetsAction<T>(l: Ledger<T>, entity: T, action: ChangeAction)
    requires WellFormed(l)
    ensures var r := Record(l, entity, action);
      && WellFormed(r)
      && r.actions[entity] == action
      && r.actions.Keys == l.actions.Keys + {entity}
      && (forall e :: e in l.actions && e != entity ==> r.actions[e] == l.actions[e])
      && r.order[..|l.order|] == l.order
      && |r.order| == |l.order| + (if entity in l.actions then 0 else 1)
  {
    var r := Record(l, entity, action);
    if entity !in l.actions {
      assert r.order == l.order + [entity];
      assert forall i :: 0 <= i < |l.order| ==> r.order[i] == l.order[i];
      assert r.actions.Keys == l.actions.Keys + {entity};
    } else {
      assert r.actions.Keys == l.actions.Keys;
    }
  }

  /**
   * Recording a range: every entity of the range ends with the action, every
   * other entry is as it was, and no key outside the range is added.
   */
  lemma {:induction false} RecordAllSetsAction<T>(l: Ledger<T>, entities: seq<T>, action: ChangeAction)
    ensures var r := RecordAll(l, entities, action);
      && (forall e :: e in r.actions <==> e in l.actions || e in entities)
      && (forall e :: e in entities ==> r.actions[e] == action)
      && (forall e :: e in l.actions && e !in entities ==> r.actions[e] == l.actions[e])
  {
    if entities != [] {
      var init := entities[..|entities| - 1];
      var last := entities[|entities| - 1];
      RecordAllSetsAction(l, init, action);
      assert entities == init + [last];
      assert forall e :: e in entities <==> e in init || e == last;
    }
  }

  /** Recording a range keeps the ledger well formed and the old keys in their places. */
  lemma {:induction false} RecordAllKeepsOrder<T>(l: Ledger<T>, entities: seq<T>, action: ChangeAction)
    requires WellFormed(l)
    ensures var r := RecordAll(l, entities, action);
      && WellFormed(r)
      && |l.order| <= |r.order| && r.order[..|l.order|] == l.order
  {
    if entities != [] {
      var init, last := entities[..|entities| - 1], entities[|entities| - 1];
      RecordAllKeepsOrder(l, init, action);
      var m := RecordAll(l, init, action);
      RecordSetsAction(m, last, action);
      PrefixOfPrefix(Record(m, last, action).order, m.order, l.order);
    }
  }

  lemma PrefixOfPrefix<U>(x: seq<U>, y: seq<U>, z: seq<U>)
    requires |y| <= |x| && x[..|y|] == y
    requires |z| <= |y| && y[..|z|] == z
    ensures x[..|z|] == z
  {
    assert x[..|z|] == x[..|y|][..|z|];
  }

  /** The last write wins: removing an entity just added leaves it pending deletion, in the place the add gave it. */
  lemma RemoveAfterAdd<T>(l: Ledger<T>, entity: T)
    ensures Record(Record(l, entity, Insert), entity, Delete) == Ledger(l.actions[entity := Delete], Record(l, entity, Insert).order)
  {
  }

  // ---------------------------------------------------------------------------
  // Splitting a flush into batches
  // ---------------------------------------------------------------------------

  /** The operation an entry adds to its batch: deletion, insert-or-replace, or nothing for `None`. */
  function OperationOf<T>(e: Entry<T>): (ops: seq<TableOperation<T>>)
    ensures |ops| <= 1
    ensures ops == [] <==> e.action == None
  {
    match e.action
    case Delete => [DeleteOperation(e.key)]
    case Insert => [InsertOrReplaceOperation(e.key)]
    case None => []
    case Update => [InsertOrReplaceOperation(e.key)]
  }

  /** Deletion becomes a delete operation; insertion and update both become insert-or-replace. */
  lemma OperationForAction<T>(e: Entry<T>)
    ensures e.action == Delete ==> OperationOf(e) == [DeleteOperation(e.key)]
    ensures e.action == Insert || e.action == Update ==> OperationOf(e) == [InsertOrReplaceOperation(e.key)]
  {
  }

  /** The operations a run of entries adds, in order. */
  function Operations<T>(entries: seq<Entry<T>>): (ops: seq<TableOperation<T>>)
    ensures |ops| <= |entries|
  {
    if entries == [] then []
    else Operations(entries[..|entries| - 1]) + OperationOf(entries[|entries| - 1])
  }

  /** A batch is submitted only when it holds at least one operation. */
  function ExecuteBatch<T>(batch: seq<TableOperation<T>>): seq<seq<TableOperation<T>>>
  {
    if batch == [] then [] else [batch]
  }

  /** Where batch `k` starts: batch 0 holds entry 0, batch `k > 0` starts at `100 (k - 1) + 1`. */
  function Start(k: nat): nat
  {
    if k == 0 then 0 else 100 * (k - 1) + 1
  }

  /** Where batch `k` ends (exclusive): after the entry whose index is a multiple of 100. */
  function End(k: nat): nat
  {
    100 * k + 1
  }

  /** The number of batches closed inside the loop for `n` entries: the indices below `n` that are multiples of 100. */
  function Closed(n: nat): (c: nat)
    ensures Start(c) <= n <= 100 * c
  {
    (n + 99) / 100
  }

  function Min(a: int, b: int): int
  {
    if a <= b then a else b
  }

  /** The batches of a flush, in closed form: one per multiple of 100 below `n`, then the trailing one. */
  function Batches<T>(entries: seq<Entry<T>>): (bs: seq<seq<Entry<T>>>)
    ensures |bs| == Closed(|entries|) + 1
  {
    var c := Closed(|entries|);
    seq(c + 1, k requires 0 <= k <= c => entries[Start(k)..Min(End(k), |entries|)])
  }

  /** The batches that reach the service, empty ones skipped. */
  function Submitted<T>(batches: seq<seq<Entry<T>>>): seq<seq<TableOperation<T>>>
  {
    if batches == [] then []
    else Submitted(batches[..|batches| - 1]) + ExecuteBatch(Operations(batches[|batches| - 1]))
  }

  /** What a flush of these entries sends, batch by batch. */
  function FlushPlan<T>(entries: seq<Entry<T>>): seq<seq<TableOperation<T>>>
  {
    Submitted(Batches(entries))
  }

  function Flatten<U>(xss: seq<seq<U>>): seq<U>
  {
    if xss == [] then [] else Flatten(xss[..|xss| - 1]) + xss[|xss| - 1]
  }

  // ---------------------------------------------------------------------------
  // Facts about the batches
  // ---------------------------------------------------------------------------

  /** Every batch holds at most 100 entries, the first at most one. */
  lemma BatchSizes<T>(entries: seq<Entry<T>>)
    ensures |Batches(entries)[0]| <= 1
    ensures forall k :: 0 <= k < |Batches(entries)| ==> |Batches(entries)[k]| <= TableServiceBatchMaximumOperations
  {
  }

  /** The batches cover the entries exactly once, in order. */
  lemma BatchesPartition<T>(entries: seq<Entry<T>>)
    ensures Flatten(Batches(entries)) == entries
  {
    var bs := Batches(entries);
    var c := Closed(|entries|);
    BatchesPrefix(entries, c);
    assert bs[..c] == bs[..|bs| - 1];
    assert bs[c] == entries[Start(c)..|entries|];
    assert Flatten(bs) == Flatten(bs[..c]) + bs[c];
    assert entries[..Start(c)] + entries[Start(c)..|entries|] == entries;
  }

  lemma {:induction false} BatchesPrefix<T>(entries: seq<Entry<T>>, k: nat)
    requires k <= Closed(|entries|)
    ensures Flatten(Batches(entries)[..k]) == entries[..Start(k)]
  {
    var bs := Batches(entries);
    if k > 0 {
      BatchesPrefix(entries, k - 1);
      assert bs[..k][..k - 1] == bs[..k - 1];
      assert End(k - 1) == Start(k) <= |entries|;
      assert bs[k - 1] == entries[Start(k - 1)..Start(k)];
      assert entries[..Start(k - 1)] + entries[Start(k - 1)..Start(k)] == entries[..Start(k)];
    }
  }

  /** 250 entries are flushed as batches of 1, 100, 100 and 49 entries. */
  lemma TwoHundredFifty<T>(entries: seq<Entry<T>>)
    requires |entries| == 250
    ensures |Batches(entries)| == 4
    ensures |Batches(entries)[0]| == 1 && |Batches(entries)[1]| == 100
    ensures |Batches(entries)[2]| == 100 && |Batches(entries)[3]| == 49
  {
  }

  /** An empty ledger submits nothing. */
  lemma EmptyLedgerSubmitsNothing<T>()
    ensures FlushPlan<T>([]) == []
  {
    assert Batches<T>([]) == [[]];
    assert Operations<T>([]) == [];
  }

  lemma OperationsSnoc<T>(entries: seq<Entry<T>>, e: Entry<T>)
    ensures Operations(entries + [e]) == Operations(entries) + OperationOf(e)
  {
    assert (entries + [e])[..|entries|] == entries;
  }

  lemma {:induction false} OperationsAppend<T>(a: seq<Entry<T>>, b: seq<Entry<T>>)
    ensures Operations(a + b) == Operations(a) + Operations(b)
    decreases |b|
  {
    if b == [] {
      assert a + b == a;
    } else {
      var b', last := b[..|b| - 1], b[|b| - 1];
      assert b == b' + [last];
      assert a + b == (a + b') + [last];
      calc {
        Operations(a + b);
        { OperationsSnoc(a + b', last); }
        Operations(a + b') + OperationOf(last);
        { OperationsAppend(a, b'); }
        (Operations(a) + Operations(b')) + OperationOf(last);
        Operations(a) + (Operations(b') + OperationOf(last));
        { OperationsSnoc(b', last); }
        Operations(a) + Operations(b);
      }
    }
  }

  lemma {:induction false} SubmittedFlattens<T>(bs: seq<seq<Entry<T>>>)
    ensures Flatten(Submitted(bs)) == Operations(Flatten(bs))
  {
    if bs != [] {
      var init := bs[..|bs| - 1];
      var last := bs[|bs| - 1];
      SubmittedFlattens(init);
      OperationsAppend(Flatten(init), last);
      var s := Submitted(init);
      var ops := Operations(last);
      if ops == [] {
        assert Submitted(bs) == s;
      } else {
        assert Submitted(bs) == s + [ops];
        assert (s + [ops])[..|s|] == s;
      }
    }
  }

  /** A flush sends every operation of the ledger exactly once, in enumeration order. */
  lemma FlushSendsEveryOperation<T>(entries: seq<Entry<T>>)
    ensures Flatten(FlushPlan(entries)) == Operations(entries)
  {
    SubmittedFlattens(Batches(entries));
    BatchesPartition(entries);
  }

  /** Empty batches are skipped, and no submission is larger than the batch it came from allows. */
  lemma {:induction false} SubmittedBounded<T>(bs: seq<seq<Entry<T>>>)
    requires forall k :: 0 <= k < |bs| ==> |bs[k]| <= TableServiceBatchMaximumOperations
    ensures |Submitted(bs)| <= |bs|
    ensures forall j :: 0 <= j < |Submitted(bs)| ==> 0 < |Submitted(bs)[j]| <= TableServiceBatchMaximumOperations
  {
    if bs != [] {
      SubmittedBounded(bs[..|bs| - 1]);
    }
  }

  /** No submitted batch holds more than 100 operations, and none is empty. */
  lemma SubmissionsFitTheService<T>(entries: seq<Entry<T>>)
    ensures forall j :: 0 <= j < |FlushPlan(entries)| ==>
      0 < |FlushPlan(entries)[j]| <= TableServiceBatchMaximumOperations
  {
    BatchSizes(entries);
    SubmittedBounded(Batches(entries));
  }

  lemma ClosesAtMultiples(i: nat, c: nat)
    requires Start(c) <= i <= 100 * c
    ensures (i % 100 == 0) <==> i == 100 * c
  {
    if c > 0 && i != 100 * c {
      var q := i / 100;
      assert 100 * q <= i < 100 * q + 100;
      assert q == c - 1;
      assert i % 100 == i - 100 * q;
    }
  }

  lemma ClosedIsUnique(n: nat, c: nat)
    requires Start(c) <= n <= 100 * c
    ensures c == Closed(n)
  {
    var d := Closed(n);
    assert Start(c) <= 100 * d;
    assert Start(d) <= 100 * c;
  }

  // ---------------------------------------------------------------------------
  // The set
  // ---------------------------------------------------------------------------

  class AzureSet<T(==)> {
    /** The pending changes, keyed by entity. */
    var dictionary: Ledger<T>

    ghost predicate Valid()
      reads this
    {
      WellFormed(dictionary)
    }

    constructor ()
      ensures Valid() && dictionary == Ledger(map[], [])
    {
      dictionary := Ledger(map[], []);
    }

    /**
     * Marks the entity for insertion, overwriting any earlier action, and
     * returns it. A null entity (`None`) is refused by the dictionary with
     * `ArgumentNullException`, and nothing changes.
     */
    method Add(entity: W.Option<T>) returns (r: W.Result<T, Exception>)
      requires Valid()
      modifies this
      ensures Valid()
      ensures entity.None? ==> r == W.Err(ArgumentNullException) && dictionary == old(dictionary)
      ensures entity.Some? ==> r == W.Ok(entity.value) && dictionary == Record(old(dictionary), entity.value, Insert)
    {
      if entity.None? {
        return W.Err(ArgumentNullException);
      }
      RecordSetsAction(dictionary, entity.value, Insert);
      dictionary := Record(dictionary, entity.value, Insert);
      return W.Ok(entity.value);
    }

    /**
     * Adds each entity in turn and returns them in input order; a null range
     * changes nothing. A null entity throws `ArgumentNullException` from `Add`,
     * after the entities before it have been recorded.
     */
    method AddRange(entities: W.Option<seq<W.Option<T>>>) returns (r: W.Result<seq<T>, Exception>)
      requires Valid()
      modifies this
      ensures Valid()
      ensures entities.None? ==> r == W.Ok([]) && dictionary == old(dictionary)
      ensures entities.Some? ==> dictionary == RecordAll(old(dictionary), BeforeNull(entities.value), Insert)
      ensures entities.Some? && !HasNull(entities.value) ==> r == W.Ok(BeforeNull(entities.value))
      ensures entities.Some? && HasNull(entities.value) ==> r == W.Err(ArgumentNullException)
    {
      if entities.None? {
        return W.Ok([]);
      }
      var es := entities.value;
      var added: seq<T> := [];
      for i := 0 to |es|
        invariant |added| == i && forall j :: 0 <= j < i ==> es[j] == W.Some(added[j])
        invariant Valid() && dictionary == RecordAll(old(dictionary), added, Insert)
      {
        var entity := Add(es[i]);
        if entity.Err? {
          BeforeNullUnique(es, added);
          BeforeNullIsAllIffNoNull(es);
          return W.Err(entity.error);
        }
        assert (added + [entity.value])[..i] == added;
        added := added + [entity.value];
      }
      BeforeNullUnique(es, added);
      BeforeNullIsAllIffNoNull(es);
      return W.Ok(added);
    }

    /**
     * Marks the entity for deletion, overwriting any earlier action, and
     * returns it. A null entity (`None`) is refused by the dictionary with
     * `ArgumentNullException`, and nothing changes.
     */
    method Remove(entity: W.Option<T>) returns (r: W.Result<T, Exception>)
      requires Valid()
      modifies this
      ensures Valid()
      ensures entity.None? ==> r == W.Err(ArgumentNullException) && dictionary == old(dictionary)
      ensures entity.Some? ==> r == W.Ok(entity.value) && dictionary == Record(old(dictionary), entity.value, Delete)
    {
      if entity.None? {
        return W.Err(ArgumentNullException);
      }
      RecordSetsAction(dictionary, entity.value, Delete);
      dictionary := Record(dictionary, entity.value, Delete);
      return W.Ok(entity.value);
    }

    /**
     * Removes each entity in turn and returns them in input order; a null range
     * changes nothing. A null entity throws `ArgumentNullException` from
     * `Remove`, after the entities before it have been recorded.
     */
    method RemoveRange(entities: W.Option<seq<W.Option<T>>>) returns (r: W.Result<seq<T>, Exception>)
      requires Valid()
      modifies this
      ensures Valid()
      ensures entities.None? ==> r == W.Ok([]) && dictionary == old(dictionary)
      ensures entities.Some? ==> dictionary == RecordAll(old(dictionary), BeforeNull(entities.value), Delete)
      ensures entities.Some? && !HasNull(entities.value) ==> r == W.Ok(BeforeNull(entities.value))
      ensures entities.Some? && HasNull(entities.value) ==> r == W.Err(ArgumentNullException)
    {
      if entities.None? {
        return W.Ok([]);
      }
      var es := entities.value;
      var removed: seq<T> := [];
      for i := 0 to |es|
        invariant |removed| == i && forall j :: 0 <= j < i ==> es[j] == W.Some(removed[j])
        invariant Valid() && dictionary == RecordAll(old(dictionary), removed, Delete)
      {
        var entity := Remove(es[i]);
        if entity.Err? {
          BeforeNullUnique(es, removed);
          BeforeNullIsAllIffNoNull(es);
          return W.Err(entity.error);
        }
        assert (removed + [entity.value])[..i] == removed;
        removed := removed + [entity.value];
      }
      BeforeNullUnique(es, removed);
      BeforeNullIsAllIffNoNull(es);
      return W.Ok(removed);
    }

    /** Submits the ledger's batches, then replaces the ledger by an empty one, whatever the submissions' outcome. */
    method ExecuteBatchOperations() returns (submissions: seq<seq<TableOperation<T>>>)
      modifies this
      ensures submissions == FlushPlan(EntriesOf(old(dictionary)))
      ensures Valid() && dictionary == Ledger(map[], [])
    {
      submissions := SubmitBatches(EntriesOf(dictionary));
      dictionary := Ledger(map[], []);
    }
  }

  /**
   * The flush loop over the ledger's entries in enumeration order: closes a
   * batch after every index that is a multiple of 100 and once more at the
   * end, and returns the batches that hold operations, in the order they are
   * submitted.
   */
  method SubmitBatches<T>(entries: seq<Entry<T>>) returns (submissions: seq<seq<TableOperation<T>>>)
    ensures submissions == FlushPlan(entries)
  {
    submissions := [];
    var batch: seq<TableOperation<T>> := [];
    ghost var closed: nat := 0;
    var i := 0;
    while i < |entries|
      invariant FlushInvariant(entries, i, closed, batch, submissions)
    {
      ghost var open := batch;
      batch := batch + OperationOf(entries[i]);
      if i % TableServiceBatchMaximumOperations == 0 {
        FlushClose(entries, i, closed, open, submissions);
        submissions := submissions + ExecuteBatch(batch);
        batch := [];
        closed := closed + 1;
      } else {
        FlushContinue(entries, i, closed, open, submissions);
      }
      i := i + 1;
    }
    FlushEnd(entries, i, closed, batch, submissions);
    submissions := submissions + ExecuteBatch(batch);
  }

  // ---------------------------------------------------------------------------
  // Steps of the flush loop
  // ---------------------------------------------------------------------------

  /**
   * The state of the flush loop before index `i`: `closed` batches have been
   * closed and submitted as the closed form says, and the open batch holds the
   * operations of the entries since the last close.
   */
  ghost predicate FlushInvariant<T>(entries: seq<Entry<T>>, i: nat, closed: nat,
                                    batch: seq<TableOperation<T>>, submissions: seq<seq<TableOperation<T>>>)
  {
    && i <= |entries|
    && Start(closed) <= i <= 100 * closed
    && closed <= Closed(|entries|)
    && batch == Operations(entries[Start(closed)..i])
    && submissions == Submitted(Batches(entries)[..closed])
  }

  /** A pass of the loop body at an index that is not a multiple of 100 keeps the batch open. */
  lemma FlushContinue<T>(entries: seq<Entry<T>>, i: nat, closed: nat,
                         batch: seq<TableOperation<T>>, submissions: seq<seq<TableOperation<T>>>)
    requires FlushInvariant(entries, i, closed, batch, submissions) && i < |entries|
    requires i % TableServiceBatchMaximumOperations != 0
    ensures FlushInvariant(entries, i + 1, closed, batch + OperationOf(entries[i]), submissions)
  {
    AppendOperation(entries, Start(closed), i);
    ClosesAtMultiples(i, closed);
  }

  /** A pass of the loop body at a multiple of 100 closes and submits the batch. */
  lemma FlushClose<T>(entries: seq<Entry<T>>, i: nat, closed: nat,
                      batch: seq<TableOperation<T>>, submissions: seq<seq<TableOperation<T>>>)
    requires FlushInvariant(entries, i, closed, batch, submissions) && i < |entries|
    requires i % TableServiceBatchMaximumOperations == 0
    ensures FlushInvariant(entries, i + 1, closed + 1, [], submissions + ExecuteBatch(batch + OperationOf(entries[i])))
  {
    AppendOperation(entries, Start(closed), i);
    ClosesAtMultiples(i, closed);
    CloseBatch(entries, closed, i);
    assert Start(closed + 1) == i + 1;
    assert entries[i + 1..i + 1] == [];
  }

  /** After the loop, submitting the open batch completes the flush plan. */
  lemma FlushEnd<T>(entries: seq<Entry<T>>, i: nat, closed: nat,
                    batch: seq<TableOperation<T>>, submissions: seq<seq<TableOperation<T>>>)
    requires i == |entries| && FlushInvariant(entries, i, closed, batch, submissions)
    ensures submissions + ExecuteBatch(batch) == FlushPlan(entries)
  {
    ClosedIsUnique(|entries|, closed);
    CloseTrailingBatch(entries, closed);
  }

  lemma AppendOperation<T>(entries: seq<Entry<T>>, s: nat, i: nat)
    requires s <= i < |entries|
    ensures Operations(entries[s..i + 1]) == Operations(entries[s..i]) + OperationOf(entries[i])
  {
    assert entries[s..i + 1][..i - s] == entries[s..i];
  }

  /** Closing batch `c` inside the loop extends the submissions by that batch's operations, if any. */
  lemma CloseBatch<T>(entries: seq<Entry<T>>, c: nat, i: nat)
    requires i == 100 * c && i < |entries| && Start(c) <= i
    ensures c < Closed(|entries|)
    ensures Submitted(Batches(entries)[..c + 1])
         == Submitted(Batches(entries)[..c]) + ExecuteBatch(Operations(entries[Start(c)..i + 1]))
  {
    var bs := Batches(entries);
    ClosedAtLeast(|entries|, c);
    assert bs[..c + 1][..c] == bs[..c];
    assert bs[c] == entries[Start(c)..i + 1];
  }

  /** After the loop, the trailing batch completes the submissions. */
  lemma CloseTrailingBatch<T>(entries: seq<Entry<T>>, c: nat)
    requires c == Closed(|entries|)
    ensures Submitted(Batches(entries))
         == Submitted(Batches(entries)[..c]) + ExecuteBatch(Operations(entries[Start(c)..|entries|]))
  {
    var bs := Batches(entries);
    assert bs[..c] == bs[..|bs| - 1];
    assert bs[c] == entries[Start(c)..|entries|];
  }

  lemma ClosedAtLeast(n: nat, c: nat)
    requires 100 * c < n
    ensures c < Closed(n)
  {
  }
}
