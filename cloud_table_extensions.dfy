/**
 * The segmented fetch: a query is sent page by page, each answer carrying rows
 * and possibly a continuation cursor, until the cursor runs out, cancellation is
 * requested, or the rows gathered reach the query's row cap.
 *
 * The service's answers are given as the sequence of pages it returns, one per
 * request, the last of which has no cursor; cancellation is an oracle read after
 * each page. The requests the loop sends are returned so the model can say what
 * they carry.
 */
module CloudTableExtensions {
  import opened Wrappers

  /** A stored row as the service returns it. */
  datatype Row = Row(partitionKey: string, rowKey: string, timestamp: int, properties: map<string, string>, etag: string)

  /** A resolved entity: the four system fields and the property bag it has read. */
  datatype Entity = Entity(partitionKey: string, rowKey: string, timestamp: int, etag: string, properties: map<string, string>)

  datatype ContinuationToken = ContinuationToken(nextPartitionKey: string, nextRowKey: string)

  datatype TableQuery = TableQuery(filterString: string, selectColumns: seq<string>, takeCount: Option<int>)

  /** One page of an answer: the rows and the cursor for the next page, if any. */
  datatype Segment = Segment(rows: seq<Row>, continuationToken: Option<ContinuationToken>)

  /** What one fetch sends: the query and the cursor. */
  datatype Request = Request(query: TableQuery, token: Option<ContinuationToken>)

  /** The entity the default resolver creates: the row's keys, timestamp and tag, and an empty bag. */
  function Created(row: Row): (e: Entity)
    ensures e.partitionKey == row.partitionKey && e.rowKey == row.rowKey
    ensures e.timestamp == row.timestamp && e.etag == row.etag
    ensures e.properties == map[]
  {
    Entity(row.partitionKey, row.rowKey, row.timestamp, row.etag, map[])
  }

  /**
   * The default resolver: a new entity carrying the row's system fields, which
   * then reads the property bag. How the entity reads the bag is the entity
   * type's own `ReadEntity`, given here as `read`.
   */
  function GenericEntityResolver(read: (Entity, map<string, string>) -> Entity, row: Row): (e: Entity)
    ensures e == read(Created(row), row.properties)
  {
    read(Created(row), row.properties)
  }

  /** The SDK's reflection-based read: it replaces the bag and leaves the system fields alone. */
  ghost predicate ReplacesBag(read: (Entity, map<string, string>) -> Entity)
  {
    forall e, properties :: read(e, properties) == e.(properties := properties)
  }

  /** With a read that only replaces the bag, the default resolver copies the whole row. */
  lemma ResolverCopiesRow(read: (Entity, map<string, string>) -> Entity, row: Row)
    requires ReplacesBag(read)
    ensures var e := GenericEntityResolver(read, row);
      && e.partitionKey == row.partitionKey && e.rowKey == row.rowKey
      && e.timestamp == row.timestamp && e.etag == row.etag
      && e.properties == row.properties
  {
    assert read(Created(row), row.properties) == Created(row).(properties := row.properties);
  }

  /** The rows of one page, each through the resolver, in order. */
  function Resolved(resolve: Row -> Entity, rows: seq<Row>): (es: seq<Entity>)
    ensures |es| == |rows|
    ensures forall i :: 0 <= i < |rows| ==> es[i] == resolve(rows[i])
  {
    seq(|rows|, i requires 0 <= i < |rows| => resolve(rows[i]))
  }

  /** The service answers: at least one page, and the last has no cursor. */
  predicate WellFormed(pages: seq<Segment>)
  {
    |pages| >= 1 && pages[|pages| - 1].continuationToken.None?
  }

  /** Everything the first `k` pages hold, resolved, in fetch order. */
  function ItemsAfter(resolve: Row -> Entity, pages: seq<Segment>, k: nat): seq<Entity>
    requires k <= |pages|
  {
    if k == 0 then [] else ItemsAfter(resolve, pages, k - 1) + Resolved(resolve, pages[k - 1].rows)
  }

  /** The cursor the `k`-th fetch sends: none at first, then the one the previous page returned. */
  function TokenBefore(pages: seq<Segment>, k: nat): Option<ContinuationToken>
    requires k <= |pages|
  {
    if k == 0 then None else pages[k - 1].continuationToken
  }

  /** The loop condition after `k` pages: a cursor, no cancellation, and either no cap or fewer rows than it. */
  predicate Continues(resolve: Row -> Entity, pages: seq<Segment>, query: TableQuery, cancelled: nat -> bool, k: nat)
    requires 1 <= k <= |pages|
  {
    && pages[k - 1].continuationToken.Some?
    && !cancelled(k - 1)
    && (query.takeCount.None? || |ItemsAfter(resolve, pages, k)| < query.takeCount.value)
  }

  /** The number of pages fetched: the first count, at least one, after which the loop does not continue. */
  function FetchCount(resolve: Row -> Entity, pages: seq<Segment>, query: TableQuery, cancelled: nat -> bool): (n: nat)
    requires WellFormed(pages)
    ensures 1 <= n <= |pages|
    ensures !Continues(resolve, pages, query, cancelled, n)
    ensures forall k :: 1 <= k < n ==> Continues(resolve, pages, query, cancelled, k)
  {
    SearchFrom(resolve, pages, query, cancelled, 1)
  }

  function SearchFrom(resolve: Row -> Entity, pages: seq<Segment>, query: TableQuery, cancelled: nat -> bool, k: nat): (n: nat)
    requires WellFormed(pages) && 1 <= k <= |pages|
    requires forall j :: 1 <= j < k ==> Continues(resolve, pages, query, cancelled, j)
    ensures k <= n <= |pages|
    ensures !Continues(resolve, pages, query, cancelled, n)
    ensures forall j :: 1 <= j < n ==> Continues(resolve, pages, query, cancelled, j)
    decreases |pages| - k
  {
    if !Continues(resolve, pages, query, cancelled, k) then k
    else SearchFrom(resolve, pages, query, cancelled, k + 1)
  }

  /** The remaining budget: the cap less the rows gathered, or no cap. */
  function Remaining(takeCount: Option<int>, gathered: nat): Option<int>
  {
    if takeCount.None? then None else Some(takeCount.value - gathered)
  }

  /** The resolver used: the given one, or the default (over the entity type's `read`) when none is given. */
  function ResolverOf(read: (Entity, map<string, string>) -> Entity, resolver: Option<Row -> Entity>): Row -> Entity
  {
    if resolver.None? then row => GenericEntityResolver(read, row) else resolver.value
  }

  /** The `k`-th request carries the original query and the cursor the previous page returned. */
  predicate RequestsSent(requests: seq<Request>, query: TableQuery, pages: seq<Segment>, n: nat)
    requires n <= |pages|
  {
    |requests| == n && forall k :: 0 <= k < n ==> requests[k] == Request(query, TokenBefore(pages, k))
  }

  /** The `k`-th budget is the cap less the rows the first `k` pages gave. */
  predicate BudgetsComputed(budgets: seq<Option<int>>, resolve: Row -> Entity, pages: seq<Segment>, query: TableQuery, n: nat)
    requires n <= |pages|
  {
    |budgets| == n && forall k :: 0 <= k < n ==> budgets[k] == Remaining(query.takeCount, |ItemsAfter(resolve, pages, k)|)
  }

  /** The `k`-th progress snapshot is everything gathered after `k + 1` pages. */
  predicate SnapshotsTaken(progress: seq<seq<Entity>>, resolve: Row -> Entity, pages: seq<Segment>, n: nat)
    requires n <= |pages|
  {
    |progress| == n && forall k :: 0 <= k < n ==> progress[k] == ItemsAfter(resolve, pages, k + 1)
  }

  // ---------------------------------------------------------------------------
  // Facts about the fetch
  // ---------------------------------------------------------------------------

  lemma {:induction false} ItemsAfterLength(resolve: Row -> Entity, pages: seq<Segment>, k: nat, m: nat)
    requires k <= m <= |pages|
    ensures |ItemsAfter(resolve, pages, k)| <= |ItemsAfter(resolve, pages, m)|
    ensures ItemsAfter(resolve, pages, m)[..|ItemsAfter(resolve, pages, k)|] == ItemsAfter(resolve, pages, k)
    decreases m - k
  {
    if k < m {
      ItemsAfterLength(resolve, pages, k, m - 1);
      var a := ItemsAfter(resolve, pages, k);
      var b := ItemsAfter(resolve, pages, m - 1);
      assert ItemsAfter(resolve, pages, m) == b + Resolved(resolve, pages[m - 1].rows);
      assert (b + Resolved(resolve, pages[m - 1].rows))[..|a|] == b[..|a|];
    }
  }

  /** Every page but the last one fetched left the rows below the cap. */
  lemma FetchedOnlyBelowCap(resolve: Row -> Entity, pages: seq<Segment>, query: TableQuery, cancelled: nat -> bool, k: nat)
    requires WellFormed(pages) && query.takeCount.Some?
    requires 1 <= k < FetchCount(resolve, pages, query, cancelled)
    ensures |ItemsAfter(resolve, pages, k)| < query.takeCount.value
  {
    assert Continues(resolve, pages, query, cancelled, k);
  }

  /** Cancellation requested during the first fetch ends the loop after exactly one page. */
  lemma CancellationStopsAfterOnePage(resolve: Row -> Entity, pages: seq<Segment>, query: TableQuery, cancelled: nat -> bool)
    requires WellFormed(pages) && cancelled(0)
    ensures FetchCount(resolve, pages, query, cancelled) == 1
  {
    assert !Continues(resolve, pages, query, cancelled, 1);
  }

  /** Without cancellation or a cap, every page up to the first without a cursor is fetched. */
  lemma UncappedFetchesToTheEnd(resolve: Row -> Entity, pages: seq<Segment>, query: TableQuery, cancelled: nat -> bool, k: nat)
    requires WellFormed(pages) && query.takeCount.None? && forall j :: !cancelled(j)
    requires 1 <= k <= |pages| && forall j :: 0 <= j < k - 1 ==> pages[j].continuationToken.Some?
    ensures FetchCount(resolve, pages, query, cancelled) >= k
  {
    var n := FetchCount(resolve, pages, query, cancelled);
    assert !cancelled(n - 1);
    assert pages[n - 1].continuationToken.None?;
  }

  /**
   * The rows are never cut to the cap: a single page of three rows under a cap
   * of two gives all three.
   */
  lemma OvershootKept(resolve: Row -> Entity, r1: Row, r2: Row, r3: Row, cancelled: nat -> bool)
    ensures var pages := [Segment([r1, r2, r3], None)];
      var query := TableQuery("", [], Some(2));
      && FetchCount(resolve, pages, query, cancelled) == 1
      && |ItemsAfter(resolve, pages, 1)| == 3
  {
    var pages := [Segment([r1, r2, r3], None)];
    assert ItemsAfter(resolve, pages, 1) == [] + Resolved(resolve, [r1, r2, r3]);
  }

  // ---------------------------------------------------------------------------
  // The loop
  // ---------------------------------------------------------------------------

  /**
   * Fetches pages until the loop condition fails. Returns the items, and also
   * the requests sent, the snapshots handed to the progress callback (when there
   * is one) and the budget computed before each request.
   */
  method ExecuteQuery(pages: seq<Segment>, query: TableQuery, cancelled: nat -> bool, hasProgress: bool,
                      resolver: Option<Row -> Entity>, read: (Entity, map<string, string>) -> Entity)
    returns (items: seq<Entity>, requests: seq<Request>, progress: seq<seq<Entity>>, budgets: seq<Option<int>>)
    requires WellFormed(pages)
    ensures var resolve := ResolverOf(read, resolver);
      var n := FetchCount(resolve, pages, query, cancelled);
      && items == ItemsAfter(resolve, pages, n)
      && RequestsSent(requests, query, pages, n)
      && BudgetsComputed(budgets, resolve, pages, query, n)
      && (hasProgress ==> SnapshotsTaken(progress, resolve, pages, n))
      && (!hasProgress ==> progress == [])
  {
    var resolve := ResolverOf(read, resolver);
    items := [];
    requests := [];
    progress := [];
    budgets := [];
    var token: Option<ContinuationToken> := None;
    var runningTake: Option<int>;
    var fetched := 0;
    while true
      invariant 0 <= fetched < |pages|
      invariant forall j :: 1 <= j <= fetched ==> Continues(resolve, pages, query, cancelled, j)
      invariant items == ItemsAfter(resolve, pages, fetched)
      invariant token == TokenBefore(pages, fetched)
      invariant RequestsSent(requests, query, pages, fetched)
      invariant BudgetsComputed(budgets, resolve, pages, query, fetched)
      invariant hasProgress ==> SnapshotsTaken(progress, resolve, pages, fetched)
      invariant !hasProgress ==> progress == []
      decreases |pages| - fetched
    {
      runningTake := Remaining(query.takeCount, |items|);
      budgets := budgets + [runningTake];
      requests := requests + [Request(query, token)];
      var segment := pages[fetched];
      fetched := fetched + 1;
      token := segment.continuationToken;
      items := items + Resolved(resolve, segment.rows);
      if hasProgress {
        progress := progress + [items];
      }
      if !(token.Some? && !cancelled(fetched - 1) && (query.takeCount.None? || |items| < query.takeCount.value)) {
        break;
      }
    }
    assert !Continues(resolve, pages, query, cancelled, fetched);
    FetchCountIsFirstStop(resolve, pages, query, cancelled, fetched);
  }

  /** The loop's stopping point is the fetch count. */
  lemma FetchCountIsFirstStop(resolve: Row -> Entity, pages: seq<Segment>, query: TableQuery, cancelled: nat -> bool, m: nat)
    requires WellFormed(pages) && 1 <= m <= |pages|
    requires forall j :: 1 <= j < m ==> Continues(resolve, pages, query, cancelled, j)
    requires !Continues(resolve, pages, query, cancelled, m)
    ensures FetchCount(resolve, pages, query, cancelled) == m
  {
    var n := FetchCount(resolve, pages, query, cancelled);
    assert !Continues(resolve, pages, query, cancelled, n);
    assert !Continues(resolve, pages, query, cancelled, m);
  }
}
