/** How requests are routed in every reachable state, through a matcher cache that ignores the order of
    the rows, over an index that does not. */
module RoutingSafety {
  import opened Prelude
  import opened OperationIdentity
  import opened SchemaSync
  import opened Authorization
  import opened AuthorizationSafety
  import Matcher = OperationMatcher

  lemma CacheStep(s: State, event: Event)
    ensures var cache := Step(s, event).cache;
      || cache == s.cache
      || cache == Matcher.EMPTY_SLOT
      || exists rows :: cache == Matcher.Refilled(s.cache, rows)
  {
  }

  lemma {:induction false} CacheStaysOk(events: seq<Event>)
    ensures Matcher.SlotOk(After(events).cache)
  {
    if events != [] {
      var n := |events| - 1;
      var s := After(events[..n]);
      CacheStaysOk(events[..n]);
      CacheStep(s, events[n]);
      var cache := After(events).cache;
      if rows :| cache == Matcher.Refilled(s.cache, rows) {
        Matcher.RefilledServesPermutation(s.cache, rows);
      }
    }
  }

  /** A request that is not authenticated changes nothing at all; any other fills the cache from the rows
      of its SELECT and changes nothing else; a restart empties the cache. */
  lemma {:induction false} RequestStep(s: State, request: Request)
    requires Lists(request.order, s.operations) && UniqueHashes(s.tokens)
    ensures Step(s, Proxy(request)) ==
      if exists t :: Admits(s, request, t)
      then s.(cache := Matcher.Refilled(s.cache, RowsInOrder(s.operations, request.order))) else s
    ensures forall presets :: Step(s, Startup(presets)).cache == Matcher.EMPTY_SLOT
  {
    var auth := Authenticate(s.tokens, request.header, request.now);
    AuthenticateExactly(s.tokens, request.header, request.now, auth);
    forall t
      ensures Admits(s, request, t) <==> auth == Authenticated(t)
    {
      AuthenticateExactly(s.tokens, request.header, request.now, Authenticated(t));
    }
  }

  /** The rows that the matcher sees are those of the table, in the order of the SELECT. */
  lemma {:induction false} RowsExactly(table: Table, order: seq<string>, i: nat)
    requires Lists(order, table) && i < |order|
    ensures |RowsInOrder(table, order)| == |order|
    ensures var row := RowsInOrder(table, order)[i];
      row.operationId == order[i] && row.verb == table[order[i]].verb && row.path == table[order[i]].path
  {
  }

  /** In every reachable state a match names a listed operation: the second 404 is unreachable. */
  lemma {:induction false} MatchIsAlwaysListed(finder: Matcher.Finder, events: seq<Event>, request: Request)
    requires Matcher.FinderOk(finder) && Lists(request.order, After(events).operations)
    ensures var s := After(events);
      var rows := RowsInOrder(s.operations, request.order);
      Resolve(finder, s.cache, s.operations, request)
        == finder(Matcher.Refilled(s.cache, rows).matcher.value, Lower(request.verb), request.path)
  {
    var s := After(events);
    var rows := RowsInOrder(s.operations, request.order);
    CacheStaysOk(events);
    Matcher.MatchIsListed(finder, s.cache, rows, request.verb, request.path);
  }

  lemma {:induction false} RoutingIsAsFresh(events: seq<Event>, order: seq<string>, order': seq<string>)
    requires Lists(order, After(events).operations) && Lists(order', After(events).operations)
    requires Matcher.Unambiguous(RowsInOrder(After(events).operations, order'))
    ensures var s := After(events);
      Matcher.Refilled(s.cache, RowsInOrder(s.operations, order)).matcher
        == Some(Matcher.Build(RowsInOrder(s.operations, order')))
  {
    var s := After(events);
    var rows, mine := RowsInOrder(s.operations, order'), RowsInOrder(s.operations, order);
    CacheStaysOk(events);
    RowsAreWellKeyed(events);
    ListingHasNoParameters(s.operations, order');
    ListingsPermute(s.operations, order, order');
    Matcher.RefilledServesPermutation(s.cache, mine);
    var built :| multiset(built) == multiset(mine) && Matcher.Refilled(s.cache, mine).matcher.value == Matcher.Build(built);
    Matcher.PermutationKeepsIndex(rows, built);
  }

  /** At most one operation per path and lower-cased method. */
  ghost predicate UnambiguousTable(table: Table) {
    forall a, b :: a in table && b in table && SameRoute(table[a], table[b]) ==> a == b
  }

  predicate SameRoute(x: Operation, y: Operation) {
    x.path == y.path && Lower(x.verb) == Lower(y.verb)
  }

  lemma {:induction false} ListingUnambiguous(table: Table, order: seq<string>)
    requires Lists(order, table) && UnambiguousTable(table)
    ensures Matcher.Unambiguous(RowsInOrder(table, order))
  {
    var rows := RowsInOrder(table, order);
    forall r, s | r in rows && s in rows && Matcher.At(r, s.path, Lower(s.verb))
      ensures r.operationId == s.operationId
    {
      var i :| 0 <= i < |order| && r == rows[i];
      var j :| 0 <= j < |order| && s == rows[j];
      assert SameRoute(table[order[i]], table[order[j]]);
    }
  }

  lemma {:induction false} SomeListing(ids: set<string>) returns (order: seq<string>)
    ensures forall id :: id in order <==> id in ids
    ensures forall i, j :: 0 <= i < j < |order| ==> order[i] != order[j]
    decreases ids
  {
    order := [];
    if ids != {} {
      var id :| id in ids;
      var rest := SomeListing(ids - {id});
      order := rest + [id];
    }
  }

  /** A listing that ends with the given operation, and what its index finds there. */
  lemma {:induction false} ListedLast(table: Table, id: string) returns (order: seq<string>)
    requires WellKeyed(table) && id in table
    ensures Lists(order, table)
    ensures Matcher.Lookup(Matcher.Build(RowsInOrder(table, order)), table[id].path, Lower(table[id].verb))
         == Some(Matcher.Endpoint(id))
  {
    var rest := SomeListing(table.Keys - {id});
    order := rest + [id];
    var rows := RowsInOrder(table, order);
    ListingHasNoParameters(table, order);
    assert rows[|rows| - 1] == RowOf(id, table[id]);
    Matcher.IndexIsLastMatch(rows, table[id].path, Lower(table[id].verb));
  }

  lemma {:induction false} ListingHasNoParameters(table: Table, order: seq<string>)
    requires WellKeyed(table) && forall id <- order :: id in table
    ensures Matcher.NoParametersMethod(RowsInOrder(table, order))
  {
    var rows := RowsInOrder(table, order);
    forall row | row in rows
      ensures Lower(row.verb) != "parameters"
    {
      var i :| 0 <= i < |order| && row == rows[i];
      assert RowWellKeyed(order[i], table[order[i]]);
      KnownMethodHasNoSpace(row.verb);
    }
  }

  /** Whatever order this SELECT and a matcher built afresh see the rows in, they agree. */
  ghost predicate RoutesAsFresh(s: State) {
    forall order, order' :: Lists(order, s.operations) && Lists(order', s.operations) ==>
      Matcher.Refilled(s.cache, RowsInOrder(s.operations, order)).matcher
        == Some(Matcher.Build(RowsInOrder(s.operations, order')))
  }

  lemma {:induction false} AmbiguousMisroutes(s: State, a: string, b: string)
    requires WellKeyed(s.operations) && a in s.operations && b in s.operations && a != b
    requires SameRoute(s.operations[a], s.operations[b])
    ensures !RoutesAsFresh(s)
  {
    var first := ListedLast(s.operations, a);
    var second := ListedLast(s.operations, b);
    var x, y := Matcher.Build(RowsInOrder(s.operations, first)), Matcher.Build(RowsInOrder(s.operations, second));
    assert x != y;
  }

  /** In every reachable state, requests are routed as by a matcher built afresh exactly when no two
      operations share a path and lower-cased method. */
  lemma {:induction false} RoutesAsFreshIff(events: seq<Event>)
    ensures RoutesAsFresh(After(events)) <==> UnambiguousTable(After(events).operations)
  {
    var s := After(events);
    RowsAreWellKeyed(events);
    if UnambiguousTable(s.operations) {
      forall order, order' | Lists(order, s.operations) && Lists(order', s.operations)
        ensures Matcher.Refilled(s.cache, RowsInOrder(s.operations, order)).matcher
             == Some(Matcher.Build(RowsInOrder(s.operations, order')))
      {
        ListingUnambiguous(s.operations, order');
        RoutingIsAsFresh(events, order, order');
      }
    } else {
      var a, b :| a in s.operations && b in s.operations && SameRoute(s.operations[a], s.operations[b]) && a != b;
      AmbiguousMisroutes(s, a, b);
    }
  }

  lemma {:induction false} RowsSnoc(table: Table, order: seq<string>, id: string)
    requires forall x <- order + [id] :: x in table
    ensures RowsInOrder(table, order + [id]) == RowsInOrder(table, order) + [RowOf(id, table[id])]
  {
  }

  /** How often a row occurs in a listing: once, if it is the row of a listed operation. */
  function Occurs(table: Table, order: seq<string>, row: Matcher.Row): nat
    requires forall id <- order :: id in table
  {
    if row.operationId in order && row == RowOf(row.operationId, table[row.operationId]) then 1 else 0
  }

  lemma {:induction false} ListingCounts(table: Table, order: seq<string>, row: Matcher.Row)
    requires forall id <- order :: id in table
    requires forall i, j :: 0 <= i < j < |order| ==> order[i] != order[j]
    ensures multiset(RowsInOrder(table, order))[row] == Occurs(table, order, row)
  {
    if order != [] {
      var n := |order| - 1;
      var rest, id := order[..n], order[n];
      ListingCounts(table, rest, row);
      assert order == rest + [id];
      RowsSnoc(table, rest, id);
      assert id !in rest;
    }
  }

  lemma ListingsPermute(table: Table, a: seq<string>, b: seq<string>)
    requires Lists(a, table) && Lists(b, table)
    ensures multiset(RowsInOrder(table, a)) == multiset(RowsInOrder(table, b))
  {
    forall row
      ensures multiset(RowsInOrder(table, a))[row] == multiset(RowsInOrder(table, b))[row]
    {
      ListingCounts(table, a, row);
      ListingCounts(table, b, row);
    }
  }

  // ---------- a renamed operation ----------

  /** A finder that looks up paths without templates. */
  ghost function ExactFinder(): Matcher.Finder {
    (index, verb, path) =>
      var entry := Matcher.Lookup(index, path, verb);
      if entry.Some? && entry.value.Endpoint? then Some(entry.value.operationId) else None
  }

  lemma ExactFinderOk()
    ensures Matcher.FinderOk(ExactFinder())
  {
    forall index, verb, path | ExactFinder()(index, verb, path).Some?
      ensures Matcher.Stored(index, ExactFinder()(index, verb, path).value)
    {
      assert Matcher.Lookup(index, path, verb) == Some(Matcher.Endpoint(ExactFinder()(index, verb, path).value));
    }
  }

  /** Two ids of GET /a, before and after its operationId was renamed. */
  function OldId(): string {
    ComputeOperationId("get", "/a", Some("x"))
  }

  function NewId(): string {
    ComputeOperationId("get", "/a", Some("y"))
  }

  /** Both rows exist, and only the new one is active. */
  ghost predicate Renamed(table: Table) {
    && OldId() != NewId() && table.Keys == {OldId(), NewId()} && ActiveIds(table) == {NewId()}
    && forall id <- table :: table[id].path == "/a" && table[id].verb == "GET"
  }

  /** The document declares x, then y instead. */
  function RenamingRun(): seq<Event> {
    SyncFrom("o", Declaring("get", "/a", "x")) + SyncFrom("o", Declaring("get", "/a", "y"))
  }

  lemma GetFacts()
    ensures Lower("get") == "get" == Lower("GET") && Upper("get") == "GET" && KnownMethod("get")
    ensures !(ADMIN_PATH_PREFIX <= "/a")
  {
  }

  lemma IdsDiffer()
    ensures OldId() != NewId()
  {
    GetFacts();
    assert "x"[0] != "y"[0];
    if OldId() == NewId() {
      IdentityIsInjective("get", "/a", Some("x"), "get", "/a", Some("y"));
    }
  }

  function ItemsOf(operationId: string): seq<Item> {
    Extract(Declaring("get", "/a", operationId).document.paths)
  }

  lemma {:induction false} SyncedTwice()
    ensures Renamed(SyncedTable(SyncedTable(map[], ItemsOf("x")), ItemsOf("y")))
  {
    GetFacts();
    IdsDiffer();
    SyncedOne(map[], "get", "/a", "x");
    SyncedOne(SyncedTable(map[], ItemsOf("x")), "get", "/a", "y");
  }

  /** The state after the renaming, before there is any token. */
  ghost predicate Fresh(s: State) {
    Renamed(s.operations) && s.config.Some? && s.tokens == map[] && s.cache == Matcher.EMPTY_SLOT
  }

  lemma {:induction false} RenamingRunRenames()
    ensures Fresh(After(RenamingRun()))
  {
    var first := SyncFrom("o", Declaring("get", "/a", "x"));
    assert [] + first == first;
    GetFacts();
    AfterSync([], "o", "get", "/a", "x");
    AfterSync(first, "o", "get", "/a", "y");
    SaveStep(After([]), "o");
    SaveStep(After(first), "o");
    SyncedTwice();
  }

  /** One caller, granted the new operation, asks for GET /a; the SELECT lists the rows in some order. */
  function Asking(order: seq<string>): Request {
    Request(Some("Bearer raw"), "GET", "/a", 0, order)
  }

  ghost predicate OneToken(s: State) {
    && s.tokens == map["t" := Token(1, "n", "raw", None, None, None)]
    && Permission("t", NewId()) in s.permissions && s.config.Some? && Renamed(s.operations)
  }

  lemma OneTokenAuthenticates(s: State, order: seq<string>)
    requires OneToken(s)
    ensures Authenticate(s.tokens, Asking(order).header, 0) == Authenticated("t")
  {
    BearerParses("", "raw", "");
    assert BEARER + "" + "raw" + "" == "Bearer raw";
    assert "t" in s.tokens && s.tokens["t"].tokenHash == "raw";
  }

  lemma {:induction false} LastWins(table: Table, first: string, last: string)
    requires Renamed(table) && {first, last} == {OldId(), NewId()}
    ensures Lists([first, last], table)
    ensures Matcher.Lookup(Matcher.Build(RowsInOrder(table, [first, last])), "/a", "get") == Some(Matcher.Endpoint(last))
  {
    var rows := RowsInOrder(table, [first, last]);
    assert first != last;
    assert Lower("GET") == "get" && |"get"| != |"parameters"|;
    assert rows == [Matcher.Row(first, "GET", "/a"), Matcher.Row(last, "GET", "/a")];
    Matcher.IndexIsLastMatch(rows, "/a", "get");
    assert Matcher.At(rows[1], "/a", "get");
  }

  /** The slot after a request that saw the old row last. */
  ghost function StaleSlot(table: Table): Matcher.Slot
    requires Renamed(table)
  {
    Matcher.Refilled(Matcher.EMPTY_SLOT, RowsInOrder(table, [NewId(), OldId()]))
  }

  lemma {:induction false} StaleSlotKept(table: Table)
    requires Renamed(table)
    ensures Matcher.Refilled(StaleSlot(table), RowsInOrder(table, [OldId(), NewId()])) == StaleSlot(table)
  {
    var a, b := RowsInOrder(table, [NewId(), OldId()]), RowsInOrder(table, [OldId(), NewId()]);
    assert a == [b[1], b[0]] && b == [b[0], b[1]];
    Matcher.FingerprintIffPermutation(a, b);
  }

  lemma {:induction false} RouteNames(table: Table, cache: Matcher.Slot, rows: seq<Matcher.Row>, id: string)
    requires Renamed(table) && id in table && rows == RowsInOrder(table, [OldId(), NewId()])
    requires Matcher.Refilled(cache, rows).matcher.Some?
    requires Matcher.Lookup(Matcher.Refilled(cache, rows).matcher.value, "/a", "get") == Some(Matcher.Endpoint(id))
    ensures Resolve(ExactFinder(), cache, table, Asking([OldId(), NewId()])) == Some(id)
  {
    assert Lower("GET") == "get";
    assert id in [OldId(), NewId()];
  }

  /** With the stale slot the old, inactive operation is found and the request refused; with an empty
      one the same request is forwarded. */
  lemma {:induction false} StaleSlotForbids(s: State)
    requires OneToken(s) && s.cache == StaleSlot(s.operations)
    ensures var request := Asking([OldId(), NewId()]);
      && Lists(request.order, s.operations)
      && Decide(ExactFinder(), s, request) == Forbidden("t", OldId())
      && Decide(ExactFinder(), s.(cache := Matcher.EMPTY_SLOT), request) == Forwarded("t", NewId())
  {
    var table := s.operations;
    var rows := RowsInOrder(table, [OldId(), NewId()]);
    OneTokenAuthenticates(s, [OldId(), NewId()]);
    LastWins(table, NewId(), OldId());
    LastWins(table, OldId(), NewId());
    StaleSlotKept(table);
    RouteNames(table, StaleSlot(table), rows, OldId());
    RouteNames(table, Matcher.EMPTY_SLOT, rows, NewId());
    assert NewId() in ActiveIds(table) && OldId() !in ActiveIds(table);
  }

  /** The renaming, a token with the new operation, and a request that saw the old row last. */
  function StaleRun(): seq<Event> {
    RenamingRun() + [Create(1, "t", "raw", "n", None, [NewId()])] + [Proxy(Asking([NewId(), OldId()]))]
  }

  lemma {:induction false} CreateStep(s: State)
    requires Fresh(s)
    ensures var s' := Step(s, Create(1, "t", "raw", "n", None, [NewId()]));
      OneToken(s') && s'.cache == Matcher.EMPTY_SLOT
  {
    SetPermissionsExactly(s.permissions, "t", [NewId()], Permission("t", NewId()));
  }

  lemma {:induction false} ProxyStep(s: State, request: Request)
    requires Lists(request.order, s.operations) && Authenticate(s.tokens, request.header, request.now).Authenticated?
    ensures Step(s, Proxy(request)) == s.(cache := Matcher.Refilled(s.cache, RowsInOrder(s.operations, request.order)))
  {
  }

  lemma {:induction false} AskStep(s: State)
    requires OneToken(s) && s.cache == Matcher.EMPTY_SLOT
    ensures Step(s, Proxy(Asking([NewId(), OldId()]))) == s.(cache := StaleSlot(s.operations))
  {
    OneTokenAuthenticates(s, [NewId(), OldId()]);
    LastWins(s.operations, NewId(), OldId());
    ProxyStep(s, Asking([NewId(), OldId()]));
  }

  lemma {:induction false} StaleRunReaches()
    ensures OneToken(After(StaleRun())) && After(StaleRun()).cache == StaleSlot(After(StaleRun()).operations)
  {
    var create := Create(1, "t", "raw", "n", None, [NewId()]);
    RenamingRunRenames();
    AfterSnoc(RenamingRun(), create);
    CreateStep(After(RenamingRun()));
    AfterSnoc(RenamingRun() + [create], Proxy(Asking([NewId(), OldId()])));
    AskStep(After(RenamingRun() + [create]));
  }

  /** Two requests whose SELECTs list the rows in different orders: the second is refused for the old
      operation, though the matcher its own listing gives would have let it through to the new one. */
  lemma {:induction false} StaleRouteForbids()
    ensures Matcher.FinderOk(ExactFinder())
    ensures var s, request := After(StaleRun()), Asking([OldId(), NewId()]);
      && Lists(request.order, s.operations)
      && Decide(ExactFinder(), s, request) == Forbidden("t", OldId())
      && Decide(ExactFinder(), s.(cache := Matcher.EMPTY_SLOT), request) == Forwarded("t", NewId())
  {
    ExactFinderOk();
    StaleRunReaches();
    StaleSlotForbids(After(StaleRun()));
  }
}
