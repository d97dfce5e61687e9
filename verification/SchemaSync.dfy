/** Reconciling the operations table with a fetched OpenAPI document:
    backend/app/services/schema_sync.py. The loops themselves are methods of Store.Store. */
module SchemaSync {
  import opened Prelude
  import opened OperationIdentity

  const ADMIN_PATH_PREFIX := "/_admin"

  // ---------- the fetched document ----------

  /** The value of one key of a path item. */
  datatype OperationNode = NotAnObject | OperationObject(operationId: Option<string>, summary: Option<string>)

  /** The value of one key of "paths"; a JSON object keeps the order of its keys. */
  datatype PathNode = PathNotAnObject | PathObject(entries: seq<(string, OperationNode)>)

  /** Malformed: the document, or its "paths", is not a JSON object, and extraction raises `error`. */
  datatype Document = Malformed(error: string) | Paths(paths: seq<(string, PathNode)>)

  /** ExtractedOperation */
  datatype Item = Item(operationId: string, verb: string, path: string,
                       openapiOperationId: Option<string>, summary: Option<string>)
  {
    function Label(): string {
      verb + " " + path
    }

    predicate Kept() {
      !(ADMIN_PATH_PREFIX <= path)
    }
  }

  predicate Qualifies(entry: (string, OperationNode)) {
    KnownMethod(entry.0) && entry.1.OperationObject?
  }

  function MakeItem(path: string, entry: (string, OperationNode)): Item
    requires Qualifies(entry)
  {
    Item(ComputeOperationId(entry.0, path, entry.1.operationId), Upper(entry.0), path,
         entry.1.operationId, entry.1.summary)
  }

  function ExtractPath(path: string, entries: seq<(string, OperationNode)>): seq<Item> {
    if entries == [] then []
    else
      var last := entries[|entries| - 1];
      ExtractPath(path, entries[..|entries| - 1]) + if Qualifies(last) then [MakeItem(path, last)] else []
  }

  function Extract(paths: seq<(string, PathNode)>): seq<Item> {
    if paths == [] then []
    else
      var last := paths[|paths| - 1];
      Extract(paths[..|paths| - 1]) + if last.1.PathObject? then ExtractPath(last.0, last.1.entries) else []
  }

  /** Entry j of path i of the document declares `item`. */
  ghost predicate Declares(paths: seq<(string, PathNode)>, i: int, j: int, item: Item) {
    && 0 <= i < |paths|
    && paths[i].1.PathObject?
    && 0 <= j < |paths[i].1.entries|
    && var (verb, node) := paths[i].1.entries[j];
       && Lower(verb) in KNOWN_METHODS && node.OperationObject?
       && item.verb == Upper(verb) && item.path == paths[i].0
       && item.openapiOperationId == node.operationId && item.summary == node.summary
       && item.operationId == ComputeOperationId(verb, item.path, node.operationId)
  }

  lemma {:induction false} PathItemIsDeclared(path: string, entries: seq<(string, OperationNode)>, item: Item)
    returns (j: nat)
    requires item in ExtractPath(path, entries)
    ensures j < |entries| && Qualifies(entries[j]) && item == MakeItem(path, entries[j])
  {
    j := |entries| - 1;
    if !(Qualifies(entries[j]) && item == MakeItem(path, entries[j])) {
      j := PathItemIsDeclared(path, entries[..j], item);
    }
  }

  lemma {:induction false} PathItemIsExtracted(path: string, entries: seq<(string, OperationNode)>, j: nat)
    requires j < |entries| && Qualifies(entries[j])
    ensures MakeItem(path, entries[j]) in ExtractPath(path, entries)
  {
    var n := |entries| - 1;
    if j < n {
      PathItemIsExtracted(path, entries[..n], j);
    }
  }

  lemma {:induction false} ItemIsDeclared(paths: seq<(string, PathNode)>, item: Item) returns (i: nat, j: nat)
    requires item in Extract(paths)
    ensures Declares(paths, i, j, item)
  {
    var n := |paths| - 1;
    if item in Extract(paths[..n]) {
      i, j := ItemIsDeclared(paths[..n], item);
    } else {
      i := n;
      j := PathItemIsDeclared(paths[n].0, paths[n].1.entries, item);
    }
  }

  lemma {:induction false} DeclaredIsExtracted(paths: seq<(string, PathNode)>, i: nat, j: nat, item: Item)
    requires Declares(paths, i, j, item)
    ensures item in Extract(paths)
  {
    var n := |paths| - 1;
    if i < n {
      DeclaredIsExtracted(paths[..n], i, j, item);
    } else {
      PathItemIsExtracted(paths[n].0, paths[n].1.entries, j);
    }
  }

  /** Extraction finds the declared operations and nothing else. */
  lemma {:induction false} ExtractExactly(paths: seq<(string, PathNode)>, item: Item)
    ensures item in Extract(paths) <==> exists i, j :: Declares(paths, i, j, item)
  {
    if item in Extract(paths) {
      var i, j := ItemIsDeclared(paths, item);
    }
    if i, j :| Declares(paths, i, j, item) {
      DeclaredIsExtracted(paths, i, j, item);
    }
  }

  lemma {:induction false} ExtractPathConcat(path: string, a: seq<(string, OperationNode)>, b: seq<(string,
                                             OperationNode)>)
    ensures ExtractPath(path, a + b) == ExtractPath(path, a) + ExtractPath(path, b)
  {
    if b == [] {
      assert a + b == a;
    } else {
      var n := |b| - 1;
      assert (a + b)[..|a| + n] == a + b[..n];
      ExtractPathConcat(path, a, b[..n]);
    }
  }

  /** Extraction keeps the order of the document: path by path, and within a path entry by entry. */
  lemma {:induction false} ExtractConcat(a: seq<(string, PathNode)>, b: seq<(string, PathNode)>)
    ensures Extract(a + b) == Extract(a) + Extract(b)
  {
    if b == [] {
      assert a + b == a;
    } else {
      var n := |b| - 1;
      assert (a + b)[..|a| + n] == a + b[..n];
      ExtractConcat(a, b[..n]);
    }
  }

  lemma {:induction false} ExtractOneEntry(path: string, verb: string, node: OperationNode)
    ensures Extract([(path, PathObject([(verb, node)]))]) ==
      if Lower(verb) in KNOWN_METHODS && node.OperationObject?
      then [Item(ComputeOperationId(verb, path, node.operationId), Upper(verb), path, node.operationId, node.summary)]
      else []
  {
    var entry := (verb, node);
    assert [(path, PathObject([entry]))][..0] == [] && [entry][..0] == [];
    assert ExtractPath(path, [entry]) == if Qualifies(entry) then [MakeItem(path, entry)] else [];
  }

  lemma {:induction false} ExtractOnePathItem(path: string, node: PathNode)
    ensures Extract([(path, node)]) == if node.PathObject? then ExtractPath(path, node.entries) else []
  {
    assert [(path, node)][..0] == [];
  }

  lemma {:induction false} ExtractSplitsPath(path: string, e: seq<(string, OperationNode)>, f: seq<(string,
                                             OperationNode)>)
    ensures Extract([(path, PathObject(e + f))]) == Extract([(path, PathObject(e))]) + Extract([(path, PathObject(f))])
    ensures Extract([(path, PathNotAnObject)]) == [] == Extract([(path, PathObject([]))])
  {
    ExtractPathConcat(path, e, f);
    ExtractOnePathItem(path, PathObject(e + f));
    ExtractOnePathItem(path, PathObject(e));
    ExtractOnePathItem(path, PathObject(f));
    ExtractOnePathItem(path, PathObject([]));
    ExtractOnePathItem(path, PathNotAnObject);
  }

  // ---------- the operations table ----------

  datatype Operation = Operation(operationId: string, verb: string, path: string,
                                 openapiOperationId: Option<string>, summary: Option<string>, isActive: bool)
  {
    function Label(): string {
      verb + " " + path
    }

    predicate SameEndpoint(other: Operation) {
      && operationId == other.operationId && verb == other.verb
      && path == other.path && openapiOperationId == other.openapiOperationId
    }
  }

  type Table = map<string, Operation>

  /** Every row is filed under the id computed from its own fields. */
  ghost predicate WellKeyed(table: Table) {
    forall id <- table :: RowWellKeyed(id, table[id])
  }

  ghost predicate RowWellKeyed(id: string, row: Operation) {
    && row.operationId == id
    && KnownMethod(row.verb)
    && id == ComputeOperationId(row.verb, row.path, row.openapiOperationId)
  }

  function ActiveIds(table: Table): set<string> {
    set id | id in table && table[id].isActive
  }

  function TargetIds(items: seq<Item>): set<string> {
    set item | item in items && item.Kept() :: item.operationId
  }

  function NewRow(item: Item): Operation {
    Operation(item.operationId, item.verb, item.path, item.openapiOperationId, item.summary, true)
  }

  /** SyncResult, with `removed` as a multiset of labels: the SELECT that finds them has no order. */
  datatype SyncResult = SyncResult(added: seq<string>, updated: seq<string>, removed: multiset<string>,
                                   skippedAdminConflict: seq<string>)
  {
    predicate HasChanges() {
      added != [] || updated != [] || removed != multiset{} || skippedAdminConflict != []
    }
  }

  /** What the first loop of sync_operations has built so far. */
  datatype Progress = Progress(table: Table, seen: set<string>, added: seq<string>, updated: seq<string>,
                               skipped: seq<string>)

  function Consume(p: Progress, item: Item): Progress {
    var id := item.operationId;
    if !item.Kept() then
      p.(skipped := p.skipped + [item.Label()])
    else if id !in p.table then
      p.(table := p.table[id := NewRow(item)], seen := p.seen + {id}, added := p.added + [item.Label()])
    else
      var changed := p.table[id].summary != item.summary || !p.table[id].isActive;
      p.(table := p.table[id := p.table[id].(summary := item.summary, isActive := true)],
         seen := p.seen + {id},
         updated := p.updated + if changed then [item.Label()] else [])
  }

  function Fold(table: Table, items: seq<Item>): Progress {
    if items == [] then Progress(table, {}, [], [], [])
    else Consume(Fold(table, items[..|items| - 1]), items[|items| - 1])
  }

  function Deactivate(table: Table, seen: set<string>): Table {
    map id | id in table :: if id in seen then table[id] else table[id].(isActive := false)
  }

  function RemovedIds(table: Table, seen: set<string>): set<string> {
    ActiveIds(table) - seen
  }

  ghost function LabelsOf(table: Table, ids: set<string>): multiset<string>
    requires ids <= table.Keys
  {
    if ids == {} then multiset{}
    else
      var id :| id in ids;
      multiset{table[id].Label()} + LabelsOf(table, ids - {id})
  }

  ghost function SyncedTable(table: Table, items: seq<Item>): Table {
    var p := Fold(table, items);
    Deactivate(p.table, p.seen)
  }

  ghost function ResultOf(table: Table, items: seq<Item>): SyncResult {
    var p := Fold(table, items);
    SyncResult(p.added, p.updated, LabelsOf(p.table, RemovedIds(p.table, p.seen)), p.skipped)
  }

  // ---------- what reconciliation does ----------

  /** The first and the last item that declares a non-admin id. */
  function FirstIndex(items: seq<Item>, id: string): (i: nat)
    requires id in TargetIds(items)
    ensures i < |items| && items[i].Kept() && items[i].operationId == id
    ensures forall k :: 0 <= k < i && items[k].Kept() ==> items[k].operationId != id
  {
    var n := |items| - 1;
    if id in TargetIds(items[..n]) then FirstIndex(items[..n], id) else n
  }

  function LastIndex(items: seq<Item>, id: string): (i: nat)
    requires id in TargetIds(items)
    ensures i < |items| && items[i].Kept() && items[i].operationId == id
    ensures forall k :: i < k < |items| && items[k].Kept() ==> items[k].operationId != id
  {
    var n := |items| - 1;
    if items[n].Kept() && items[n].operationId == id then n else LastIndex(items[..n], id)
  }

  lemma TargetIdsSnoc(items: seq<Item>)
    requires items != []
    ensures TargetIds(items) == TargetIds(items[..|items| - 1])
                              + if items[|items| - 1].Kept() then {items[|items| - 1].operationId} else {}
  {
    assert items == items[..|items| - 1] + [items[|items| - 1]];
  }

  lemma {:induction false} FoldKeys(table: Table, items: seq<Item>)
    ensures var p := Fold(table, items);
      && p.seen == TargetIds(items)
      && p.table.Keys == table.Keys + p.seen
      && (forall id <- table :: p.table[id].SameEndpoint(table[id]))
      && (forall id <- table :: id !in p.seen ==> p.table[id] == table[id])
  {
    if items != [] {
      FoldKeys(table, items[..|items| - 1]);
      TargetIdsSnoc(items);
    }
  }

  lemma {:induction false} FoldSummaries(table: Table, items: seq<Item>)
    ensures var p := Fold(table, items);
      && p.seen == TargetIds(items)
      && p.seen <= p.table.Keys
      && (forall id <- p.seen :: p.table[id].isActive && p.table[id].summary == items[LastIndex(items, id)].summary)
  {
    if items != [] {
      FoldSummaries(table, items[..|items| - 1]);
      TargetIdsSnoc(items);
    }
  }

  lemma {:induction false} FoldNewRow(table: Table, items: seq<Item>, id: string)
    requires id in TargetIds(items) && id !in table
    ensures id in Fold(table, items).table
    ensures Fold(table, items).table[id].SameEndpoint(NewRow(items[FirstIndex(items, id)]))
  {
    var n := |items| - 1;
    TargetIdsSnoc(items);
    FoldKeys(table, items[..n]);
    if id in TargetIds(items[..n]) {
      FoldNewRow(table, items[..n], id);
    }
  }

  lemma {:induction false} LabelsOfRemove(table: Table, ids: set<string>, id: string)
    requires ids <= table.Keys && id in ids
    ensures LabelsOf(table, ids) == multiset{table[id].Label()} + LabelsOf(table, ids - {id})
    decreases ids
  {
    var pick :| pick in ids && LabelsOf(table, ids) == multiset{table[pick].Label()} + LabelsOf(table, ids - {pick});
    if pick != id {
      LabelsOfRemove(table, ids - {pick}, id);
      LabelsOfRemove(table, ids - {id}, pick);
      assert ids - {pick} - {id} == ids - {id} - {pick};
    }
  }

  lemma {:induction false} LabelsOfSize(table: Table, ids: set<string>)
    requires ids <= table.Keys
    ensures |LabelsOf(table, ids)| == |ids|
    decreases ids
  {
    if ids != {} {
      var id :| id in ids;
      LabelsOfRemove(table, ids, id);
      LabelsOfSize(table, ids - {id});
    }
  }

  /** Reconciliation, for any table and any items: who is active, who exists, what a row keeps. */
  lemma {:induction false} Reconciliation(table: Table, items: seq<Item>)
    ensures var t := SyncedTable(table, items);
      && ActiveIds(t) == TargetIds(items)
      && t.Keys == table.Keys + TargetIds(items)
      && (forall id <- table :: t[id].SameEndpoint(table[id]))
      && (forall id <- table :: id !in TargetIds(items) ==> t[id] == table[id].(isActive := false))
      && (forall id <- TargetIds(items) :: t[id].summary == items[LastIndex(items, id)].summary)
      && (forall id <- TargetIds(items) :: id !in table ==> t[id].SameEndpoint(NewRow(items[FirstIndex(items, id)])))
  {
    FoldKeys(table, items);
    FoldSummaries(table, items);
    forall id | id in TargetIds(items) && id !in table
      ensures Fold(table, items).table[id].SameEndpoint(NewRow(items[FirstIndex(items, id)]))
    {
      FoldNewRow(table, items, id);
    }
  }

  ghost function SyncAll(table: Table, runs: seq<seq<Item>>): Table {
    if runs == [] then table else SyncedTable(SyncAll(table, runs[..|runs| - 1]), runs[|runs| - 1])
  }

  /** Over any sequence of documents the active set depends on the last document only. */
  lemma {:induction false} ActiveSetDependsOnLast(table: Table, runs: seq<seq<Item>>, table': Table,
                                                  runs': seq<seq<Item>>)
    requires runs != [] && runs' != [] && runs[|runs| - 1] == runs'[|runs'| - 1]
    ensures ActiveIds(SyncAll(table, runs)) == ActiveIds(SyncAll(table', runs'))
  {
    Reconciliation(SyncAll(table, runs[..|runs| - 1]), runs[|runs| - 1]);
    Reconciliation(SyncAll(table', runs'[..|runs'| - 1]), runs'[|runs'| - 1]);
  }

  /** The items come from a document: their ids are computed from their own fields. */
  ghost predicate FromDocument(items: seq<Item>) {
    forall item <- items :: RowWellKeyed(item.operationId, NewRow(item))
  }

  lemma {:induction false} ExtractedFromDocument(paths: seq<(string, PathNode)>)
    ensures FromDocument(Extract(paths))
  {
    forall item | item in Extract(paths)
      ensures RowWellKeyed(item.operationId, NewRow(item))
    {
      ExtractExactly(paths, item);
      var i, j :| Declares(paths, i, j, item);
      UpperFacts(paths[i].1.entries[j].0);
    }
  }

  lemma SyncKeepsWellKeyed(table: Table, items: seq<Item>)
    requires WellKeyed(table) && FromDocument(items)
    ensures WellKeyed(SyncedTable(table, items))
  {
    Reconciliation(table, items);
    var t := SyncedTable(table, items);
    forall id | id in t
      ensures RowWellKeyed(id, t[id])
    {
      if id !in table {
        var item := items[FirstIndex(items, id)];
        assert t[id].SameEndpoint(NewRow(item)) && item in items;
      }
    }
  }

  // ---------- what the diff says ----------

  lemma {:induction false} AddedIsGrowth(table: Table, items: seq<Item>)
    ensures |Fold(table, items).added| == |Fold(table, items).table| - |table|
  {
    if items != [] {
      var n := |items| - 1;
      AddedIsGrowth(table, items[..n]);
      var p, id := Fold(table, items[..n]), items[n].operationId;
      if id !in p.table {
        assert p.table[id := NewRow(items[n])].Keys == p.table.Keys + {id};
      } else {
        assert Fold(table, items).table.Keys == p.table.Keys;
      }
    }
  }

  /** The sizes of the diff, duplicate ids included. */
  lemma {:induction false} DiffAccounting(table: Table, items: seq<Item>)
    ensures |ResultOf(table, items).added| == |SyncedTable(table, items)| - |table|
    ensures |ResultOf(table, items).removed| == |ActiveIds(table) - TargetIds(items)|
    ensures ResultOf(table, items).removed == LabelsOf(table, ActiveIds(table) - TargetIds(items))
  {
    var p := Fold(table, items);
    FoldKeys(table, items);
    AddedIsGrowth(table, items);
    assert SyncedTable(table, items).Keys == p.table.Keys;
    var gone := ActiveIds(table) - TargetIds(items);
    assert RemovedIds(p.table, p.seen) == gone;
    LabelsOfSize(p.table, gone);
    LabelsOfAgree(p.table, table, gone);
  }

  lemma {:induction false} LabelsOfAgree(table: Table, table': Table, ids: set<string>)
    requires ids <= table.Keys && ids <= table'.Keys
    requires forall id <- ids :: table[id].Label() == table'[id].Label()
    ensures LabelsOf(table, ids) == LabelsOf(table', ids)
    decreases ids
  {
    if ids != {} {
      var id :| id in ids;
      LabelsOfRemove(table, ids, id);
      LabelsOfRemove(table', ids, id);
      LabelsOfAgree(table, table', ids - {id});
    }
  }

  // ---------- the lists of the diff, by position ----------

  /** The labels of the items at the chosen positions, in order. */
  function LabelsAt(items: seq<Item>, chosen: set<int>): seq<string> {
    if items == [] then []
    else
      var n := |items| - 1;
      LabelsAt(items[..n], chosen) + if n in chosen then [items[n].verb + " " + items[n].path] else []
  }

  predicate AdminAt(items: seq<Item>, i: int)
    requires 0 <= i < |items|
  {
    "/_admin" <= items[i].path
  }

  /** Item j is the latest before i that is no admin path and has the id of item i. */
  ghost predicate Previous(items: seq<Item>, j: int, i: int)
    requires 0 <= i < |items|
  {
    && 0 <= j < i && !AdminAt(items, j) && items[j].operationId == items[i].operationId
    && forall k :: j < k < i && !AdminAt(items, k) ==> items[k].operationId != items[i].operationId
  }

  ghost predicate IsFirst(items: seq<Item>, i: int)
    requires 0 <= i < |items|
  {
    forall k :: 0 <= k < i && !AdminAt(items, k) ==> items[k].operationId != items[i].operationId
  }

  /** Item i adds a row. */
  ghost predicate AddsAt(table: Table, items: seq<Item>, i: int)
    requires 0 <= i < |items|
  {
    !AdminAt(items, i) && IsFirst(items, i) && items[i].operationId !in table
  }

  /** Item i finds its row, inactive or with another summary; the row is the one that the previous item
      with this id left, else the old one. */
  ghost predicate UpdatesAt(table: Table, items: seq<Item>, i: int)
    requires 0 <= i < |items|
  {
    var id := items[i].operationId;
    && !AdminAt(items, i)
    && if IsFirst(items, i)
       then id in table && (!table[id].isActive || table[id].summary != items[i].summary)
       else exists j :: Previous(items, j, i) && items[j].summary != items[i].summary
  }

  ghost function AdminPositions(items: seq<Item>): set<int> {
    set i | 0 <= i < |items| && AdminAt(items, i)
  }

  ghost function AddPositions(table: Table, items: seq<Item>): set<int> {
    set i | 0 <= i < |items| && AddsAt(table, items, i)
  }

  ghost function UpdatePositions(table: Table, items: seq<Item>): set<int> {
    set i | 0 <= i < |items| && UpdatesAt(table, items, i)
  }

  lemma {:induction false} LabelsAgree(items: seq<Item>, a: set<int>, b: set<int>)
    requires forall i :: 0 <= i < |items| ==> (i in a <==> i in b)
    ensures LabelsAt(items, a) == LabelsAt(items, b)
  {
    if items != [] {
      LabelsAgree(items[..|items| - 1], a, b);
    }
  }

  lemma {:induction false} PositionsInPrefix(table: Table, items: seq<Item>, n: nat, i: nat)
    requires i < n <= |items|
    ensures AdminAt(items[..n], i) == AdminAt(items, i)
    ensures IsFirst(items[..n], i) == IsFirst(items, i)
    ensures AddsAt(table, items[..n], i) == AddsAt(table, items, i)
    ensures UpdatesAt(table, items[..n], i) == UpdatesAt(table, items, i)
  {
    assert forall k :: 0 <= k < n ==> items[..n][k] == items[k];
    assert forall j :: 0 <= j < n ==> AdminAt(items[..n], j) == AdminAt(items, j);
    forall j
      ensures Previous(items[..n], j, i) == Previous(items, j, i)
    {
    }
  }

  /** An id seen before: its row is the one that the previous item with this id left. */
  lemma {:induction false} SeenBefore(items: seq<Item>) returns (j: nat)
    requires items != [] && items[|items| - 1].operationId in TargetIds(items[..|items| - 1])
    ensures var n := |items| - 1;
      && j == LastIndex(items[..n], items[n].operationId) && Previous(items, j, n) && !IsFirst(items, n)
      && forall k :: Previous(items, k, n) ==> k == j
  {
    var n := |items| - 1;
    var rest, id := items[..n], items[n].operationId;
    j := LastIndex(rest, id);
    assert rest[j] == items[j] && !AdminAt(items, j);
    forall k | j < k < n && !AdminAt(items, k)
      ensures items[k].operationId != id
    {
      assert rest[k] == items[k];
    }
  }

  lemma {:induction false} NotSeenBefore(items: seq<Item>)
    requires items != [] && items[|items| - 1].operationId !in TargetIds(items[..|items| - 1])
    ensures IsFirst(items, |items| - 1)
  {
    var n := |items| - 1;
    var rest := items[..n];
    forall k | 0 <= k < n && !AdminAt(items, k)
      ensures items[k].operationId != items[n].operationId
    {
      assert rest[k] == items[k] && rest[k] in rest;
    }
  }

  /** What the fold holds for the id of the item to come. */
  lemma {:induction false} BeforeItem(table: Table, items: seq<Item>)
    requires items != [] && !AdminAt(items, |items| - 1)
    ensures var n := |items| - 1;
      var p, id := Fold(table, items[..n]), items[n].operationId;
      && (AddsAt(table, items, n) <==> id !in p.table)
      && (UpdatesAt(table, items, n)
          <==> id in p.table && (!p.table[id].isActive || p.table[id].summary != items[n].summary))
  {
    var n := |items| - 1;
    var rest, id := items[..n], items[n].operationId;
    if id in TargetIds(rest) {
      FoldSummaries(table, rest);
      var j := SeenBefore(items);
      assert rest[j] == items[j];
    } else {
      FoldKeys(table, rest);
      NotSeenBefore(items);
    }
  }

  /** The three lists of the first loop, by the positions of the items they come from. */
  lemma {:induction false} FoldLists(table: Table, items: seq<Item>)
    ensures Fold(table, items).skipped == LabelsAt(items, AdminPositions(items))
    ensures Fold(table, items).added == LabelsAt(items, AddPositions(table, items))
    ensures Fold(table, items).updated == LabelsAt(items, UpdatePositions(table, items))
  {
    if items != [] {
      var n := |items| - 1;
      FoldLists(table, items[..n]);
      forall i | 0 <= i < n
        ensures i in AdminPositions(items[..n]) <==> i in AdminPositions(items)
        ensures i in AddPositions(table, items[..n]) <==> i in AddPositions(table, items)
        ensures i in UpdatePositions(table, items[..n]) <==> i in UpdatePositions(table, items)
      {
        PositionsInPrefix(table, items, n, i);
      }
      LabelsAgree(items[..n], AdminPositions(items[..n]), AdminPositions(items));
      LabelsAgree(items[..n], AddPositions(table, items[..n]), AddPositions(table, items));
      LabelsAgree(items[..n], UpdatePositions(table, items[..n]), UpdatePositions(table, items));
      LastOfLists(table, items);
    }
  }

  lemma {:induction false} LastOfLists(table: Table, items: seq<Item>)
    requires items != []
    ensures var n := |items| - 1;
      var p, q := Fold(table, items[..n]), Fold(table, items);
      var text := [items[n].verb + " " + items[n].path];
      && q.skipped == p.skipped + (if n in AdminPositions(items) then text else [])
      && q.added == p.added + (if n in AddPositions(table, items) then text else [])
      && q.updated == p.updated + (if n in UpdatePositions(table, items) then text else [])
  {
    var n := |items| - 1;
    if !AdminAt(items, n) {
      BeforeItem(table, items);
    }
  }

  /** Those of the rows that have this label. */
  function Labelled(table: Table, ids: set<string>, text: string): set<string>
    requires ids <= table.Keys
  {
    set id | id in ids && table[id].verb + " " + table[id].path == text
  }

  lemma {:induction false} LabelledRemove(table: Table, ids: set<string>, id: string, text: string)
    requires ids <= table.Keys && id in ids
    ensures |Labelled(table, ids, text)|
         == |Labelled(table, ids - {id}, text)| + if table[id].verb + " " + table[id].path == text then 1 else 0
  {
    var all, rest := Labelled(table, ids, text), Labelled(table, ids - {id}, text);
    if table[id].verb + " " + table[id].path == text {
      assert all == rest + {id};
    } else {
      assert all == rest;
    }
  }

  lemma {:induction false} LabelsOfCounts(table: Table, ids: set<string>, text: string)
    requires ids <= table.Keys
    ensures LabelsOf(table, ids)[text] == |Labelled(table, ids, text)|
    decreases ids
  {
    if ids == {} {
      assert Labelled(table, ids, text) == {};
    } else {
      var id :| id in ids;
      LabelsOfRemove(table, ids, id);
      LabelsOfCounts(table, ids - {id}, text);
      LabelledRemove(table, ids, id, text);
    }
  }

  /** Every list of the diff, exactly: skipped, added and updated labels in document order, with
      multiplicity, and each removed label as often as a formerly active row with it is not seen. */
  lemma {:induction false} DiffExactly(table: Table, items: seq<Item>)
    ensures var result := ResultOf(table, items);
      && result.skippedAdminConflict == LabelsAt(items, AdminPositions(items))
      && result.added == LabelsAt(items, AddPositions(table, items))
      && result.updated == LabelsAt(items, UpdatePositions(table, items))
      && forall text :: result.removed[text] == |Labelled(table, ActiveIds(table) - TargetIds(items), text)|
  {
    FoldLists(table, items);
    DiffAccounting(table, items);
    forall text
      ensures ResultOf(table, items).removed[text] == |Labelled(table, ActiveIds(table) - TargetIds(items), text)|
    {
      LabelsOfCounts(table, ActiveIds(table) - TargetIds(items), text);
    }
  }

  /** The table already says about `item` what the document says. */
  predicate UpToDate(table: Table, item: Item) {
    && item.Kept()
    && item.operationId in table
    && table[item.operationId].isActive
    && table[item.operationId].summary == item.summary
  }

  ghost predicate Settled(table: Table, items: seq<Item>) {
    && (forall item <- items :: UpToDate(table, item))
    && ActiveIds(table) <= TargetIds(items)
  }

  predicate Quiet(p: Progress) {
    p.added == [] && p.updated == [] && p.skipped == []
  }

  lemma QuietStep(p: Progress, item: Item)
    ensures Quiet(Consume(p, item)) <==> Quiet(p) && UpToDate(p.table, item)
    ensures Quiet(Consume(p, item)) ==> Consume(p, item).table == p.table
  {
    if UpToDate(p.table, item) {
      var row := p.table[item.operationId];
      assert row.(summary := item.summary, isActive := true) == row;
    }
  }

  lemma {:induction false} QuietFold(table: Table, items: seq<Item>)
    ensures var p := Fold(table, items);
      && (Quiet(p) <==> forall item <- items :: UpToDate(table, item))
      && (Quiet(p) ==> p.table == table)
  {
    if items != [] {
      var n := |items| - 1;
      QuietFold(table, items[..n]);
      QuietStep(Fold(table, items[..n]), items[n]);
      assert items == items[..n] + [items[n]];
    }
  }

  lemma NothingRemovedIff(table: Table, items: seq<Item>)
    ensures ResultOf(table, items).removed == multiset{} <==> ActiveIds(table) <= TargetIds(items)
  {
    DiffAccounting(table, items);
    var gone := ActiveIds(table) - TargetIds(items);
    if gone == {} {
      assert forall id <- ActiveIds(table) :: id !in TargetIds(items) ==> id in gone;
    }
  }

  /** has_changes is false exactly when the table already agreed with every item... */
  lemma NoChangesIff(table: Table, items: seq<Item>)
    ensures !ResultOf(table, items).HasChanges() <==> Settled(table, items)
  {
    QuietFold(table, items);
    NothingRemovedIff(table, items);
  }

  /** ... and then nothing moves. */
  lemma SettledIsFixed(table: Table, items: seq<Item>)
    requires Settled(table, items)
    ensures SyncedTable(table, items) == table
  {
    QuietFold(table, items);
    FoldKeys(table, items);
    forall id | id in table && id !in TargetIds(items)
      ensures table[id].(isActive := false) == table[id]
    {
      assert id !in ActiveIds(table);
    }
  }

  ghost predicate SummariesAgree(items: seq<Item>) {
    forall x, y :: x in items && y in items && x.operationId == y.operationId ==> x.summary == y.summary
  }

  /** A second sync of the same document is silent exactly when the document has no admin path and
      repeats an id only with the same summary. */
  lemma ResyncIsSilentIff(table: Table, items: seq<Item>)
    ensures Settled(SyncedTable(table, items), items)
        <==> (forall item <- items :: item.Kept()) && SummariesAgree(items)
  {
    Reconciliation(table, items);
    var t := SyncedTable(table, items);
    if (forall item <- items :: item.Kept()) && SummariesAgree(items) {
      forall item | item in items
        ensures UpToDate(t, item)
      {
        assert item.operationId in TargetIds(items);
        assert item.operationId in ActiveIds(t);
        assert items[LastIndex(items, item.operationId)] in items;
      }
    }
    if Settled(t, items) {
      forall x, y | x in items && y in items && x.operationId == y.operationId
        ensures x.summary == y.summary
      {
        assert UpToDate(t, x) && UpToDate(t, y);
      }
    }
  }

  /** Syncing a document a second time changes nothing, whatever its items. */
  lemma SyncIsIdempotent(table: Table, items: seq<Item>)
    ensures SyncedTable(SyncedTable(table, items), items) == SyncedTable(table, items)
  {
    var once := SyncedTable(table, items);
    var twice := SyncedTable(once, items);
    Reconciliation(table, items);
    Reconciliation(once, items);
    forall id | id in once
      ensures twice[id] == once[id]
    {
      assert id in ActiveIds(once) <==> id in TargetIds(items);
      assert id in ActiveIds(twice) <==> id in TargetIds(items);
    }
  }

  /** The items whose diff can be trusted: no admin path, and a repeated id repeats its summary. */
  ghost predicate Plain(items: seq<Item>) {
    (forall item <- items :: item.Kept()) && SummariesAgree(items)
  }

  lemma NoChangesMeansUnchanged(table: Table, items: seq<Item>)
    requires Plain(items)
    ensures ResultOf(table, items).HasChanges() <==> SyncedTable(table, items) != table
  {
    NoChangesIff(table, items);
    ResyncIsSilentIff(table, items);
    if Settled(table, items) {
      SettledIsFixed(table, items);
    }
  }

  /** An item list that is not plain reports changes on a table it leaves alone. */
  lemma PhantomChanges(table: Table, items: seq<Item>)
    requires !Plain(items)
    ensures var t := SyncedTable(table, items);
      SyncedTable(t, items) == t && ResultOf(t, items).HasChanges()
  {
    SyncIsIdempotent(table, items);
    ResyncIsSilentIff(table, items);
    NoChangesIff(SyncedTable(table, items), items);
  }

  /** "Has changes" means "the table changed", for every table, exactly when the items are plain. */
  lemma {:induction false} DiffIsTruthfulIff(items: seq<Item>)
    ensures (forall table :: ResultOf(table, items).HasChanges() <==> SyncedTable(table, items) != table)
        <==> Plain(items)
  {
    if Plain(items) {
      forall table
        ensures ResultOf(table, items).HasChanges() <==> SyncedTable(table, items) != table
      {
        NoChangesMeansUnchanged(table, items);
      }
    } else {
      PhantomChanges(map[], items);
    }
  }

  /** A document that spells one method in two ways under one path. */
  const REPEATED: seq<(string, PathNode)> :=
    [("/a", PathObject([("get", OperationObject(None, Some("x"))), ("GET", OperationObject(None, Some("y")))]))]

  lemma ExtractOnePath(path: string, e: (string, OperationNode), f: (string, OperationNode))
    requires Qualifies(e) && Qualifies(f)
    ensures Extract([(path, PathObject([e, f]))]) == [MakeItem(path, e), MakeItem(path, f)]
  {
    var paths, entries := [(path, PathObject([e, f]))], [e, f];
    assert paths[..0] == [] && entries[..1] == [e] && [e][..0] == [];
    assert ExtractPath(path, [e]) == [MakeItem(path, e)];
  }

  /** It extracts two items with one id, so every sync after the first reports updates of a table that
      does not change. */
  lemma RepeatedIdReportsPhantomUpdates(table: Table)
    ensures var items := Extract(REPEATED);
      && |items| == 2 && items[0].operationId == items[1].operationId
      && (forall item <- items :: item.Kept())
      && var t := SyncedTable(table, items);
         SyncedTable(t, items) == t && ResultOf(t, items).HasChanges()
  {
    var e, f := ("get", OperationObject(None, Some("x"))), ("GET", OperationObject(None, Some("y")));
    var items := Extract(REPEATED);
    assert Lower("get") == "get" == Lower("GET") && Upper("get") == "GET" == Upper("GET");
    ExtractOnePath("/a", e, f);
    assert !(ADMIN_PATH_PREFIX <= "/a");
    assert items[0] in items && items[1] in items;
    assert items[0].summary.value[0] != items[1].summary.value[0];
    PhantomChanges(table, items);
  }
}
