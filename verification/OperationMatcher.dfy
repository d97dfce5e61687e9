/** The path index and its single-slot cache: backend/app/services/operation_matcher.py.
    The sha256 of the JSON fingerprint is idealised as injective: the key is the sorted list itself. */
module OperationMatcher {
  import opened Prelude
  import opened OperationIdentity

  /** The columns of an operation that the matcher reads. */
  datatype Row = Row(operationId: string, verb: string, path: string)

  /** A value of a path item: the "parameters" list, or one method's operation. */
  datatype Entry = Parameters(names: seq<string>) | Endpoint(operationId: string)

  type Index = map<string, map<string, Entry>>

  // ---------- _build_minimal_spec ----------

  predicate WordChar(c: char) {
    'a' <= c <= 'z' || 'A' <= c <= 'Z' || '0' <= c <= '9' || c == '_'
  }

  function WordPrefix(s: string): (n: nat)
    ensures n <= |s|
  {
    if s == "" || !WordChar(s[0]) then 0 else 1 + WordPrefix(s[1..])
  }

  /** findall of `\{(\w+)\}`. */
  function ParamNames(path: string): seq<string>
    decreases |path|
  {
    if path == "" then []
    else
      var n := WordPrefix(path[1..]);
      if path[0] == '{' && n > 0 && n + 1 < |path| && path[n + 1] == '}'
      then [path[1..n + 1]] + ParamNames(path[n + 2..])
      else ParamNames(path[1..])
  }

  /** A brace, at least one word character and nothing else, a brace. */
  ghost predicate Group(path: string, i: int, j: int) {
    && 0 <= i && i + 1 < j < |path| && path[i] == '{' && path[j] == '}'
    && forall k :: i < k < j ==>
         'a' <= path[k] <= 'z' || 'A' <= path[k] <= 'Z' || '0' <= path[k] <= '9' || path[k] == '_'
  }

  lemma {:induction false} GroupEndsOnce(path: string, i: int, j: int, k: int)
    requires Group(path, i, j) && Group(path, i, k)
    ensures j == k
  {
  }

  /** The groups of a path from position i on, looking at every position from left to right. */
  ghost function GroupNames(path: string, i: nat): seq<string>
    decreases |path| - i
  {
    if i >= |path| then []
    else if exists j :: Group(path, i, j) then
      var j :| Group(path, i, j);
      [path[i + 1..j]] + GroupNames(path, i + 1)
    else GroupNames(path, i + 1)
  }

  lemma {:induction false} WordPrefixExactly(s: string)
    ensures forall k :: 0 <= k < WordPrefix(s) ==> WordChar(s[k])
    ensures WordPrefix(s) < |s| ==> !WordChar(s[WordPrefix(s)])
  {
    if s != "" && WordChar(s[0]) {
      WordPrefixExactly(s[1..]);
    }
  }

  /** Where the group at the front of s[i..] ends, if there is one. */
  lemma {:induction false} GroupAt(path: string, i: nat, j: int)
    requires i < |path|
    ensures var n := WordPrefix(path[i + 1..]);
      Group(path, i, j) <==>
        path[i] == '{' && n > 0 && i + n + 1 < |path| && path[i + n + 1] == '}' && j == i + n + 1
  {
    var rest := path[i + 1..];
    var n := WordPrefix(rest);
    WordPrefixExactly(rest);
    forall k | i < k <= i + n
      ensures WordChar(path[k])
    {
      assert rest[k - i - 1] == path[k];
    }
    assert n < |rest| ==> rest[n] == path[i + n + 1];
  }

  /** No group starts at the positions passed over. */
  lemma {:induction false} PassOver(path: string, i: nat, j: nat)
    requires i <= j <= |path| && forall k, m :: i <= k < j ==> !Group(path, k, m)
    ensures GroupNames(path, i) == GroupNames(path, j)
    decreases j - i
  {
    if i < j {
      PassOver(path, i + 1, j);
    }
  }

  lemma {:induction false} NoGroupInside(path: string, i: nat, j: nat, k: int, m: int)
    requires Group(path, i, j) && i < k <= j
    ensures !Group(path, k, m)
  {
  }

  lemma {:induction false} GroupNamesAt(path: string, i: nat, j: nat)
    requires Group(path, i, j)
    ensures GroupNames(path, i) == [path[i + 1..j]] + GroupNames(path, j + 1)
  {
    forall k, m | i + 1 <= k < j + 1
      ensures !Group(path, k, m)
    {
      NoGroupInside(path, i, j, k, m);
    }
    PassOver(path, i + 1, j + 1);
    forall k | Group(path, i, k)
      ensures k == j
    {
      GroupEndsOnce(path, i, k, j);
    }
  }

  lemma {:induction false} ParamNamesAt(path: string, i: nat, j: nat)
    requires Group(path, i, j)
    ensures ParamNames(path[i..]) == [path[i + 1..j]] + ParamNames(path[j + 1..])
  {
    GroupAt(path, i, j);
    var s, n := path[i..], j - i - 1;
    assert s[1..] == path[i + 1..] && s[n + 2..] == path[j + 1..] && s[1..n + 1] == path[i + 1..j];
    assert s[0] == path[i] && s[n + 1] == path[j];
  }

  lemma {:induction false} NoGroupHere(path: string, i: nat)
    requires i < |path| && forall j :: !Group(path, i, j)
    ensures ParamNames(path[i..]) == ParamNames(path[i + 1..])
    ensures GroupNames(path, i) == GroupNames(path, i + 1)
  {
    var s, n := path[i..], WordPrefix(path[i + 1..]);
    assert s[1..] == path[i + 1..];
    GroupAt(path, i, i + n + 1);
    assert s[0] == path[i] && (n + 1 < |s| ==> s[n + 1] == path[i + n + 1]);
  }

  /** Both make the same step from i to k. */
  ghost predicate SameStep(path: string, i: nat, k: nat, head: seq<string>)
    requires i < k <= |path|
  {
    && ParamNames(path[i..]) == head + ParamNames(path[k..])
    && GroupNames(path, i) == head + GroupNames(path, k)
  }

  lemma {:induction false} StepOverGroup(path: string, i: nat, j: nat)
    requires Group(path, i, j)
    ensures SameStep(path, i, j + 1, [path[i + 1..j]])
  {
    ParamNamesAt(path, i, j);
    GroupNamesAt(path, i, j);
  }

  lemma {:induction false} StepOverChar(path: string, i: nat)
    requires i < |path| && forall j :: !Group(path, i, j)
    ensures SameStep(path, i, i + 1, [])
  {
    NoGroupHere(path, i);
    assert [] + ParamNames(path[i + 1..]) == ParamNames(path[i + 1..]);
    assert [] + GroupNames(path, i + 1) == GroupNames(path, i + 1);
  }

  /** The next step, which skips a group or one character. */
  lemma {:induction false} NextStep(path: string, i: nat) returns (k: nat, head: seq<string>)
    requires i < |path|
    ensures i < k <= |path| && SameStep(path, i, k, head)
  {
    if j :| Group(path, i, j) {
      k, head := j + 1, [path[i + 1..j]];
      StepOverGroup(path, i, j);
    } else {
      k, head := i + 1, [];
      StepOverChar(path, i);
    }
  }

  lemma {:induction false} NamesFrom(path: string, i: nat)
    requires i <= |path|
    ensures ParamNames(path[i..]) == GroupNames(path, i)
    decreases |path| - i
  {
    if i < |path| {
      var k, head := NextStep(path, i);
      NamesFrom(path, k);
    }
  }

  /** The parameter names of a path are those of its word-only brace groups, from left to right. */
  lemma {:induction false} ParamNamesExactly(path: string)
    ensures ParamNames(path) == GroupNames(path, 0)
  {
    assert path[0..] == path;
    NamesFrom(path, 0);
  }

  function Insert(index: Index, row: Row): Index {
    var item := if row.path in index then index[row.path] else map[];
    var names := ParamNames(row.path);
    var withNames := if names == [] then item else item["parameters" := Parameters(names)];
    index[row.path := withNames[Lower(row.verb) := Endpoint(row.operationId)]]
  }

  function Build(rows: seq<Row>): Index {
    if rows == [] then map[] else Insert(Build(rows[..|rows| - 1]), rows[|rows| - 1])
  }

  method BuildMinimalSpec(operations: seq<Row>) returns (paths: Index)
    ensures paths == Build(operations)
  {
    paths := map[];
    for i := 0 to |operations|
      invariant paths == Build(operations[..i])
    {
      var op := operations[i];
      var item := if op.path in paths then paths[op.path] else map[];
      var names := ParamNames(op.path);
      if names != [] {
        item := item["parameters" := Parameters(names)];
      }
      paths := paths[op.path := item[Lower(op.verb) := Endpoint(op.operationId)]];
      assert operations[..i + 1][..i] == operations[..i];
    }
    assert operations[..|operations|] == operations;
  }

  // ---------- the index is a last-match scan ----------

  ghost predicate At(row: Row, path: string, key: string) {
    row.path == path && Lower(row.verb) == key
  }

  /** The id of the last row for this path and lower-cased method. */
  ghost function LastMatch(rows: seq<Row>, path: string, key: string): Option<string> {
    if rows == [] then None
    else
      var last := rows[|rows| - 1];
      if At(last, path, key) then Some(last.operationId) else LastMatch(rows[..|rows| - 1], path, key)
  }

  /** No method is spelled like the "parameters" key; true of every row a sync can write. */
  ghost predicate NoParametersMethod(rows: seq<Row>) {
    forall row <- rows :: Lower(row.verb) != "parameters"
  }

  ghost function Lookup(index: Index, path: string, key: string): Option<Entry> {
    if path in index && key in index[path] then Some(index[path][key]) else None
  }

  ghost predicate HasPath(rows: seq<Row>, path: string) {
    exists row <- rows :: row.path == path
  }

  /** What the nested dict must hold, stated without building it. */
  ghost function Expected(rows: seq<Row>, path: string, key: string): Option<Entry> {
    if key == "parameters" then
      if HasPath(rows, path) && ParamNames(path) != [] then Some(Parameters(ParamNames(path))) else None
    else
      var m := LastMatch(rows, path, key);
      if m.Some? then Some(Endpoint(m.value)) else None
  }

  lemma {:induction false} IndexIsLastMatch(rows: seq<Row>, path: string, key: string)
    requires NoParametersMethod(rows)
    ensures Lookup(Build(rows), path, key) == Expected(rows, path, key)
    ensures path in Build(rows) <==> HasPath(rows, path)
  {
    if rows != [] {
      var n := |rows| - 1;
      assert rows == rows[..n] + [rows[n]];
      IndexIsLastMatch(rows[..n], path, key);
    }
  }

  lemma LookupDetermines(x: Index, y: Index)
    requires x.Keys == y.Keys
    requires forall path, key :: Lookup(x, path, key) == Lookup(y, path, key)
    ensures x == y
  {
    forall path | path in x
      ensures x[path] == y[path]
    {
      assert forall key :: Lookup(x, path, key) == Lookup(y, path, key);
      assert forall key :: key in x[path] <==> Lookup(x, path, key).Some?;
      assert forall key :: key in y[path] <==> Lookup(y, path, key).Some?;
      assert forall key <- x[path] :: Lookup(x, path, key).value == x[path][key];
      assert forall key <- x[path] :: Lookup(y, path, key).value == y[path][key];
    }
  }

  lemma {:induction false} SameScanSameIndex(a: seq<Row>, b: seq<Row>)
    requires NoParametersMethod(a) && NoParametersMethod(b)
    requires forall path :: HasPath(a, path) <==> HasPath(b, path)
    requires forall path, key :: LastMatch(a, path, key) == LastMatch(b, path, key)
    ensures Build(a) == Build(b)
  {
    var x, y := Build(a), Build(b);
    forall path
      ensures path in x <==> path in y
    {
      IndexIsLastMatch(a, path, "get");
      IndexIsLastMatch(b, path, "get");
      assert HasPath(a, path) <==> HasPath(b, path);
    }
    forall path, key
      ensures Lookup(x, path, key) == Lookup(y, path, key)
    {
      IndexIsLastMatch(a, path, key);
      IndexIsLastMatch(b, path, key);
      assert HasPath(a, path) <==> HasPath(b, path);
    }
    LookupDetermines(x, y);
  }

  /** At most one id per path and lower-cased method. */
  ghost predicate Unambiguous(rows: seq<Row>) {
    forall r, s :: r in rows && s in rows && At(r, s.path, Lower(s.verb)) ==> r.operationId == s.operationId
  }

  lemma {:induction false} LastMatchIsMember(rows: seq<Row>, path: string, key: string)
    ensures var m := LastMatch(rows, path, key);
      && (m.Some? ==> exists row <- rows :: At(row, path, key) && row.operationId == m.value)
      && (m.None? ==> forall row <- rows :: !At(row, path, key))
  {
    if rows != [] {
      var n := |rows| - 1;
      assert rows == rows[..n] + [rows[n]];
      LastMatchIsMember(rows[..n], path, key);
    }
  }

  lemma SameElements(a: seq<Row>, b: seq<Row>)
    requires multiset(a) == multiset(b)
    ensures forall row :: row in a <==> row in b
  {
    forall row
      ensures row in a <==> row in b
    {
      assert row in a <==> row in multiset(a);
      assert row in b <==> row in multiset(b);
    }
  }

  lemma {:induction false} PermutationKeepsIndex(a: seq<Row>, b: seq<Row>)
    requires NoParametersMethod(a) && Unambiguous(a) && multiset(a) == multiset(b)
    ensures Build(a) == Build(b)
  {
    SameElements(a, b);
    forall path, key
      ensures LastMatch(a, path, key) == LastMatch(b, path, key)
    {
      LastMatchIsMember(a, path, key);
      LastMatchIsMember(b, path, key);
    }
    SameScanSameIndex(a, b);
  }

  /** The listing with one of its rows moved to the end. */
  ghost function MovedLast(rows: seq<Row>, i: nat): seq<Row>
    requires i < |rows|
  {
    rows[..i] + rows[i + 1..] + [rows[i]]
  }

  lemma MovedLastIndex(rows: seq<Row>, i: nat)
    requires i < |rows| && NoParametersMethod(rows)
    ensures multiset(MovedLast(rows, i)) == multiset(rows)
    ensures Lookup(Build(MovedLast(rows, i)), rows[i].path, Lower(rows[i].verb)) == Some(Endpoint(rows[i].operationId))
  {
    assert rows == rows[..i] + [rows[i]] + rows[i + 1..];
    SameElements(MovedLast(rows, i), rows);
    IndexIsLastMatch(MovedLast(rows, i), rows[i].path, Lower(rows[i].verb));
  }

  /** The index ignores the order of the listing exactly when the listing is unambiguous. */
  lemma {:induction false} OrderIrrelevantIff(rows: seq<Row>)
    requires NoParametersMethod(rows)
    ensures (forall other :: multiset(other) == multiset(rows) ==> Build(other) == Build(rows)) <==> Unambiguous(rows)
  {
    if Unambiguous(rows) {
      forall other | multiset(other) == multiset(rows)
        ensures Build(other) == Build(rows)
      {
        PermutationKeepsIndex(rows, other);
      }
    } else {
      var r, s :| r in rows && s in rows && At(r, s.path, Lower(s.verb)) && r.operationId != s.operationId;
      var i :| 0 <= i < |rows| && rows[i] == r;
      var j :| 0 <= j < |rows| && rows[j] == s;
      MovedLastIndex(rows, i);
      MovedLastIndex(rows, j);
      assert Build(MovedLast(rows, i)) != Build(MovedLast(rows, j));
    }
  }

  // ---------- operations_cache_key ----------

  predicate StringLeq(a: string, b: string) {
    a == "" || (b != "" && (a[0] < b[0] || (a[0] == b[0] && StringLeq(a[1..], b[1..]))))
  }

  lemma {:induction false} StringLeqTotal(a: string, b: string)
    ensures StringLeq(a, b) || StringLeq(b, a)
    ensures StringLeq(a, b) && StringLeq(b, a) ==> a == b
  {
    if a != "" && b != "" && a[0] == b[0] {
      StringLeqTotal(a[1..], b[1..]);
      assert a == [a[0]] + a[1..] && b == [b[0]] + b[1..];
    }
  }

  lemma {:induction false} StringLeqTransitive(a: string, b: string, c: string)
    requires StringLeq(a, b) && StringLeq(b, c)
    ensures StringLeq(a, c)
  {
    if a != "" && a[0] == b[0] && b[0] == c[0] {
      StringLeqTransitive(a[1..], b[1..], c[1..]);
    }
  }

  /** Python's order on the tuples (operation_id, method, path). */
  predicate RowLeq(a: Row, b: Row) {
    if a.operationId != b.operationId then StringLeq(a.operationId, b.operationId)
    else if a.verb != b.verb then StringLeq(a.verb, b.verb)
    else StringLeq(a.path, b.path)
  }

  lemma RowLeqTotal(a: Row, b: Row)
    ensures RowLeq(a, b) || RowLeq(b, a)
    ensures RowLeq(a, b) && RowLeq(b, a) ==> a == b
  {
    StringLeqTotal(a.operationId, b.operationId);
    StringLeqTotal(a.verb, b.verb);
    StringLeqTotal(a.path, b.path);
  }

  lemma {:induction false} StringLessTransitive(a: string, b: string, c: string)
    requires StringLeq(a, b) && StringLeq(b, c) && (a != b || b != c)
    ensures StringLeq(a, c) && a != c
  {
    StringLeqTransitive(a, b, c);
    StringLeqTotal(a, b);
    StringLeqTotal(b, c);
  }

  lemma RowLeqTransitive(a: Row, b: Row, c: Row)
    requires RowLeq(a, b) && RowLeq(b, c)
    ensures RowLeq(a, c)
  {
    if a.operationId != b.operationId && b.operationId != c.operationId {
      StringLessTransitive(a.operationId, b.operationId, c.operationId);
    } else if a.operationId == b.operationId == c.operationId {
      if a.verb != b.verb && b.verb != c.verb {
        StringLessTransitive(a.verb, b.verb, c.verb);
      } else if a.verb == b.verb == c.verb {
        StringLeqTransitive(a.path, b.path, c.path);
      }
    }
  }

  predicate Sorted(rows: seq<Row>) {
    forall i, j :: 0 <= i < j < |rows| ==> RowLeq(rows[i], rows[j])
  }

  function InsertSorted(row: Row, rows: seq<Row>): seq<Row> {
    if rows == [] || RowLeq(row, rows[0]) then [row] + rows
    else [rows[0]] + InsertSorted(row, rows[1..])
  }

  lemma {:induction false} InsertSortedElements(row: Row, rows: seq<Row>)
    ensures multiset(InsertSorted(row, rows)) == multiset{row} + multiset(rows)
  {
    if rows != [] {
      assert rows == [rows[0]] + rows[1..];
      InsertSortedElements(row, rows[1..]);
    }
  }

  lemma SortedCons(row: Row, rows: seq<Row>)
    requires Sorted(rows) && forall x <- rows :: RowLeq(row, x)
    ensures Sorted([row] + rows)
  {
  }

  lemma {:induction false} InsertSortedSorted(row: Row, rows: seq<Row>)
    requires Sorted(rows)
    ensures Sorted(InsertSorted(row, rows))
  {
    if rows == [] {
    } else if RowLeq(row, rows[0]) {
      forall x | x in rows
        ensures RowLeq(row, x)
      {
        RowLeqTotal(x, x);
        RowLeqTransitive(row, rows[0], x);
      }
      SortedCons(row, rows);
    } else {
      RowLeqTotal(row, rows[0]);
      var rest := InsertSorted(row, rows[1..]);
      InsertSortedSorted(row, rows[1..]);
      InsertSortedElements(row, rows[1..]);
      forall x | x in rest
        ensures RowLeq(rows[0], x)
      {
        assert x in multiset(rest);
      }
      SortedCons(rows[0], rest);
    }
  }

  /** sorted(...) of the fingerprint. */
  function Fingerprint(rows: seq<Row>): seq<Row> {
    if rows == [] then [] else InsertSorted(rows[0], Fingerprint(rows[1..]))
  }

  lemma {:induction false} FingerprintSorts(rows: seq<Row>)
    ensures Sorted(Fingerprint(rows)) && multiset(Fingerprint(rows)) == multiset(rows)
  {
    if rows != [] {
      assert rows == [rows[0]] + rows[1..];
      FingerprintSorts(rows[1..]);
      InsertSortedSorted(rows[0], Fingerprint(rows[1..]));
      InsertSortedElements(rows[0], Fingerprint(rows[1..]));
    }
  }

  lemma SameLeast(a: seq<Row>, b: seq<Row>)
    requires Sorted(a) && Sorted(b) && multiset(a) == multiset(b) && a != [] && b != []
    ensures a[0] == b[0]
  {
    SameElements(a, b);
    assert a[0] in b && b[0] in a;
    RowLeqTotal(a[0], a[0]);
    RowLeqTotal(a[0], b[0]);
  }

  lemma {:induction false} SortedIsUnique(a: seq<Row>, b: seq<Row>)
    requires Sorted(a) && Sorted(b) && multiset(a) == multiset(b)
    ensures a == b
  {
    assert |a| == |multiset(a)| == |multiset(b)| == |b|;
    if a != [] {
      SameLeast(a, b);
      assert a == [a[0]] + a[1..] && b == [a[0]] + b[1..];
      assert multiset(a[1..]) == multiset(a) - multiset{a[0]};
      assert multiset(b[1..]) == multiset(b) - multiset{a[0]};
      SortedIsUnique(a[1..], b[1..]);
    }
  }

  /** Two listings have the same cache key exactly when one is a permutation of the other. */
  lemma {:induction false} FingerprintIffPermutation(a: seq<Row>, b: seq<Row>)
    ensures Fingerprint(a) == Fingerprint(b) <==> multiset(a) == multiset(b)
  {
    FingerprintSorts(a);
    FingerprintSorts(b);
    if multiset(a) == multiset(b) {
      SortedIsUnique(Fingerprint(a), Fingerprint(b));
    }
  }

  // ---------- _CachedOperationMatcher ----------

  /** `_key` and `_matcher`; a matcher is represented by the index it was built from. */
  datatype Slot = Slot(key: Option<seq<Row>>, matcher: Option<Index>)

  const EMPTY_SLOT := Slot(None, None)

  function Refilled(slot: Slot, rows: seq<Row>): Slot {
    if slot.key != Some(Fingerprint(rows)) || slot.matcher.None?
    then Slot(Some(Fingerprint(rows)), Some(Build(rows)))
    else slot
  }

  /** The slot holds the index of some listing with the stored key. */
  ghost predicate SlotOk(slot: Slot) {
    slot.matcher.Some? ==>
      exists built :: slot.key == Some(Fingerprint(built)) && slot.matcher.value == Build(built)
  }

  lemma RefilledServesPermutation(slot: Slot, rows: seq<Row>)
    requires SlotOk(slot)
    ensures SlotOk(Refilled(slot, rows)) && Refilled(slot, rows).matcher.Some?
    ensures exists built :: multiset(built) == multiset(rows) && Refilled(slot, rows).matcher.value == Build(built)
  {
    if Refilled(slot, rows) == slot {
      var built :| slot.key == Some(Fingerprint(built)) && slot.matcher.value == Build(built);
      FingerprintIffPermutation(built, rows);
    }
  }

  class CachedOperationMatcher {
    var key: Option<seq<Row>>
    var matcher: Option<Index>

    ghost function View(): Slot
      reads this
    {
      Slot(key, matcher)
    }

    constructor ()
      ensures View() == EMPTY_SLOT
    {
      key, matcher := None, None;
    }

    method Get(operations: seq<Row>) returns (index: Index)
      modifies this
      ensures View() == Refilled(old(View()), operations)
      ensures matcher == Some(index)
    {
      var fingerprint := Fingerprint(operations);
      if key != Some(fingerprint) || matcher.None? {
        var built := BuildMinimalSpec(operations);
        matcher := Some(built);
        key := Some(fingerprint);
      }
      index := matcher.value;
    }

    method Clear()
      modifies this
      ensures View() == EMPTY_SLOT
    {
      key, matcher := None, None;
    }
  }

  datatype CacheCall = Get(rows: seq<Row>) | Clear

  function SlotAfter(calls: seq<CacheCall>): Slot {
    if calls == [] then EMPTY_SLOT
    else
      match calls[|calls| - 1]
      case Get(rows) => Refilled(SlotAfter(calls[..|calls| - 1]), rows)
      case Clear => EMPTY_SLOT
  }

  lemma {:induction false} SlotAfterOk(calls: seq<CacheCall>)
    ensures SlotOk(SlotAfter(calls))
  {
    if calls != [] {
      SlotAfterOk(calls[..|calls| - 1]);
      if calls[|calls| - 1].Get? {
        RefilledServesPermutation(SlotAfter(calls[..|calls| - 1]), calls[|calls| - 1].rows);
      }
    }
  }

  /** The index `get` serves for `rows` after any earlier calls. */
  ghost function Served(calls: seq<CacheCall>, rows: seq<Row>): Index {
    SlotAfterOk(calls);
    RefilledServesPermutation(SlotAfter(calls), rows);
    Refilled(SlotAfter(calls), rows).matcher.value
  }

  lemma ServedIsPermutation(calls: seq<CacheCall>, rows: seq<Row>)
    ensures exists built :: multiset(built) == multiset(rows) && Served(calls, rows) == Build(built)
  {
    SlotAfterOk(calls);
    RefilledServesPermutation(SlotAfter(calls), rows);
  }

  lemma {:induction false} ServedAfterOther(other: seq<Row>, rows: seq<Row>)
    requires multiset(other) == multiset(rows)
    ensures Served([Get(other)], rows) == Build(other)
  {
    FingerprintIffPermutation(other, rows);
    assert [Get(other)][..0] == [];
    assert SlotAfter([Get(other)]) == Refilled(EMPTY_SLOT, other);
  }

  /** Cache agreement: whatever was asked before, `get` serves a fresh build - exactly when the
      listing is unambiguous. */
  lemma {:induction false} CacheAgreesIff(rows: seq<Row>)
    requires NoParametersMethod(rows)
    ensures (forall calls :: Served(calls, rows) == Build(rows)) <==> Unambiguous(rows)
  {
    OrderIrrelevantIff(rows);
    if Unambiguous(rows) {
      forall calls
        ensures Served(calls, rows) == Build(rows)
      {
        ServedIsPermutation(calls, rows);
      }
    } else {
      var other :| multiset(other) == multiset(rows) && Build(other) != Build(rows);
      ServedAfterOther(other, rows);
    }
  }

  /** The rows of an operation that a document renamed, as a SELECT may list them. */
  const RENAMED_ROWS: seq<Row> := [Row("GET /a x", "GET", "/a"), Row("GET /a y", "GET", "/a")]

  lemma {:induction false} TwoRowIndex(first: Row, last: Row)
    requires first.path == last.path && Lower(first.verb) == Lower(last.verb) != "parameters"
    ensures Lookup(Build([first, last]), last.path, Lower(last.verb)) == Some(Endpoint(last.operationId))
  {
    IndexIsLastMatch([first, last], last.path, Lower(last.verb));
  }

  /** After a request that saw them in the other order, the cache routes GET /a to x, a fresh build to y. */
  lemma {:induction false} CacheCanDisagree()
    ensures var other := [RENAMED_ROWS[1], RENAMED_ROWS[0]];
      && Lookup(Served([Get(other)], RENAMED_ROWS), "/a", "get") == Some(Endpoint("GET /a x"))
      && Lookup(Build(RENAMED_ROWS), "/a", "get") == Some(Endpoint("GET /a y"))
  {
    var x, y := RENAMED_ROWS[0], RENAMED_ROWS[1];
    assert Lower("GET") == "get" && |"get"| != |"parameters"|;
    TwoRowIndex(x, y);
    TwoRowIndex(y, x);
    assert RENAMED_ROWS == [x, y];
    assert multiset([y, x]) == multiset([x, y]);
    ServedAfterOther([y, x], [x, y]);
  }

  // ---------- OperationMatcher.match ----------

  /** openapi-core's path finder: which stored operation a method and path select, if any. */
  type Finder = (Index, string, string) -> Option<string>

  ghost predicate Stored(index: Index, operationId: string) {
    exists path, key :: Lookup(index, path, key) == Some(Endpoint(operationId))
  }

  /** All that is assumed of the finder: it only returns operationIds found in the index. */
  ghost predicate FinderOk(finder: Finder) {
    forall index, verb, path :: finder(index, verb, path).Some? ==> Stored(index, finder(index, verb, path).value)
  }

  function Match(finder: Finder, index: Index, verb: string, path: string): Option<string> {
    finder(index, Lower(verb), path)
  }

  lemma {:induction false} StoredIsListed(rows: seq<Row>, operationId: string)
    requires Stored(Build(rows), operationId)
    ensures exists row <- rows :: row.operationId == operationId
  {
    var path, key :| Lookup(Build(rows), path, key) == Some(Endpoint(operationId));
    var n := |rows| - 1;
    assert rows == rows[..n] + [rows[n]];
    if rows[n].operationId != operationId {
      assert Lookup(Build(rows[..n]), path, key) == Some(Endpoint(operationId));
      StoredIsListed(rows[..n], operationId);
    }
  }

  /** A match through the cache always names an operation of the current listing, in any order and
      with any earlier cache contents. */
  lemma MatchIsListed(finder: Finder, slot: Slot, rows: seq<Row>, verb: string, path: string)
    requires FinderOk(finder) && SlotOk(slot)
    ensures Refilled(slot, rows).matcher.Some?
    ensures var m := Match(finder, Refilled(slot, rows).matcher.value, verb, path);
      m.Some? ==> exists row <- rows :: row.operationId == m.value
  {
    RefilledServesPermutation(slot, rows);
    var built :| multiset(built) == multiset(rows) && Refilled(slot, rows).matcher.value == Build(built);
    SameElements(built, rows);
    var m := Match(finder, Build(built), verb, path);
    if m.Some? {
      StoredIsListed(built, m.value);
    }
  }
}
