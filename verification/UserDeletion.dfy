/** `DeleteUser` of the three database drivers: collect what belongs to a user, on MySQL breadth
    first and in batches, delete it table by table inside a transaction, and commit. */
module UserDeletion {
  import opened Results
  import opened UserTables
  import Sql = FilterSql

  const BATCH_SIZE := 500

  datatype MemoRef = MemoRef(id: int, uid: string)

  datatype DeleteUserResult = DeleteUserResult(attachments: seq<int>, settingKeys: seq<string>)

  ghost predicate Distinct<T>(s: seq<T>) {
    forall i, j :: 0 <= i < j < |s| ==> s[i] != s[j]
  }

  function Set<T>(s: seq<T>): set<T> {
    set x | x in s
  }

  function Ids(refs: seq<MemoRef>): (ids: seq<int>)
    ensures |ids| == |refs|
  {
    seq(|refs|, i requires 0 <= i < |refs| => refs[i].id)
  }

  lemma IdsAppend(refs: seq<MemoRef>, r: MemoRef)
    ensures Ids(refs + [r]) == Ids(refs) + [r.id]
    ensures Set(Ids(refs + [r])) == Set(Ids(refs)) + {r.id}
  {
  }

  /** Every reference names a memo of the table by its own uid. */
  ghost predicate RefsOf(t: Tables, refs: seq<MemoRef>) {
    forall r :: r in refs ==> r.id in t.memos && r.uid == t.memos[r.id].uid
  }

  // Batches.

  function Concat<T>(batches: seq<seq<T>>): seq<T> {
    if |batches| == 0 then [] else Concat(batches[..|batches| - 1]) + batches[|batches| - 1]
  }

  lemma ConcatTakesOneMore<T>(batches: seq<seq<T>>, k: nat)
    requires k < |batches|
    ensures Concat(batches[..k + 1]) == Concat(batches[..k]) + batches[k]
  {
    assert batches[..k + 1][..k] == batches[..k];
  }

  lemma SetOfConcat<T>(a: seq<T>, b: seq<T>)
    ensures Set(a + b) == Set(a) + Set(b)
  {
  }

  method Batches<T>(values: seq<T>, size: int) returns (batches: seq<seq<T>>)
    ensures Concat(batches) == values
    ensures forall b :: b in batches ==> |b| > 0 && (size > 0 ==> |b| <= size)
  {
    if |values| == 0 {
      return [];
    }
    var step := if size <= 0 then |values| else size;
    batches := [];
    var start := 0;
    while start < |values|
      invariant start >= 0 && Concat(batches) == values[..if start <= |values| then start else |values|]
      invariant forall b :: b in batches ==> |b| > 0 && (size > 0 ==> |b| <= size)
      decreases |values| - start
    {
      var end := if start + step > |values| then |values| else start + step;
      assert (batches + [values[start..end]])[..|batches|] == batches;
      batches := batches + [values[start..end]];
      start := start + step;
    }
  }

  // Placeholders.

  /** The place in the argument vector that a placeholder takes its value from, when it is the
      i-th of its statement. */
  function Position(mark: Sql.Mark, i: nat): int {
    if mark.Dollar? then mark.k - 1 else i
  }

  /** The values a driver binds to the placeholders of a clause, `first` others standing before it. */
  function Bound<T>(marks: seq<Sql.Mark>, first: nat, args: seq<T>): seq<T>
    requires forall i :: 0 <= i < |marks| ==> 0 <= Position(marks[i], first + i) < |args|
  {
    seq(|marks|, i requires 0 <= i < |marks| => args[Position(marks[i], first + i)])
  }

  method InClause<T>(d: Sql.Dialect, start: nat, values: seq<T>) returns (marks: seq<Sql.Mark>, args: seq<T>)
    requires start > 0
    ensures args == values && |marks| == |values|
    ensures forall i :: 0 <= i < |marks| ==> marks[i] == if d == Sql.Postgres then Sql.Dollar(start + i) else Sql.Question
  {
    marks, args := [], [];
    for i := 0 to |values|
      invariant args == values[..i] && |marks| == i
      invariant forall k :: 0 <= k < i ==> marks[k] == if d == Sql.Postgres then Sql.Dollar(start + k) else Sql.Question
    {
      marks := marks + [if d == Sql.Postgres then Sql.Dollar(start + i) else Sql.Question];
      args := args + [values[i]];
    }
  }

  // Queries. Rows come in any order, and a join repeats a row for every match.

  /** `SELECT id, uid FROM memo WHERE creator_id = ?` */
  method QueryRoots(t: Tables, user: int) returns (rows: seq<MemoRef>)
    ensures RefsOf(t, rows) && Set(Ids(rows)) == Roots(t, user)
  {
    rows := [];
    var left := t.memos.Items;
    while left != {}
      invariant left <= t.memos.Items && RefsOf(t, rows)
      invariant Set(Ids(rows)) == set id | id in t.memos && t.memos[id].creator == user && (id, t.memos[id]) !in left
      decreases left
    {
      var row :| row in left;
      left := left - {row};
      if row.1.creator == user {
        IdsAppend(rows, MemoRef(row.0, row.1.uid));
        rows := rows + [MemoRef(row.0, row.1.uid)];
      }
    }
  }

  /** The comments on a batch of memos, by a join of the memo and relation tables. */
  method QueryChildren(t: Tables, batch: seq<int>) returns (rows: seq<MemoRef>)
    ensures RefsOf(t, rows) && Set(Ids(rows)) == Children(t, Set(batch))
  {
    rows := [];
    var left := t.relations;
    while left != {}
      invariant left <= t.relations && RefsOf(t, rows)
      invariant Set(Ids(rows)) == Children(t.(relations := t.relations - left), Set(batch))
      decreases left
    {
      var r :| r in left;
      ghost var before := t.(relations := t.relations - left);
      left := left - {r};
      ChildrenOfOneMore(t, before.relations, r, Set(batch));
      assert t.relations - left == before.relations + {r};
      if r.kind == Comment && r.related in batch && r.memo in t.memos {
        IdsAppend(rows, MemoRef(r.memo, t.memos[r.memo].uid));
        rows := rows + [MemoRef(r.memo, t.memos[r.memo].uid)];
      }
    }
    assert t.(relations := t.relations - left) == t;
  }

  lemma ChildrenOfOneMore(t: Tables, some: set<Relation>, r: Relation, parents: set<int>)
    ensures Children(t.(relations := some + {r}), parents) ==
            Children(t.(relations := some), parents) +
            if r.kind == Comment && r.related in parents && r.memo in t.memos then {r.memo} else {}
  {
  }

  /** `SELECT id FROM table WHERE p`. */
  method SelectIds<V(==)>(table: map<int, V>, p: V -> bool) returns (ids: seq<int>)
    ensures Distinct(ids) && forall id :: id in ids <==> id in table && p(table[id])
  {
    ids := [];
    var left := table.Items;
    while left != {}
      invariant left <= table.Items && Distinct(ids)
      invariant forall id :: id in ids <==> id in table && (id, table[id]) !in left && p(table[id])
      decreases left
    {
      var row :| row in left;
      left := left - {row};
      if p(row.1) {
        ids := ids + [row.0];
      }
    }
  }

  // Collecting.

  /** Adds the rows not seen before to the memos and to the next frontier. */
  method Absorb(ghost t: Tables, rows: seq<MemoRef>, memos: seq<MemoRef>, seen: set<int>, frontier: seq<int>)
      returns (memos': seq<MemoRef>, seen': set<int>, frontier': seq<int>)
    requires RefsOf(t, rows) && RefsOf(t, memos) && Distinct(Ids(memos)) && Set(Ids(memos)) == seen
    ensures RefsOf(t, memos') && Distinct(Ids(memos')) && Set(Ids(memos')) == seen'
    ensures seen' == seen + Set(Ids(rows))
    ensures Set(frontier') == Set(frontier) + (Set(Ids(rows)) - seen)
  {
    memos', seen', frontier' := memos, seen, frontier;
    for i := 0 to |rows|
      invariant RefsOf(t, memos') && Distinct(Ids(memos')) && Set(Ids(memos')) == seen'
      invariant seen' == seen + Set(Ids(rows[..i]))
      invariant Set(frontier') == Set(frontier) + (Set(Ids(rows[..i])) - seen)
    {
      var row := rows[i];
      assert rows[..i + 1] == rows[..i] + [row];
      IdsAppend(rows[..i], row);
      if row.id in seen' {
        continue;
      }
      IdsAppend(memos', row);
      seen' := seen' + {row.id};
      memos' := memos' + [row];
      SetOfConcat(frontier', [row.id]);
      frontier' := frontier' + [row.id];
    }
    assert rows[..|rows|] == rows;
  }

  /** What the breadth-first search keeps: everything seen belongs to the tree, and only memos of
      the frontier can have unseen comments. */
  ghost predicate Exploring(t: Tables, user: int, seen: set<int>, frontier: set<int>) {
    && Roots(t, user) <= seen <= MemoTree(t, user)
    && frontier <= seen && Children(t, seen - frontier) <= seen
  }

  lemma ExploredIsTree(t: Tables, user: int, seen: set<int>)
    requires Exploring(t, user, seen, {})
    ensures seen == MemoTree(t, user)
  {
    MemoTreeIsLeastFixpoint(t, user);
    assert seen - {} == seen;
  }

  lemma ExploreLevel(t: Tables, user: int, seen: set<int>, frontier: set<int>, found: set<int>)
    requires Exploring(t, user, seen, frontier) && found == Children(t, frontier)
    ensures Exploring(t, user, seen + found, found - seen)
  {
    MemoTreeIsLeastFixpoint(t, user);
    assert found <= Children(t, MemoTree(t, user));
    assert (seen + found) - (found - seen) == seen;
    forall m | m in Children(t, seen) ensures m in seen + found {
      var r :| r in t.relations && r.kind == Comment && r.related in seen && r.memo == m;
      if r.related !in frontier {
        assert m in Children(t, seen - frontier);
      }
    }
  }

  /** The comments on the frontier's memos, batch by batch; those not seen before are the next frontier. */
  method NextFrontier(t: Tables, frontier: seq<int>, batchSize: int, memos: seq<MemoRef>, seen: set<int>)
      returns (memos': seq<MemoRef>, seen': set<int>, frontier': seq<int>)
    requires RefsOf(t, memos) && Distinct(Ids(memos)) && Set(Ids(memos)) == seen
    ensures RefsOf(t, memos') && Distinct(Ids(memos')) && Set(Ids(memos')) == seen'
    ensures seen' == seen + Children(t, Set(frontier)) && Set(frontier') == seen' - seen
  {
    hide Children, Ids, Distinct, RefsOf;
    memos', seen', frontier' := memos, seen, [];
    var batches := Batches(frontier, batchSize);
    NoChildrenOfNothing(t);
    assert Set(Concat(batches[..0])) == {};
    for i := 0 to |batches|
      invariant RefsOf(t, memos') && Distinct(Ids(memos')) && Set(Ids(memos')) == seen'
      invariant seen' == seen + Children(t, Set(Concat(batches[..i]))) && Set(frontier') == seen' - seen
    {
      var children := QueryChildren(t, batches[i]);
      memos', seen', frontier' := Absorb(t, children, memos', seen', frontier');
      ConcatTakesOneMore(batches, i);
      SetOfConcat(Concat(batches[..i]), batches[i]);
      ChildrenOfUnion(t, Set(Concat(batches[..i])), Set(batches[i]));
    }
    assert batches[..|batches|] == batches;
  }

  /** The frontier loop ends on every memo graph, cycles included, and returns each memo of the
      tree once, whatever the batch size. */
  method ListMemoTreeIterative(t: Tables, user: int, batchSize: int) returns (memos: seq<MemoRef>)
    ensures RefsOf(t, memos) && Distinct(Ids(memos))
    ensures Set(Ids(memos)) == MemoTree(t, user)
  {
    hide MemoTree, Children, Roots;
    MemoTreeIsLeastFixpoint(t, user);
    var roots := QueryRoots(t, user);
    var seen, frontier: seq<int> := {}, [];
    memos := [];
    memos, seen, frontier := Absorb(t, roots, memos, seen, frontier);
    assert Exploring(t, user, seen, Set(frontier)) by {
      assert Set(frontier) == seen;
      NoChildrenOfNothing(t);
      assert seen - Set(frontier) == {};
    }
    while |frontier| > 0
      invariant RefsOf(t, memos) && Distinct(Ids(memos)) && Set(Ids(memos)) == seen
      invariant Exploring(t, user, seen, Set(frontier))
      decreases t.memos.Keys - seen, |frontier|
    {
      ghost var before, children := seen, Children(t, Set(frontier));
      ExploreLevel(t, user, seen, Set(frontier), children);
      memos, seen, frontier := NextFrontier(t, frontier, batchSize, memos, seen);
      assert seen - before == children - before;
      FrontierShrinks(t, before, seen, frontier);
    }
    assert Set(frontier) == {};
    ExploredIsTree(t, user, seen);
  }

  lemma FrontierShrinks(t: Tables, before: set<int>, seen: set<int>, frontier: seq<int>)
    requires before <= seen <= t.memos.Keys && Set(frontier) == seen - before
    ensures t.memos.Keys - seen < t.memos.Keys - before || (seen == before && |frontier| == 0)
  {
    if |frontier| > 0 {
      assert frontier[0] in Set(frontier);
    }
  }

  lemma NoChildrenOfNothing(t: Tables)
    ensures Children(t, {}) == {}
  {
  }

  lemma ChildrenOfUnion(t: Tables, a: set<int>, b: set<int>)
    ensures Children(t, a + b) == Children(t, a) + Children(t, b)
  {
  }

  /** The answer of the `WITH RECURSIVE` query: the rows of the memo tree. */
  method ListMemoTreeRecursive(t: Tables, user: int) returns (memos: seq<MemoRef>)
    ensures RefsOf(t, memos) && Distinct(Ids(memos))
    ensures Set(Ids(memos)) == MemoTree(t, user)
  {
    hide MemoTree;
    MemoTreeIsLeastFixpoint(t, user);
    memos := [];
    var left := t.memos.Items;
    while left != {}
      invariant left <= t.memos.Items && RefsOf(t, memos) && Distinct(Ids(memos))
      invariant Set(Ids(memos)) == set id | id in MemoTree(t, user) && (id, t.memos[id]) !in left
      decreases left
    {
      var row :| row in left;
      left := left - {row};
      if row.0 in MemoTree(t, user) {
        assert row.0 !in Set(Ids(memos));
        IdsAppend(memos, MemoRef(row.0, row.1.uid));
        memos := memos + [MemoRef(row.0, row.1.uid)];
      }
    }
  }

  /** An attachment to be deleted whose payload does not parse. */
  ghost predicate BadAttachment(t: Tables, users: set<int>, memos: set<int>, id: int) {
    id in t.attachments && AttachmentRefers(t.attachments[id], users, memos) && t.attachments[id].payload.MalformedPayload?
  }

  /** The rows are appended once each, up to the first new one whose payload does not parse. */
  method AppendAttachments(t: Tables, rows: seq<int>, seen: set<int>, attachments: seq<int>)
      returns (r: Result<seq<int>>, seen': set<int>)
    requires Distinct(attachments) && seen == Set(attachments) && forall id :: id in rows ==> id in t.attachments
    ensures r.Err? ==> exists id :: id in rows && t.attachments[id].payload.MalformedPayload?
    ensures r.Ok? ==> Distinct(r.value) && seen' == Set(r.value)
    ensures r.Ok? ==> forall id :: id in r.value <==> id in attachments || id in rows
    ensures r.Ok? ==> forall id :: id in rows && id !in attachments ==> !t.attachments[id].payload.MalformedPayload?
  {
    seen' := seen;
    var all := attachments;
    for j := 0 to |rows|
      invariant Distinct(all) && seen' == Set(all)
      invariant forall id :: id in all <==> id in attachments || id in rows[..j]
      invariant forall id :: id in rows[..j] && id !in attachments ==> !t.attachments[id].payload.MalformedPayload?
    {
      var id := rows[j];
      assert id in rows;
      if id in seen' {
        continue;
      }
      seen' := seen' + {id};
      if t.attachments[id].payload.MalformedPayload? {
        return Err("failed to unmarshal attachment payload"), seen';
      }
      all := all + [id];
    }
    return Ok(all), seen';
  }

  lemma AttachmentsOfOneMore(t: Tables, user: int, memos: set<int>, batch: seq<int>, before: seq<int>, more: seq<int>)
    requires forall id :: id in before <==> id in t.attachments && AttachmentRefers(t.attachments[id], {user}, memos)
    requires forall id :: id in more <==>
                          id in t.attachments && t.attachments[id].memo.Some? && t.attachments[id].memo.value in batch
    ensures forall id :: id in before || id in more <==>
                         id in t.attachments && AttachmentRefers(t.attachments[id], {user}, memos + Set(batch))
    ensures forall id :: BadAttachment(t, {user}, memos + Set(batch), id) ==>
                         BadAttachment(t, {user}, memos, id)
                         || (id in more && id !in before && t.attachments[id].payload.MalformedPayload?)
  {
  }

  /** The attachments of the user or of a deleted memo, once each; an error exactly when the
      payload of one of them does not parse. */
  method ListAttachments(t: Tables, user: int, memoIds: seq<int>) returns (r: Result<seq<int>>)
    ensures r.Err? <==> exists id :: BadAttachment(t, {user}, Set(memoIds), id)
    ensures r.Ok? ==> Distinct(r.value)
    ensures r.Ok? ==> forall id :: id in r.value <==>
                                   id in t.attachments && AttachmentRefers(t.attachments[id], {user}, Set(memoIds))
  {
    hide Distinct;
    NothingTwice<int>();
    var rows := SelectIds(t.attachments, (a: Attachment) => a.creator == user);
    var attachments, seen := AppendAttachments(t, rows, {}, []);
    if attachments.Err? {
      ghost var id :| id in rows && t.attachments[id].payload.MalformedPayload?;
      assert BadAttachment(t, {user}, Set(memoIds), id);
      return attachments;
    }
    var batches := Batches(memoIds, BATCH_SIZE);
    for i := 0 to |batches|
      invariant attachments.Ok? && Distinct(attachments.value) && seen == Set(attachments.value)
      invariant forall id :: id in attachments.value <==>
                  id in t.attachments && AttachmentRefers(t.attachments[id], {user}, Set(Concat(batches[..i])))
      invariant forall id :: !BadAttachment(t, {user}, Set(Concat(batches[..i])), id)
    {
      var batch := batches[i];
      var more := SelectIds(t.attachments, (a: Attachment) => a.memo.Some? && a.memo.value in batch);
      AttachmentsOfOneMore(t, user, Set(Concat(batches[..i])), batch, attachments.value, more);
      attachments, seen := AppendAttachments(t, more, seen, attachments.value);
      ConcatTakesOneMore(batches, i);
      SetOfConcat(Concat(batches[..i]), batch);
      if attachments.Err? {
        ghost var id :| id in more && t.attachments[id].payload.MalformedPayload?;
        InSomeBatch(batches, i, t.attachments[id].memo.value);
        assert BadAttachment(t, {user}, Set(memoIds), id);
        return attachments;
      }
    }
    assert batches[..|batches|] == batches;
    return attachments;
  }

  lemma NothingTwice<T>()
    ensures Distinct<T>([]) && Set<T>([]) == {}
  {
  }

  lemma {:induction false} InSomeBatch<T>(batches: seq<seq<T>>, i: nat, x: T)
    requires i < |batches| && x in batches[i]
    ensures x in Concat(batches)
    decreases |batches|
  {
    if i < |batches| - 1 {
      InSomeBatch(batches[..|batches| - 1], i, x);
    }
  }

  /** An inbox row of other users whose message the deletion must read and cannot. */
  ghost predicate Unreadable(t: Tables, user: int, id: int) {
    id in t.inboxes && t.inboxes[id].sender != user && t.inboxes[id].receiver != user && t.inboxes[id].message.Malformed?
  }

  method ListInboxIds(t: Tables, user: int, memoIds: set<int>) returns (r: Result<seq<int>>)
    ensures r.Err? <==> memoIds != {} && exists id :: Unreadable(t, user, id)
    ensures r.Ok? ==> forall id :: id in r.value <==> id in t.inboxes && InboxRefers(t.inboxes[id], {user}, memoIds)
  {
    var direct := SelectIds(t.inboxes, (i: Inbox) => i.sender == user || i.receiver == user);
    if memoIds == {} {
      return Ok(direct);
    }
    var rows := SelectIds(t.inboxes, (i: Inbox) => i.sender != user && i.receiver != user);
    var touched: seq<int> := [];
    for i := 0 to |rows|
      invariant forall j :: 0 <= j < i ==> !Unreadable(t, user, rows[j])
      invariant forall id :: id in touched <==> id in rows[..i] && MessageTouches(t.inboxes[id].message, memoIds)
    {
      var id := rows[i];
      assert id in rows && id in t.inboxes;
      var message := t.inboxes[id].message;
      match message
      case NoMessage => continue;
      case Malformed =>
        assert Unreadable(t, user, rows[i]);
        return Err("failed to unmarshal inbox message");
      case _ =>
        if MessageTouches(message, memoIds) {
          touched := touched + [rows[i]];
        }
    }
    return Ok(direct + touched);
  }

  method ListSettingKeys(t: Tables, user: int) returns (keys: seq<string>)
    ensures forall k :: k in keys <==> (user, k) in t.settings
  {
    keys := [];
    var left := t.settings.Keys;
    while left != {}
      invariant left <= t.settings.Keys
      invariant forall k :: k in keys <==> (user, k) in t.settings && (user, k) !in left
      decreases left
    {
      var k :| k in left;
      left := left - {k};
      if k.0 == user {
        assert k == (user, k.1);
        keys := keys + [k.1];
      }
    }
  }

  // Deleting, one batch after another.

  /** What the IN clause of a statement compares with: it is bound to the batch. */
  method BindOnce<T>(d: Sql.Dialect, batch: seq<T>) returns (bound: seq<T>)
    ensures bound == batch
  {
    var marks, args := InClause(d, 1, batch);
    return Bound(marks, 0, args);
  }

  /** `DELETE FROM table WHERE column IN (...)` for each batch of values. */
  method DeleteIn<V, C(==)>(d: Sql.Dialect, table: map<int, V>, column: (int, V) -> C, values: seq<C>) returns (left: map<int, V>)
    ensures left == map id | id in table && column(id, table[id]) !in values :: table[id]
  {
    left := table;
    var batches := Batches(values, BATCH_SIZE);
    for i := 0 to |batches|
      invariant left == map id | id in table && column(id, table[id]) !in Concat(batches[..i]) :: table[id]
    {
      var bound := BindOnce(d, batches[i]);
      ConcatTakesOneMore(batches, i);
      left := map id | id in left && column(id, left[id]) !in bound :: left[id];
    }
    assert batches[..|batches|] == batches;
  }

  /** What the two IN clauses of one statement compare with: each is bound to the batch. */
  method BindTwice(d: Sql.Dialect, batch: seq<int>) returns (memos: seq<int>, related: seq<int>)
    ensures memos == batch && related == batch
  {
    var memoMarks, args := InClause(d, 1, batch);
    var relatedMarks, relatedArgs := InClause(d, |args| + 1, batch);
    args := args + relatedArgs;
    return Bound(memoMarks, 0, args), Bound(relatedMarks, |memoMarks|, args);
  }

  method DeleteRelations(d: Sql.Dialect, relations: set<Relation>, memoIds: seq<int>) returns (left: set<Relation>)
    ensures left == set r | r in relations && !RelationRefers(r, Set(memoIds))
  {
    left := relations;
    var batches := Batches(memoIds, BATCH_SIZE);
    for i := 0 to |batches|
      invariant left == set r | r in relations && !RelationRefers(r, Set(Concat(batches[..i])))
    {
      var memos, related := BindTwice(d, batches[i]);
      ConcatTakesOneMore(batches, i);
      SetOfConcat(Concat(batches[..i]), batches[i]);
      left := set r | r in left && !(r.memo in memos || r.related in related);
    }
    assert batches[..|batches|] == batches;
  }

  lemma ContentIdsOfOneMore(t: Tables, some: set<int>, id: int)
    requires id in t.memos
    ensures ContentIds(t, some + {id}) == ContentIds(t, some) + {ContentId(t.memos[id])}
  {
  }

  method MemoContentIds(ghost t: Tables, refs: seq<MemoRef>) returns (ids: seq<string>)
    requires RefsOf(t, refs)
    ensures Set(ids) == ContentIds(t, Set(Ids(refs)))
  {
    ids := [];
    for i := 0 to |refs|
      invariant Set(ids) == ContentIds(t, Set(Ids(refs[..i])))
    {
      assert refs[..i + 1] == refs[..i] + [refs[i]];
      IdsAppend(refs[..i], refs[i]);
      assert refs[i] in refs;
      ContentIdsOfOneMore(t, Set(Ids(refs[..i])), refs[i].id);
      ids := ids + ["memos/" + refs[i].uid];
    }
    assert refs[..|refs|] == refs;
  }

  datatype TargetSet = TargetSet(memos: seq<MemoRef>, attachments: seq<int>, settingKeys: seq<string>, inboxIds: seq<int>)

  ghost predicate Targets(t: Tables, user: int, s: TargetSet) {
    var tree := MemoTree(t, user);
    && RefsOf(t, s.memos) && Set(Ids(s.memos)) == tree
    && (forall id :: id in s.attachments <==> id in t.attachments && AttachmentRefers(t.attachments[id], {user}, tree))
    && (forall k :: k in s.settingKeys <==> (user, k) in t.settings)
    && (forall id :: id in s.inboxIds <==> id in t.inboxes && InboxRefers(t.inboxes[id], {user}, tree))
  }

  /** The deletion must read a stored text that does not parse: the payload of one of its
      attachments or, when it deletes memos, the message of another user's inbox row. */
  ghost predicate Unparsable(t: Tables, user: int) {
    || (exists id :: BadAttachment(t, {user}, MemoTree(t, user), id))
    || (MemoTree(t, user) != {} && exists id :: Unreadable(t, user, id))
  }

  lemma UnparsableMeans(t: Tables, user: int)
    ensures Unparsable(t, user) <==>
            || (exists id :: id in t.attachments && t.attachments[id].payload.MalformedPayload?
                             && (t.attachments[id].creator == user
                                 || (t.attachments[id].memo.Some? && t.attachments[id].memo.value in MemoTree(t, user))))
            || (MemoTree(t, user) != {}
                && exists id :: id in t.inboxes && t.inboxes[id].message.Malformed?
                                && t.inboxes[id].sender != user && t.inboxes[id].receiver != user)
  {
    hide MemoTree;
    if id :| BadAttachment(t, {user}, MemoTree(t, user), id) {
      assert t.attachments[id].payload.MalformedPayload?;
    }
    if id :| id in t.attachments && t.attachments[id].payload.MalformedPayload?
             && (t.attachments[id].creator == user
                 || (t.attachments[id].memo.Some? && t.attachments[id].memo.value in MemoTree(t, user))) {
      assert BadAttachment(t, {user}, MemoTree(t, user), id);
    }
    if id :| Unreadable(t, user, id) {
      assert t.inboxes[id].message.Malformed?;
    }
    if id :| id in t.inboxes && t.inboxes[id].message.Malformed?
             && t.inboxes[id].sender != user && t.inboxes[id].receiver != user {
      assert Unreadable(t, user, id);
    }
  }

  method CollectTargets(d: Sql.Dialect, t: Tables, user: int) returns (r: Result<TargetSet>)
    ensures r.Err? <==> Unparsable(t, user)
    ensures r.Ok? ==> Targets(t, user, r.value)
  {
    hide MemoTree;
    var memos;
    if d == Sql.MySQL {
      memos := ListMemoTreeIterative(t, user, BATCH_SIZE);
    } else {
      memos := ListMemoTreeRecursive(t, user);
    }
    var attachments := ListAttachments(t, user, Ids(memos));
    if attachments.Err? {
      return Err(attachments.reason);
    }
    var keys := ListSettingKeys(t, user);
    var inboxIds := ListInboxIds(t, user, Set(Ids(memos)));
    if inboxIds.Err? {
      return Err(inboxIds.reason);
    }
    return Ok(TargetSet(memos, attachments.value, keys, inboxIds.value));
  }

  /** `DELETE FROM table WHERE p`. */
  function DeleteWhere<K, V>(table: map<K, V>, p: (K, V) -> bool): map<K, V> {
    map k | k in table && !p(k, table[k]) :: table[k]
  }

  // The delete statements in their order, on the transaction's copy of the tables.

  method DeleteReactionsAndAttachments(d: Sql.Dialect, t: Tables, user: int, s: TargetSet)
      returns (reactions: map<int, Reaction>, attachments: map<int, Attachment>)
    requires Targets(t, user, s)
    ensures reactions == AfterDeletion(t, user).reactions && attachments == AfterDeletion(t, user).attachments
  {
    hide MemoTree, ContentIds, AttachmentRefers;
    var contentIds := MemoContentIds(t, s.memos);
    reactions := DeleteIn(d, t.reactions, (_, x: Reaction) => x.contentId, contentIds);
    attachments := DeleteIn(d, t.attachments, (id, _) => id, s.attachments);
    reactions := DeleteWhere(reactions, (_, x: Reaction) => x.creator == user);
    assert forall id :: id in attachments <==> id in AfterDeletion(t, user).attachments;
    assert forall c :: c in contentIds <==> c in ContentIds(t, MemoTree(t, user));
    assert forall id :: id in reactions <==> id in AfterDeletion(t, user).reactions;
  }

  method DeleteSharesAndInboxes(d: Sql.Dialect, t: Tables, user: int, s: TargetSet)
      returns (shares: map<int, Share>, inboxes: map<int, Inbox>)
    requires Targets(t, user, s)
    ensures shares == AfterDeletion(t, user).shares && inboxes == AfterDeletion(t, user).inboxes
  {
    hide MemoTree, ContentIds, InboxRefers;
    shares := DeleteWhere(t.shares, (_, x: Share) => x.creator == user);
    shares := DeleteIn(d, shares, (_, x: Share) => x.memo, Ids(s.memos));
    inboxes := DeleteIn(d, t.inboxes, (id, _) => id, s.inboxIds);
    assert forall id :: id in inboxes <==> id in AfterDeletion(t, user).inboxes;
    assert forall id :: id in Ids(s.memos) <==> id in MemoTree(t, user);
    assert forall id :: id in shares <==> id in AfterDeletion(t, user).shares;
  }

  method DeleteAccountRows(t: Tables, user: int)
      returns (identities: map<int, Identity>, settings: map<(int, string), string>)
    ensures identities == AfterDeletion(t, user).identities && settings == AfterDeletion(t, user).settings
  {
    hide MemoTree;
    identities := DeleteWhere(t.identities, (_, x: Identity) => x.user == user);
    settings := DeleteWhere(t.settings, (k: (int, string), _) => k.0 == user);
  }

  method DeleteMemosAndUser(d: Sql.Dialect, t: Tables, user: int, s: TargetSet)
      returns (relations: set<Relation>, memos: map<int, Memo>, users: map<int, string>)
    requires Targets(t, user, s)
    ensures relations == AfterDeletion(t, user).relations && memos == AfterDeletion(t, user).memos
    ensures users == AfterDeletion(t, user).users
  {
    hide MemoTree;
    var memoIds := Ids(s.memos);
    assert forall id :: id in memoIds <==> id in MemoTree(t, user);
    relations := DeleteRelations(d, t.relations, memoIds);
    memos := DeleteIn(d, t.memos, (id, _) => id, memoIds);
    users := DeleteWhere(t.users, (id, _) => id == user);
  }

  method DeleteTargets(d: Sql.Dialect, t: Tables, user: int, s: TargetSet) returns (tx: Tables)
    requires Targets(t, user, s)
    ensures tx == AfterDeletion(t, user)
  {
    hide AfterDeletion, Targets;
    var reactions, attachments := DeleteReactionsAndAttachments(d, t, user, s);
    var shares, inboxes := DeleteSharesAndInboxes(d, t, user, s);
    var identities, settings := DeleteAccountRows(t, user);
    var relations, memos, users := DeleteMemosAndUser(d, t, user, s);
    tx := Tables(users, memos, relations, attachments, reactions, shares, inboxes, identities, settings);
  }

  class Database {
    const dialect: Sql.Dialect
    var tables: Tables

    constructor (dialect: Sql.Dialect, tables: Tables)
      ensures this.dialect == dialect && this.tables == tables
    {
      this.dialect, this.tables := dialect, tables;
    }

    /** All or nothing: a committed deletion leaves exactly the rows that refer neither to the
        user nor to a memo of the tree; a deletion that stops before the commit leaves every
        table as it was. It stops exactly at the failpoint or at a stored text that has to be
        read and does not parse. */
    method DeleteUser(user: int, failBeforeCommit: bool) returns (r: Result<DeleteUserResult>)
      modifies this
      ensures r.Err? <==> failBeforeCommit || Unparsable(old(tables), user)
      ensures tables == if r.Ok? then AfterDeletion(old(tables), user) else old(tables)
      ensures r.Ok? ==> forall id :: id in r.value.attachments <==> id in old(tables).attachments && id !in tables.attachments
      ensures r.Ok? ==> forall k :: k in r.value.settingKeys <==> (user, k) in old(tables).settings
    {
      hide MemoTree, Unparsable;
      var tx := tables;
      var targets := CollectTargets(dialect, tx, user);
      if targets.Err? {
        return Err(targets.reason);
      }
      tx := DeleteTargets(dialect, tx, user, targets.value);
      if failBeforeCommit {
        return Err("delete user failpoint before commit");
      }
      tables := tx;
      return Ok(DeleteUserResult(targets.value.attachments, targets.value.settingKeys));
    }
  }
}
