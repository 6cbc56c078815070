/** `DeleteUser` of the MySQL driver: the frontier loop over comment relations, batched deletes in
  * one transaction, and a commit that is all or nothing.
  */
module UserDeletion {
  import opened Wrappers
  import opened UserTables
  import opened UserLaws

  const BATCH_SIZE := 500

  function Flatten<T>(batches: seq<seq<T>>): seq<T> {
    if batches == [] then [] else Flatten(batches[..|batches| - 1]) + batches[|batches| - 1]
  }

  /** `deleteUserBatches`: nothing is lost, duplicated or reordered, and no batch is empty or too long. */
  method Batches<T>(values: seq<T>, size: int) returns (batches: seq<seq<T>>)
    ensures Flatten(batches) == values
    ensures forall i :: 0 <= i < |batches| ==> 0 < |batches[i]| && (0 < size ==> |batches[i]| <= size)
    ensures forall i :: 0 <= i < |batches| - 1 ==> 0 < size && |batches[i]| == size
  {
    if values == [] {
      return [];
    }
    var step := if size <= 0 then |values| else size;
    batches := [];
    var start := 0;
    while start < |values|
      invariant 0 <= start
      invariant Flatten(batches) == if start <= |values| then values[..start] else values
      invariant forall i :: 0 <= i < |batches| ==> 0 < |batches[i]| <= step
      invariant forall i :: 0 <= i < |batches| - 1 ==> |batches[i]| == step
      invariant start < |values| ==> batches == [] || |batches[|batches| - 1]| == step
      invariant size <= 0 ==> step == |values| && |batches| <= 1 && (start < |values| ==> batches == [])
    {
      var end := start + step;
      if end > |values| {
        end := |values|;
      }
      var before := batches;
      batches := batches + [values[start..end]];
      assert batches[..|batches| - 1] == before;
      assert values[..start] + values[start..end] == values[..end];
      assert values[..|values|] == values;
      start := start + step;
    }
  }

  function Rows<T>(list: seq<T>): set<T> { set x | x in list }

  /** The rows of one more batch. */
  lemma NextBatch<T>(batches: seq<seq<T>>, i: nat)
    requires i < |batches|
    ensures Rows(Flatten(batches[..i + 1])) == Rows(Flatten(batches[..i])) + Rows(batches[i])
  {
    assert batches[..i + 1][..i] == batches[..i];
  }

  lemma AllBatches<T>(batches: seq<seq<T>>, values: seq<T>)
    requires Flatten(batches) == values
    ensures Flatten(batches[..|batches|]) == values && Flatten(batches[..0]) == []
  {
    assert batches[..|batches|] == batches;
  }

  function MemoIds(memos: seq<Memo>): (ids: seq<int>)
    ensures Rows(ids) == Ids(Rows(memos))
  {
    var ids := seq(|memos|, i requires 0 <= i < |memos| => memos[i].id);
    assert forall i :: 0 <= i < |memos| ==> ids[i] == memos[i].id;
    assert forall id :: id in Ids(Rows(memos)) ==> exists i :: 0 <= i < |memos| && ids[i] == id;
    ids
  }

  function MemoContents(memos: seq<Memo>): (contents: seq<string>)
    ensures Rows(contents) == Contents(Rows(memos))
  {
    var contents := seq(|memos|, i requires 0 <= i < |memos| => ContentOf(memos[i]));
    assert forall i :: 0 <= i < |memos| ==> contents[i] == ContentOf(memos[i]);
    assert forall c :: c in Contents(Rows(memos)) ==> exists i :: 0 <= i < |memos| && contents[i] == c;
    contents
  }

  ghost predicate NoRepeats<T>(list: seq<T>) { forall i, j :: 0 <= i < j < |list| ==> list[i] != list[j] }

  /** The loop's record of what it has found: no repeats, nothing outside the tree, and `seen` in step. */
  ghost predicate Tracked(memos: seq<Memo>, seen: set<int>, tree: set<Memo>) {
    NoRepeats(memos) && Rows(memos) <= tree && seen == Ids(Rows(memos))
  }

  lemma IdsOfUnion(a: set<Memo>, b: set<Memo>)
    ensures Ids(a + b) == Ids(a) + Ids(b)
  {
  }

  lemma RowsAppend<T>(list: seq<T>, x: T)
    ensures Rows(list + [x]) == Rows(list) + {x}
  {
  }

  lemma CommentsWithin(db: Db, user: int, parents: set<int>)
    requires parents <= Ids(MemoTree(db, user))
    ensures CommentsOn(db, parents) <= MemoTree(db, user)
  {
    TreeIsLeast(db, user, {});
    hide MemoTree;
  }

  lemma CommentsSplit(db: Db, a: set<int>, b: set<int>)
    ensures CommentsOn(db, a + b) == CommentsOn(db, a) + CommentsOn(db, b)
    ensures CommentsOn(db, {}) == {}
  {
  }

  /** The scan of one result: rows whose id was seen are skipped, the others are recorded. */
  method Discover(db: Db, rows: seq<Memo>, memos0: seq<Memo>, seen0: set<int>, frontier0: seq<int>,
                  ghost tree: set<Memo>)
    returns (memos: seq<Memo>, seen: set<int>, frontier: seq<int>)
    requires Keyed(db) && tree <= db.memos && Rows(rows) <= tree && Tracked(memos0, seen0, tree)
    ensures Tracked(memos, seen, tree)
    ensures Rows(memos) == Rows(memos0) + Rows(rows)
    ensures Rows(frontier) == Rows(frontier0) + (seen - seen0) && seen0 <= seen
  {
    memos, seen, frontier := memos0, seen0, frontier0;
    for i := 0 to |rows|
      invariant Tracked(memos, seen, tree) && seen0 <= seen
      invariant Rows(memos) == Rows(memos0) + Rows(rows[..i])
      invariant Rows(frontier) == Rows(frontier0) + (seen - seen0)
    {
      var row := rows[i];
      assert row in Rows(rows);
      assert rows[..i + 1] == rows[..i] + [row];
      RowsAppend(rows[..i], row);
      if row.id in seen {
        assert row in Rows(memos) by {
          var m :| m in Rows(memos) && m.id == row.id;
          assert m == row;
        }
        continue;
      }
      RowsAppend(memos, row);
      RowsAppend(frontier, row.id);
      IdsOfUnion(Rows(memos), {row});
      assert row !in Rows(memos);
      seen := seen + {row.id};
      memos := memos + [row];
      frontier := frontier + [row.id];
    }
    assert rows[..|rows|] == rows;
  }

  lemma NothingTracked(tree: set<Memo>)
    ensures Tracked([], {}, tree) && Rows<int>([]) == {} && Rows<Memo>([]) == {}
  {
  }

  lemma IdsMonotone(a: set<Memo>, b: set<Memo>)
    requires a <= b
    ensures Ids(a) <= Ids(b)
  {
  }

  lemma {:induction false} BatchWithin<T>(batches: seq<seq<T>>, i: nat, values: seq<T>)
    requires i < |batches| && Flatten(batches) == values
    ensures Rows(batches[i]) <= Rows(values)
    decreases |batches|
  {
    var last := |batches| - 1;
    assert Rows(values) == Rows(Flatten(batches[..last])) + Rows(batches[last]);
    if i < last {
      BatchWithin(batches[..last], i, Flatten(batches[..last]));
    }
  }

  /** A level either found nothing, and the loop ends, or it left fewer memos to find. */
  lemma Progress(tree: set<Memo>, memos0: seq<Memo>, memos: seq<Memo>, seen0: set<int>, seen: set<int>, next: seq<int>)
    requires Tracked(memos0, seen0, tree) && Tracked(memos, seen, tree)
    requires Rows(memos0) <= Rows(memos) && Rows(next) == seen - seen0
    ensures |tree - Rows(memos)| <= |tree - Rows(memos0)|
    ensures next != [] ==> |tree - Rows(memos)| < |tree - Rows(memos0)|
  {
    var before, now := Rows(memos0), Rows(memos);
    assert tree - before == (tree - now) + (now - before);
    if next != [] {
      assert next[0] in Rows(next);
      assert now != before;
      assert now - before != {};
    }
  }

  /** When the frontier is empty the recorded memos are closed, so they are the whole tree. */
  lemma LoopEnds(db: Db, user: int, memos: seq<Memo>, seen: set<int>, done: set<int>)
    requires Tracked(memos, seen, MemoTree(db, user)) && Roots(db, user) <= Rows(memos)
    requires done + Rows([]) == seen && CommentsOn(db, done) <= Rows(memos)
    ensures Rows(memos) == MemoTree(db, user) && NoRepeats(memos)
  {
    hide MemoTree;
    TreeIsLeast(db, user, Rows(memos));
  }

  datatype Targets = Targets(memos: seq<Memo>, attachments: seq<Attachment>, settingKeys: seq<string>,
      inboxIds: seq<int>)

  function AttachmentIds(list: seq<Attachment>): seq<int> {
    seq(|list|, i requires 0 <= i < |list| => list[i].id)
  }

  /** What the ten statements leave of the tables, table by table. */
  function Deleted(db: Db, user: int, targets: Targets): Db {
    var ids := Rows(MemoIds(targets.memos));
    var contents := Rows(MemoContents(targets.memos));
    Db(db.users - {user},
       set m | m in db.memos && m.id !in ids,
       set r | r in db.relations && r.memo !in ids && r.related !in ids,
       set a | a in db.attachments && a.id !in Rows(AttachmentIds(targets.attachments)),
       set r | r in db.reactions && r.content !in contents && r.creator != user,
       set s | s in db.shares && s.creator != user && s.memo !in ids,
       set i | i in db.inboxes && i.id !in Rows(targets.inboxIds),
       set i | i in db.identities && i.user != user,
       set s | s in db.settings && s.user != user)
  }

  /** A transaction works on its own copy of the tables. */
  class Transaction {
    var t: Db

    constructor (db: Db)
      ensures t == db
    {
      t := db;
    }

    /** The rows of a query, in an order and with repeats that callers cannot rely on. */
    method Query<T(==)>(rows: set<T>) returns (list: seq<T>)
      ensures Rows(list) == rows
    {
      list := [];
      var left := rows;
      while left != {}
        invariant Rows(list) + left == rows
      {
        var row :| row in left;
        list := list + [row];
        left := left - {row};
      }
    }

    /** One level of the loop below: query the comments on the frontier batch by batch. */
    method ExpandLevel(user: int, frontier: seq<int>, memos0: seq<Memo>, seen0: set<int>)
      returns (memos: seq<Memo>, seen: set<int>, next: seq<int>)
      requires Keyed(t) && Tracked(memos0, seen0, MemoTree(t, user)) && Rows(frontier) <= seen0
      ensures Tracked(memos, seen, MemoTree(t, user))
      ensures Rows(memos0) <= Rows(memos) && seen0 <= seen && Rows(next) == seen - seen0
      ensures CommentsOn(t, Rows(frontier)) <= Rows(memos)
    {
      ghost var tree := MemoTree(t, user);
      CommentsSplit(t, {}, {});
      IdsMonotone(Rows(memos0), tree);
      hide MemoTree, CommentsOn, Ids, NoRepeats, Keyed;
      memos, seen, next := memos0, seen0, [];
      var batches := Batches(frontier, BATCH_SIZE);
      AllBatches(batches, frontier);
      for i := 0 to |batches|
        invariant Tracked(memos, seen, tree) && Rows(memos0) <= Rows(memos) && seen0 <= seen
        invariant Rows(next) == seen - seen0
        invariant CommentsOn(t, Rows(Flatten(batches[..i]))) <= Rows(memos)
      {
        NextBatch(batches, i);
        BatchWithin(batches, i, frontier);
        CommentsSplit(t, Rows(Flatten(batches[..i])), Rows(batches[i]));
        CommentsWithin(t, user, Rows(batches[i]));
        var children := Query(CommentsOn(t, Rows(batches[i])));
        memos, seen, next := Discover(t, children, memos, seen, next, tree);
      }
    }

    /** `listDeleteUserMemoTreeIterative`: level by level, skipping memos whose id was seen. */
    method ListMemoTree(user: int) returns (memos: seq<Memo>)
      requires Keyed(t)
      ensures Rows(memos) == MemoTree(t, user) && NoRepeats(memos)
    {
      ghost var tree := MemoTree(t, user);
      CommentsSplit(t, {}, {});
      NothingTracked(tree);
      hide MemoTree, CommentsOn, Ids, Rows, Roots, NoRepeats, Keyed, Tracked;
      var roots := Query(Roots(t, user));
      var seen: set<int>, frontier: seq<int>;
      memos, seen, frontier := Discover(t, roots, [], {}, [], tree);
      ghost var done: set<int> := {};
      while frontier != []
        invariant Tracked(memos, seen, tree) && Roots(t, user) <= Rows(memos)
        invariant done + Rows(frontier) == seen && CommentsOn(t, done) <= Rows(memos)
        decreases |tree - Rows(memos)|, |frontier|
      {
        ghost var memos0, seen0 := memos, seen;
        CommentsSplit(t, done, Rows(frontier));
        done := done + Rows(frontier);
        memos, seen, frontier := ExpandLevel(user, frontier, memos, seen);
        Progress(tree, memos0, memos, seen0, seen, frontier);
      }
      LoopEnds(t, user, memos, seen, done);
    }

    /** `appendDeleteUserAttachments`: one scan, skipping attachments whose id was seen. */
    method ScanAttachments(rows: set<Attachment>, list0: seq<Attachment>, seen0: set<int>)
      returns (list: seq<Attachment>, seen: set<int>)
      requires Keyed(t) && rows <= t.attachments && Rows(list0) <= t.attachments
      requires NoRepeats(list0) && seen0 == set a | a in list0 :: a.id
      ensures NoRepeats(list) && Rows(list) == Rows(list0) + rows && seen == set a | a in list :: a.id
    {
      var result := Query(rows);
      list, seen := list0, seen0;
      for i := 0 to |result|
        invariant NoRepeats(list) && Rows(list) == Rows(list0) + Rows(result[..i]) && seen == set a | a in list :: a.id
      {
        var row := result[i];
        assert row in Rows(result);
        assert result[..i + 1] == result[..i] + [row];
        RowsAppend(result[..i], row);
        if row.id in seen {
          assert row in Rows(list) by {
            var a :| a in list && a.id == row.id;
            assert a in Rows(list) && a == row;
          }
          continue;
        }
        RowsAppend(list, row);
        seen := seen + {row.id};
        list := list + [row];
      }
      assert result[..|result|] == result;
    }

    /** `listDeleteUserAttachments`: the user's own, then those of the memos. */
    method ListAttachments(user: int, memoIds: seq<int>) returns (list: seq<Attachment>)
      requires Keyed(t)
      ensures NoRepeats(list) && Rows(list) == set a | a in t.attachments && AttachmentGoes(a, user, Rows(memoIds))
    {
      hide Keyed;
      var seen;
      list, seen := ScanAttachments((set a | a in t.attachments && a.creator == user), [], {});
      var batches := Batches(memoIds, BATCH_SIZE);
      AllBatches(batches, memoIds);
      for i := 0 to |batches|
        invariant NoRepeats(list) && seen == set a | a in list :: a.id
        invariant Rows(list) == set a | a in t.attachments && AttachmentGoes(a, user, Rows(Flatten(batches[..i])))
      {
        NextBatch(batches, i);
        var batch := Rows(batches[i]);
        var found := set a | a in t.attachments && a.memo.Some? && a.memo.value in batch;
        list, seen := ScanAttachments(found, list, seen);
      }
    }

    /** `listDeleteUserInboxIDs`: direct ones, and with a non-empty memo set those whose message refers to it. */
    method ListInboxIds(user: int, memoIds: set<int>) returns (ids: seq<int>)
      ensures Rows(ids) == set i | i in t.inboxes && InboxGoes(i, user, memoIds) :: i.id
    {
      ids := Query(set i | i in t.inboxes && (i.sender == user || i.receiver == user) :: i.id);
      if memoIds == {} {
        return;
      }
      var others := Query(set i | i in t.inboxes && i.sender != user && i.receiver != user);
      ghost var direct := Rows(ids);
      for k := 0 to |others|
        invariant Rows(ids) == direct + set i | i in others[..k] && Touches(i.message, memoIds) :: i.id
      {
        assert others[..k + 1] == others[..k] + [others[k]];
        if Touches(others[k].message, memoIds) {
          RowsAppend(ids, others[k].id);
          ids := ids + [others[k].id];
        }
      }
      assert others[..|others|] == others;
      assert forall i :: i in others <==> i in Rows(others);
    }

    /** `collectDeleteUserTargets` */
    method CollectTargets(user: int) returns (targets: Targets)
      requires Keyed(t)
      ensures Rows(targets.memos) == MemoTree(t, user) && NoRepeats(targets.memos) && NoRepeats(targets.attachments)
      ensures var ids := Ids(MemoTree(t, user));
              && Rows(targets.attachments) == (set a | a in t.attachments && AttachmentGoes(a, user, ids))
              && Rows(targets.settingKeys) == (set s | s in t.settings && s.user == user :: s.key)
              && Rows(targets.inboxIds) == (set i | i in t.inboxes && InboxGoes(i, user, ids) :: i.id)
    {
      hide MemoTree, Ids, NoRepeats, Keyed;
      var memos := ListMemoTree(user);
      var attachments := ListAttachments(user, MemoIds(memos));
      var settingKeys := Query(set s | s in t.settings && s.user == user :: s.key);
      var inboxIds := ListInboxIds(user, Ids(Rows(memos)));
      targets := Targets(memos, attachments, settingKeys, inboxIds);
    }

    // The delete statements.

    method DeleteReactionsByContent(contents: seq<string>)
      modifies this
      ensures t == old(t).(reactions := set r | r in old(t).reactions && r.content !in Rows(contents))
    {
      var batches := Batches(contents, BATCH_SIZE);
      AllBatches(batches, contents);
      for i := 0 to |batches|
        invariant t == old(t).(reactions := set r | r in old(t).reactions && r.content !in Rows(Flatten(batches[..i])))
      {
        NextBatch(batches, i);
        var batch := Rows(batches[i]);
        t := t.(reactions := set r | r in t.reactions && r.content !in batch);
      }
    }

    method DeleteAttachments(ids: seq<int>)
      modifies this
      ensures t == old(t).(attachments := set a | a in old(t).attachments && a.id !in Rows(ids))
    {
      var batches := Batches(ids, BATCH_SIZE);
      AllBatches(batches, ids);
      for i := 0 to |batches|
        invariant t == old(t).(attachments := set a | a in old(t).attachments && a.id !in Rows(Flatten(batches[..i])))
      {
        NextBatch(batches, i);
        var batch := Rows(batches[i]);
        t := t.(attachments := set a | a in t.attachments && a.id !in batch);
      }
    }

    method DeleteShares(user: int, memoIds: seq<int>)
      modifies this
      ensures t == old(t).(shares := set s | s in old(t).shares && s.creator != user && s.memo !in Rows(memoIds))
    {
      t := t.(shares := set s | s in t.shares && s.creator != user);
      var batches := Batches(memoIds, BATCH_SIZE);
      AllBatches(batches, memoIds);
      for i := 0 to |batches|
        invariant t == old(t).(shares := set s | s in old(t).shares && s.creator != user
                  && s.memo !in Rows(Flatten(batches[..i])))
      {
        NextBatch(batches, i);
        var batch := Rows(batches[i]);
        t := t.(shares := set s | s in t.shares && s.memo !in batch);
      }
    }

    method DeleteInboxes(ids: seq<int>)
      modifies this
      ensures t == old(t).(inboxes := set i | i in old(t).inboxes && i.id !in Rows(ids))
    {
      var batches := Batches(ids, BATCH_SIZE);
      AllBatches(batches, ids);
      for k := 0 to |batches|
        invariant t == old(t).(inboxes := set i | i in old(t).inboxes && i.id !in Rows(Flatten(batches[..k])))
      {
        NextBatch(batches, k);
        var batch := Rows(batches[k]);
        t := t.(inboxes := set i | i in t.inboxes && i.id !in batch);
      }
    }

    method DeleteRelations(memoIds: seq<int>)
      modifies this
      ensures t == old(t).(relations := set r | r in old(t).relations && r.memo !in Rows(memoIds)
              && r.related !in Rows(memoIds))
    {
      var batches := Batches(memoIds, BATCH_SIZE);
      AllBatches(batches, memoIds);
      for i := 0 to |batches|
        invariant t == old(t).(relations := set r | r in old(t).relations
                    && r.memo !in Rows(Flatten(batches[..i])) && r.related !in Rows(Flatten(batches[..i])))
      {
        NextBatch(batches, i);
        var batch := Rows(batches[i]);
        t := t.(relations := set r | r in t.relations && r.memo !in batch && r.related !in batch);
      }
    }

    method DeleteMemos(memoIds: seq<int>)
      modifies this
      ensures t == old(t).(memos := set m | m in old(t).memos && m.id !in Rows(memoIds))
    {
      var batches := Batches(memoIds, BATCH_SIZE);
      AllBatches(batches, memoIds);
      for i := 0 to |batches|
        invariant t == old(t).(memos := set m | m in old(t).memos && m.id !in Rows(Flatten(batches[..i])))
      {
        NextBatch(batches, i);
        var batch := Rows(batches[i]);
        t := t.(memos := set m | m in t.memos && m.id !in batch);
      }
    }

    /** `deleteUserTargetsTx`: the ten statements in order. */
    method DeleteTargets(user: int, targets: Targets)
      modifies this
      ensures t == Deleted(old(t), user, targets)
    {
      hide MemoIds, MemoContents, AttachmentIds, Rows;
      var memoIds := MemoIds(targets.memos);
      DeleteReactionsByContent(MemoContents(targets.memos));
      DeleteAttachments(AttachmentIds(targets.attachments));
      t := t.(reactions := set r | r in t.reactions && r.creator != user);
      DeleteShares(user, memoIds);
      DeleteInboxes(targets.inboxIds);
      t := t.(identities := set i | i in t.identities && i.user != user);
      t := t.(settings := set s | s in t.settings && s.user != user);
      DeleteRelations(memoIds);
      DeleteMemos(memoIds);
      t := t.(users := t.users - {user});
    }
  }

  lemma AttachmentById(db: Db, list: seq<Attachment>, a: Attachment)
    requires Keyed(db) && Rows(list) <= db.attachments && a in db.attachments
    ensures a.id in Rows(AttachmentIds(list)) <==> a in Rows(list)
  {
    var ids := AttachmentIds(list);
    if a.id in Rows(ids) {
      var k :| 0 <= k < |ids| && ids[k] == a.id;
      assert list[k] in Rows(list) && list[k].id == a.id;
    }
    if a in Rows(list) {
      var k :| 0 <= k < |list| && list[k] == a;
      assert ids[k] == a.id;
    }
  }

  /** Deleting the collected targets is the deletion as specified. */
  lemma TargetsAreExact(db: Db, user: int, targets: Targets)
    requires Keyed(db) && Rows(targets.memos) == MemoTree(db, user)
    requires var ids := Ids(MemoTree(db, user));
             && Rows(targets.attachments) == (set a | a in db.attachments && AttachmentGoes(a, user, ids))
             && Rows(targets.inboxIds) == (set i | i in db.inboxes && InboxGoes(i, user, ids) :: i.id)
    ensures Deleted(db, user, targets) == After(db, user)
  {
    hide MemoTree, MemoIds, MemoContents;
    var tree := MemoTree(db, user);
    assert db.memos - tree == set m | m in db.memos && m.id !in Ids(tree);
    forall a | a in db.attachments
      ensures a.id in Rows(AttachmentIds(targets.attachments)) <==> AttachmentGoes(a, user, Ids(tree))
    {
      AttachmentById(db, targets.attachments, a);
    }
  }

  /** Where a deletion fails: anything before the commit, or the commit itself, rolls the transaction back. */
  datatype Fault = NoFault | OnBegin | WhileCollecting | WhileDeleting | BeforeCommit | OnCommit

  datatype DeleteResult = DeleteResult(attachments: seq<Attachment>, settingKeys: seq<string>)

  class Driver {
    var db: Db

    constructor (db: Db)
      ensures this.db == db
    {
      this.db := db;
    }

    /** `DeleteUser`: everything or nothing. */
    method DeleteUser(user: int, fault: Fault) returns (result: Option<DeleteResult>)
      requires Keyed(db)
      modifies this
      ensures result.None? <==> fault != NoFault
      ensures result.None? ==> db == old(db)
      ensures result.Some? ==>
        && db == After(old(db), user) && KeepsExactly(old(db), user, db)
        && NoRepeats(result.value.attachments) && Rows(result.value.attachments) == old(db).attachments - db.attachments
        && Rows(result.value.settingKeys) == set s | s in old(db).settings && s.user == user :: s.key
    {
      hide MemoTree, Keyed, NoRepeats, Ids, Contents;
      if fault == OnBegin {
        return None;
      }
      var tx := new Transaction(db);
      if fault == WhileCollecting {
        return None;
      }
      var targets := tx.CollectTargets(user);
      if fault == WhileDeleting {
        return None;
      }
      tx.DeleteTargets(user, targets);
      if fault != NoFault {
        return None;
      }
      TargetsAreExact(db, user, targets);
      DeletionIsExact(db, user);
      hide Deleted, After, KeepsExactly;
      db := tx.t;
      return Some(DeleteResult(targets.attachments, targets.settingKeys));
    }
  }
}
