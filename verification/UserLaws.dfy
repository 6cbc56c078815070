/** What deleting a user removes, row by row, and that it removes nothing else. */
module UserLaws {
  import opened Wrappers
  import opened UserTables

  /** A chain of comments that starts at a memo of the user. */
  ghost predicate Descends(db: Db, user: int, path: seq<Memo>) {
    && path != [] && path[0].creator == user
    && (forall i :: 0 <= i < |path| ==> path[i] in db.memos)
    && forall i :: 0 < i < |path| ==> Relation(path[i].id, path[i - 1].id, Comment) in db.relations
  }

  /** The user's memos, the comments on them, the comments on these, and so on. */
  ghost predicate Doomed(db: Db, user: int, m: Memo) {
    exists path :: Descends(db, user, path) && path[|path| - 1] == m
  }

  ghost predicate DoomedId(db: Db, user: int, id: int) {
    exists m :: m in db.memos && Doomed(db, user, m) && m.id == id
  }

  ghost predicate DoomedContent(db: Db, user: int, content: string) {
    exists m :: m in db.memos && Doomed(db, user, m) && content == "memos/" + m.uid
  }

  /** A comment or mention that carries the id of a doomed memo. */
  ghost predicate Mentions(db: Db, user: int, message: Message) {
    match message
    case MemoComment(Some((memo, related))) =>
      (memo != 0 && DoomedId(db, user, memo)) || (related != 0 && DoomedId(db, user, related))
    case MemoMention(Some((memo, related))) =>
      (memo != 0 && DoomedId(db, user, memo)) || (related != 0 && DoomedId(db, user, related))
    case _ => false
  }

  /** Which rows of each table are kept: those of other users that have nothing to do with a doomed memo. */
  ghost predicate KeepsExactly(db: Db, user: int, after: Db) {
    && after.users == db.users - {user}
    && (forall m :: m in after.memos <==> m in db.memos && !Doomed(db, user, m))
    && (forall r :: r in after.relations <==>
          r in db.relations && !DoomedId(db, user, r.memo) && !DoomedId(db, user, r.related))
    && (forall a :: a in after.attachments <==>
          a in db.attachments && a.creator != user && (a.memo.Some? ==> !DoomedId(db, user, a.memo.value)))
    && (forall r :: r in after.reactions <==>
          r in db.reactions && r.creator != user && !DoomedContent(db, user, r.content))
    && (forall s :: s in after.shares <==> s in db.shares && s.creator != user && !DoomedId(db, user, s.memo))
    && (forall i :: i in after.inboxes <==>
          i in db.inboxes && i.sender != user && i.receiver != user && !Mentions(db, user, i.message))
    && (forall i :: i in after.identities <==> i in db.identities && i.user != user)
    && (forall s :: s in after.settings <==> s in db.settings && s.user != user)
  }

  lemma {:induction false} PathInTree(db: Db, user: int, path: seq<Memo>)
    requires Descends(db, user, path)
    ensures path[|path| - 1] in MemoTree(db, user)
    decreases |path|
  {
    TreeIsLeast(db, user, {});
    hide MemoTree;
    var last := |path| - 1;
    if last == 0 {
      assert path[0] in Roots(db, user);
    } else {
      PathInTree(db, user, path[..last]);
      var rel := Relation(path[last].id, path[last - 1].id, Comment);
      assert rel.related in Ids(MemoTree(db, user));
      assert path[last] in CommentsOn(db, Ids(MemoTree(db, user)));
    }
  }

  lemma LongerPath(db: Db, user: int, parent: Memo, child: Memo)
    requires Doomed(db, user, parent) && child in db.memos
    requires Relation(child.id, parent.id, Comment) in db.relations
    ensures Doomed(db, user, child)
  {
    var path :| Descends(db, user, path) && path[|path| - 1] == parent;
    var longer := path + [child];
    assert Descends(db, user, longer) && longer[|longer| - 1] == child;
  }

  /** The memo tree holds exactly the memos that a chain of comments leads to. */
  lemma TreeIsDoomed(db: Db, user: int, m: Memo)
    ensures m in MemoTree(db, user) <==> m in db.memos && Doomed(db, user, m)
  {
    hide MemoTree;
    if m in db.memos && Doomed(db, user, m) {
      var path :| Descends(db, user, path) && path[|path| - 1] == m;
      PathInTree(db, user, path);
    }
    DoomedClosed(db, user);
    TreeIsLeast(db, user, DoomedMemos(db, user));
  }

  ghost function DoomedMemos(db: Db, user: int): set<Memo> { set m | m in db.memos && Doomed(db, user, m) }

  lemma DoomedClosed(db: Db, user: int)
    ensures Closed(db, user, DoomedMemos(db, user))
  {
    hide Doomed;
    var doomed := DoomedMemos(db, user);
    forall m | m in Roots(db, user)
      ensures m in doomed
    {
      RootDoomed(db, user, m);
    }
    forall m | m in CommentsOn(db, Ids(doomed))
      ensures m in doomed
    {
      var rel :| rel in db.relations && rel.ty.Comment? && rel.memo == m.id && rel.related in Ids(doomed);
      var parent :| parent in doomed && parent.id == rel.related;
      assert rel == Relation(m.id, parent.id, Comment);
      LongerPath(db, user, parent, m);
    }
  }

  lemma RootDoomed(db: Db, user: int, m: Memo)
    requires m in db.memos && m.creator == user
    ensures Doomed(db, user, m)
  {
    assert Descends(db, user, [m]) && [m][|[m]| - 1] == m;
  }

  lemma TreeIds(db: Db, user: int, id: int)
    ensures id in Ids(MemoTree(db, user)) <==> DoomedId(db, user, id)
  {
    forall m ensures m in MemoTree(db, user) <==> m in db.memos && Doomed(db, user, m) { TreeIsDoomed(db, user, m); }
    hide MemoTree, Doomed;
  }

  lemma TreeContents(db: Db, user: int, content: string)
    ensures content in Contents(MemoTree(db, user)) <==> DoomedContent(db, user, content)
  {
    forall m ensures m in MemoTree(db, user) <==> m in db.memos && Doomed(db, user, m) { TreeIsDoomed(db, user, m); }
    hide MemoTree, Doomed;
  }

  lemma MessageMentions(db: Db, user: int, message: Message)
    ensures Touches(message, Ids(MemoTree(db, user))) <==> Mentions(db, user, message)
  {
    forall id ensures id in Ids(MemoTree(db, user)) <==> DoomedId(db, user, id) { TreeIds(db, user, id); }
    hide MemoTree, DoomedId, Ids;
  }

  /** The deletion keeps exactly the rows of other users that have nothing to do with a doomed memo. */
  lemma DeletionIsExact(db: Db, user: int)
    ensures KeepsExactly(db, user, After(db, user))
  {
    forall m ensures m in MemoTree(db, user) <==> m in db.memos && Doomed(db, user, m) { TreeIsDoomed(db, user, m); }
    forall id ensures id in Ids(MemoTree(db, user)) <==> DoomedId(db, user, id) { TreeIds(db, user, id); }
    forall c ensures c in Contents(MemoTree(db, user)) <==> DoomedContent(db, user, c) { TreeContents(db, user, c); }
    forall message ensures Touches(message, Ids(MemoTree(db, user))) <==> Mentions(db, user, message) {
      MessageMentions(db, user, message);
    }
    hide MemoTree, Doomed, DoomedId, DoomedContent, Mentions, Touches, Ids, Contents;
  }

  /** When no row has to do with the user or a doomed memo, only the user and the doomed memos go. */
  lemma NothingElseGoes(db: Db, user: int, after: Db)
    requires KeepsExactly(db, user, after)
    requires forall r :: r in db.relations ==> !DoomedId(db, user, r.memo) && !DoomedId(db, user, r.related)
    requires forall a :: a in db.attachments ==>
             a.creator != user && (a.memo.Some? ==> !DoomedId(db, user, a.memo.value))
    requires forall r :: r in db.reactions ==> r.creator != user && !DoomedContent(db, user, r.content)
    requires forall s :: s in db.shares ==> s.creator != user && !DoomedId(db, user, s.memo)
    requires forall i :: i in db.inboxes ==> i.sender != user && i.receiver != user && !Mentions(db, user, i.message)
    requires forall i :: i in db.identities ==> i.user != user
    requires forall s :: s in db.settings ==> s.user != user
    ensures after == db.(users := db.users - {user}, memos := db.memos - DoomedMemos(db, user))
  {
    hide Doomed, DoomedId, DoomedContent, Mentions;
    SameSet(after.memos, db.memos - DoomedMemos(db, user));
    SameSet(after.relations, db.relations);
    SameSet(after.attachments, db.attachments);
    SameSet(after.reactions, db.reactions);
    SameSet(after.shares, db.shares);
    SameSet(after.inboxes, db.inboxes);
    SameSet(after.identities, db.identities);
    SameSet(after.settings, db.settings);
  }

  lemma SameSet<T(!new)>(a: set<T>, b: set<T>)
    requires forall x :: x in a <==> x in b
    ensures a == b
  {
  }

  /** What is kept is determined row by row. */
  lemma KeptIsUnique(db: Db, user: int, a: Db, b: Db)
    requires KeepsExactly(db, user, a) && KeepsExactly(db, user, b)
    ensures a == b
  {
    hide Doomed, DoomedId, DoomedContent, Mentions;
    SameSet(a.memos, b.memos);
    SameSet(a.relations, b.relations);
    SameSet(a.attachments, b.attachments);
    SameSet(a.reactions, b.reactions);
    SameSet(a.shares, b.shares);
    SameSet(a.inboxes, b.inboxes);
    SameSet(a.identities, b.identities);
    SameSet(a.settings, b.settings);
  }
}
