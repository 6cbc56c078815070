/** The tables that deleting a user touches, and what a deletion must leave behind. */
module UserTables {
  import opened Wrappers

  datatype Memo = Memo(id: int, uid: string, creator: int)

  datatype RelationType = Comment | Reference

  datatype Relation = Relation(memo: int, related: int, ty: RelationType)

  datatype Attachment = Attachment(id: int, creator: int, memo: Option<int>)

  datatype Reaction = Reaction(id: int, creator: int, content: string)

  datatype Share = Share(id: int, memo: int, creator: int)

  /** The message of a notification; the payload of a comment or mention may be missing. */
  datatype Message =
    | NoMessage
    | MemoComment(payload: Option<(int, int)>)
    | MemoMention(payload: Option<(int, int)>)
    | OtherMessage

  datatype Inbox = Inbox(id: int, sender: int, receiver: int, message: Message)

  datatype Identity = Identity(id: int, user: int)

  datatype Setting = Setting(user: int, key: string)

  datatype Db = Db(
    users: set<int>, memos: set<Memo>, relations: set<Relation>, attachments: set<Attachment>,
    reactions: set<Reaction>, shares: set<Share>, inboxes: set<Inbox>,
    identities: set<Identity>, settings: set<Setting>)

  function Ids(memos: set<Memo>): set<int> { set m | m in memos :: m.id }

  function ContentOf(m: Memo): string { "memos/" + m.uid }

  function Contents(memos: set<Memo>): set<string> { set m | m in memos :: ContentOf(m) }

  /** Primary keys and the unique memo uid. */
  ghost predicate Keyed(db: Db) {
    && (forall a, b :: a in db.memos && b in db.memos && (a.id == b.id || a.uid == b.uid) ==> a == b)
    && (forall a, b :: a in db.attachments && b in db.attachments && a.id == b.id ==> a == b)
    && (forall a, b :: a in db.inboxes && b in db.inboxes && a.id == b.id ==> a == b)
  }

  // The memo tree: the user's memos and, transitively, the comments on them.

  function Roots(db: Db, user: int): set<Memo> { set m | m in db.memos && m.creator == user }

  /** The memos that are a comment on one of the given ids. */
  function CommentsOn(db: Db, parents: set<int>): set<Memo> {
    set m, rel | rel in db.relations && m in db.memos && rel.ty.Comment? && rel.memo == m.id
        && rel.related in parents :: m
  }

  ghost predicate Closed(db: Db, user: int, s: set<Memo>) {
    Roots(db, user) <= s && CommentsOn(db, Ids(s)) <= s
  }

  lemma FewerLeft<T>(all: set<T>, result: set<T>, next: set<T>)
    requires next <= all - result
    ensures |all - (result + next)| + |next| == |all - result|
  {
    assert all - result == (all - (result + next)) + next;
  }

  /** The recursive query of the SQLite and PostgreSQL drivers: each round joins the working table
    * with the relations, and rows that are already in the result are dropped (`UNION`).
    */
  function RecursiveQuery(db: Db, result: set<Memo>, working: set<Memo>): (tree: set<Memo>)
    requires result <= db.memos
    ensures result <= tree <= db.memos
    decreases |db.memos - result|, |working|
  {
    if working == {} then result else
      var next := CommentsOn(db, Ids(working)) - result;
      FewerLeft(db.memos, result, next);
      RecursiveQuery(db, result + next, next)
  }

  function MemoTree(db: Db, user: int): (tree: set<Memo>)
    ensures Roots(db, user) <= tree <= db.memos
  {
    RecursiveQuery(db, Roots(db, user), Roots(db, user))
  }

  lemma CommentsOnUnion(db: Db, a: set<Memo>, b: set<Memo>)
    ensures CommentsOn(db, Ids(a + b)) == CommentsOn(db, Ids(a)) + CommentsOn(db, Ids(b))
  {
  }

  lemma CommentsAreMemos(db: Db, parents: set<int>)
    ensures CommentsOn(db, parents) <= db.memos
  {
  }

  /** Only the working rows may have comments outside the result. */
  ghost predicate Expanding(db: Db, result: set<Memo>, working: set<Memo>) {
    working <= result <= db.memos && CommentsOn(db, Ids(result - working)) <= result
  }

  lemma ExpandNext(db: Db, result: set<Memo>, working: set<Memo>)
    requires Expanding(db, result, working)
    ensures var next := CommentsOn(db, Ids(working)) - result;
            next <= db.memos - result && Expanding(db, result + next, next)
  {
    CommentsOnUnion(db, result - working, working);
    CommentsAreMemos(db, Ids(working));
    hide CommentsOn, Ids;
    var next := CommentsOn(db, Ids(working)) - result;
    assert (result - working) + working == result && (result + next) - next == result;
  }

  lemma ExpandDone(db: Db, result: set<Memo>)
    requires Expanding(db, result, {})
    ensures CommentsOn(db, Ids(result)) <= result
  {
    hide CommentsOn, Ids;
    assert result - {} == result;
  }

  /** The query ends with a set that is closed under comments. */
  lemma {:induction false} QueryClosed(db: Db, result: set<Memo>, working: set<Memo>)
    requires Expanding(db, result, working)
    ensures var tree := RecursiveQuery(db, result, working); CommentsOn(db, Ids(tree)) <= tree
    decreases |db.memos - result|, |working|
  {
    assert result <= db.memos;
    hide CommentsOn, Ids, Expanding;
    if working != {} {
      var next := CommentsOn(db, Ids(working)) - result;
      ExpandNext(db, result, working);
      FewerLeft(db.memos, result, next);
      QueryClosed(db, result + next, next);
    } else {
      ExpandDone(db, result);
    }
  }

  lemma CommentsOnMonotone(db: Db, a: set<Memo>, b: set<Memo>)
    requires a <= b
    ensures CommentsOn(db, Ids(a)) <= CommentsOn(db, Ids(b))
  {
  }

  lemma {:induction false} QueryLeast(db: Db, user: int, result: set<Memo>, working: set<Memo>, s: set<Memo>)
    requires working <= result <= db.memos && result <= s && Closed(db, user, s)
    ensures RecursiveQuery(db, result, working) <= s
    decreases |db.memos - result|, |working|
  {
    CommentsOnMonotone(db, working, s);
    CommentsAreMemos(db, Ids(working));
    hide CommentsOn, Ids;
    if working != {} {
      var next := CommentsOn(db, Ids(working)) - result;
      assert next <= db.memos;
      FewerLeft(db.memos, result, next);
      QueryLeast(db, user, result + next, next, s);
    }
  }

  /** The memo tree is the least set that holds the user's memos and every comment on a member,
    * also when comment relations form cycles.
    */
  lemma TreeIsLeast(db: Db, user: int, s: set<Memo>)
    ensures Closed(db, user, MemoTree(db, user))
    ensures Closed(db, user, s) ==> MemoTree(db, user) <= s
  {
    var roots := Roots(db, user);
    assert CommentsOn(db, Ids(roots - roots)) == {};
    QueryClosed(db, roots, roots);
    if Closed(db, user, s) {
      QueryLeast(db, user, roots, roots, s);
    }
  }

  // What a deletion removes.

  predicate InSet(id: int, ids: set<int>) { id != 0 && id in ids }

  /** `inboxMessageTouchesMemoSet` */
  predicate Touches(message: Message, ids: set<int>) {
    match message
    case NoMessage => false
    case MemoComment(None) => false
    case MemoComment(Some((memo, related))) => InSet(memo, ids) || InSet(related, ids)
    case MemoMention(None) => false
    case MemoMention(Some((memo, related))) => InSet(memo, ids) || InSet(related, ids)
    case OtherMessage => false
  }

  predicate InboxGoes(i: Inbox, user: int, ids: set<int>) {
    i.sender == user || i.receiver == user || Touches(i.message, ids)
  }

  predicate AttachmentGoes(a: Attachment, user: int, ids: set<int>) {
    a.creator == user || (a.memo.Some? && a.memo.value in ids)
  }

  /** The tables after a deletion: the user's rows and the rows that hang off the memo tree are gone. */
  function After(db: Db, user: int): Db {
    var tree := MemoTree(db, user);
    var ids := Ids(tree);
    var contents := Contents(tree);
    Db(db.users - {user},
       db.memos - tree,
       set r | r in db.relations && r.memo !in ids && r.related !in ids,
       set a | a in db.attachments && !AttachmentGoes(a, user, ids),
       set r | r in db.reactions && r.creator != user && r.content !in contents,
       set s | s in db.shares && s.creator != user && s.memo !in ids,
       set i | i in db.inboxes && !InboxGoes(i, user, ids),
       set i | i in db.identities && i.user != user,
       set s | s in db.settings && s.user != user)
  }

  /** A memo id in a message is unset (zero) or exists. */
  predicate MessageRefers(message: Message, ids: set<int>) {
    match message
    case MemoComment(Some((memo, related))) => (memo == 0 || memo in ids) && (related == 0 || related in ids)
    case MemoMention(Some((memo, related))) => (memo == 0 || memo in ids) && (related == 0 || related in ids)
    case _ => true
  }

  /** No table refers to a user or memo that does not exist. */
  ghost predicate Referential(db: Db) {
    var ids := Ids(db.memos);
    && (forall m :: m in db.memos ==> m.creator in db.users)
    && (forall r :: r in db.relations ==> r.memo in ids && r.related in ids)
    && (forall a :: a in db.attachments ==> a.creator in db.users && (a.memo.Some? ==> a.memo.value in ids))
    && (forall r :: r in db.reactions ==> r.creator in db.users && r.content in Contents(db.memos))
    && (forall s :: s in db.shares ==> s.creator in db.users && s.memo in ids)
    && (forall i :: i in db.inboxes ==> i.sender in db.users && i.receiver in db.users && MessageRefers(i.message, ids))
    && (forall i :: i in db.identities ==> i.user in db.users)
    && (forall s :: s in db.settings ==> s.user in db.users)
  }

  lemma SurvivingIds(db: Db, user: int, id: int)
    requires Keyed(db)
    ensures id in Ids(db.memos) && id !in Ids(MemoTree(db, user)) <==> id in Ids(After(db, user).memos)
  {
  }

  lemma MessagesSurvive(message: Message, all: set<int>, gone: set<int>)
    requires MessageRefers(message, all) && !Touches(message, gone)
    ensures MessageRefers(message, all - gone)
  {
  }

  lemma SurvivingContent(db: Db, tree: set<Memo>, content: string)
    requires content in Contents(db.memos) && content !in Contents(tree)
    ensures content in Contents(db.memos - tree)
  {
  }

  /** Deleting a user keeps referential integrity. */
  lemma DeletionKeepsReferences(db: Db, user: int)
    requires Keyed(db) && Referential(db)
    ensures Referential(After(db, user))
  {
    hide MemoTree, Touches, MessageRefers, Ids, Contents;
    var db' := After(db, user);
    var tree := MemoTree(db, user);
    assert Ids(db'.memos) == Ids(db.memos) - Ids(tree) by {
      forall id ensures id in Ids(db'.memos) <==> id in Ids(db.memos) - Ids(tree) { SurvivingIds(db, user, id); }
    }
    forall m | m in db'.memos
      ensures m.creator in db'.users
    {
      assert m !in Roots(db, user);
    }
    forall r | r in db'.reactions
      ensures r.content in Contents(db'.memos)
    {
      SurvivingContent(db, tree, r.content);
    }
    forall i | i in db'.inboxes
      ensures MessageRefers(i.message, Ids(db'.memos))
    {
      MessagesSurvive(i.message, Ids(db.memos), Ids(tree));
    }
  }

  /** No surviving memo was a comment on a deleted one. */
  lemma NoOrphanComment(db: Db, user: int, rel: Relation, child: Memo, parent: Memo)
    requires rel in db.relations && rel.ty.Comment? && rel.memo == child.id && rel.related == parent.id
    requires child in db.memos && parent in db.memos && parent !in After(db, user).memos
    ensures child !in After(db, user).memos
  {
    hide MemoTree;
    TreeIsLeast(db, user, {});
    assert parent.id in Ids(MemoTree(db, user));
    assert child in CommentsOn(db, Ids(MemoTree(db, user)));
  }
}
