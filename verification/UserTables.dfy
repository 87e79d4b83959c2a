/** The tables a user deletion touches, and which rows refer to a user or to a set of memos. */
module UserTables {
  import opened Results

  datatype Memo = Memo(uid: string, creator: int, content: string)
  datatype RelationType = Comment | Reference
  datatype Relation = Relation(memo: int, related: int, kind: RelationType)
  datatype Attachment = Attachment(creator: int, memo: Option<int>, reference: string, payload: Payload)
  datatype Payload = NoPayload | ReadablePayload(text: string) | MalformedPayload
  datatype Reaction = Reaction(creator: int, contentId: string, reaction: string)
  datatype Share = Share(memo: int, creator: int)
  datatype Identity = Identity(user: int, provider: string)

  /** The stored message of an inbox row: nothing, text that does not parse, a memo message
      with or without its payload, or a message of another type. */
  datatype Message =
    | NoMessage
    | Malformed
    | MemoMessage(payload: Option<MemoPayload>)  // MEMO_COMMENT or MEMO_MENTION
    | OtherMessage
  datatype MemoPayload = MemoPayload(memo: int, related: int)
  datatype Inbox = Inbox(sender: int, receiver: int, message: Message)

  datatype Tables = Tables(
    users: map<int, string>,
    memos: map<int, Memo>,
    relations: set<Relation>,
    attachments: map<int, Attachment>,
    reactions: map<int, Reaction>,
    shares: map<int, Share>,
    inboxes: map<int, Inbox>,
    identities: map<int, Identity>,
    settings: map<(int, string), string>)

  // The comment tree below a user's memos.

  function Roots(t: Tables, user: int): set<int> {
    set id | id in t.memos && t.memos[id].creator == user
  }

  /** The memos that comment on a memo of `parents`. */
  function Children(t: Tables, parents: set<int>): set<int> {
    set r | r in t.relations && r.kind == Comment && r.related in parents && r.memo in t.memos :: r.memo
  }

  ghost predicate Closed(t: Tables, memos: set<int>) {
    Children(t, memos) <= memos
  }

  /** `WITH RECURSIVE ... UNION`: rows found last are joined again until nothing new appears. */
  function Recurse(t: Tables, found: set<int>, last: set<int>): set<int>
    requires last <= found <= t.memos.Keys
    decreases t.memos.Keys - found, |last|
  {
    if last == {} then found
    else
      var new_ := Children(t, last) - found;
      Recurse(t, found + new_, new_)
  }

  function MemoTree(t: Tables, user: int): set<int> {
    Recurse(t, Roots(t, user), Roots(t, user))
  }

  /** `tree` is the least set that holds `start` and every comment on one of its memos. */
  ghost predicate IsLeastClosed(t: Tables, start: set<int>, tree: set<int>) {
    && start <= tree <= t.memos.Keys && Closed(t, tree)
    && forall other: set<int> :: start <= other && Closed(t, other) ==> tree <= other
  }

  lemma {:induction false} RecurseIsLeast(t: Tables, found: set<int>, last: set<int>)
    requires last <= found <= t.memos.Keys && Children(t, found - last) <= found
    ensures IsLeastClosed(t, found, Recurse(t, found, last))
    decreases t.memos.Keys - found, |last|
  {
    if last != {} {
      var new_ := Children(t, last) - found;
      var next := found + new_;
      RecurseIsLeast(t, next, new_);
      forall other: set<int> | found <= other && Closed(t, other) ensures next <= other {
        assert Children(t, last) <= Children(t, other);
      }
    } else {
      assert found - last == found;
    }
  }

  /** The recursive query computes the least fixpoint. */
  lemma MemoTreeIsLeastFixpoint(t: Tables, user: int)
    ensures IsLeastClosed(t, Roots(t, user), MemoTree(t, user))
  {
    assert Roots(t, user) - Roots(t, user) == {};
    RecurseIsLeast(t, Roots(t, user), Roots(t, user));
  }

  /** A chain of comments: every memo after the first comments on the one before it. */
  ghost predicate IsCommentChain(t: Tables, chain: seq<int>) {
    && |chain| > 0
    && (forall i :: 0 <= i < |chain| ==> chain[i] in t.memos)
    && (forall i :: 0 < i < |chain| ==> Relation(chain[i], chain[i - 1], Comment) in t.relations)
  }

  ghost predicate Reachable(t: Tables, user: int, memo: int) {
    exists chain: seq<int> :: IsCommentChain(t, chain) && chain[0] in Roots(t, user) && chain[|chain| - 1] == memo
  }

  lemma {:induction false} ChainStaysInTree(t: Tables, user: int, chain: seq<int>)
    requires IsCommentChain(t, chain) && chain[0] in Roots(t, user)
    ensures chain[|chain| - 1] in MemoTree(t, user)
    decreases |chain|
  {
    MemoTreeIsLeastFixpoint(t, user);
    if |chain| > 1 {
      ChainStaysInTree(t, user, chain[..|chain| - 1]);
      assert chain[|chain| - 1] in Children(t, MemoTree(t, user));
    }
  }

  lemma ReachedIsClosed(t: Tables, user: int, reached: set<int>)
    requires forall m :: m in reached <==> m in t.memos && Reachable(t, user, m)
    ensures Roots(t, user) <= reached && Closed(t, reached)
  {
    forall m | m in Roots(t, user) ensures m in reached {
      assert IsCommentChain(t, [m]) && [m][0] == m;
    }
    forall m | m in Children(t, reached) ensures m in reached {
      var r :| r in t.relations && r.kind == Comment && r.related in reached && r.memo == m;
      ExtendChain(t, user, r);
    }
  }

  lemma ExtendChain(t: Tables, user: int, r: Relation)
    requires Reachable(t, user, r.related) && r in t.relations && r.kind == Comment && r.memo in t.memos
    ensures Reachable(t, user, r.memo)
  {
    var chain: seq<int> :| IsCommentChain(t, chain) && chain[0] in Roots(t, user) && chain[|chain| - 1] == r.related;
    var longer := chain + [r.memo];
    assert IsCommentChain(t, longer);
    assert longer[0] == chain[0] && longer[|longer| - 1] == r.memo;
  }

  /** ... which is exactly what chains of comments reach from the user's memos. */
  lemma MemoTreeIsReachable(t: Tables, user: int, memo: int)
    ensures memo in MemoTree(t, user) <==> Reachable(t, user, memo)
  {
    hide MemoTree;
    if Reachable(t, user, memo) {
      var chain: seq<int> :| IsCommentChain(t, chain) && chain[0] in Roots(t, user) && chain[|chain| - 1] == memo;
      ChainStaysInTree(t, user, chain);
    }
    MemoTreeIsLeastFixpoint(t, user);
    hide Reachable;
    var reached := set m | m in t.memos.Keys && Reachable(t, user, m);
    ReachedIsClosed(t, user, reached);
  }

  // References.

  function ContentId(m: Memo): string { "memos/" + m.uid }

  function ContentIds(t: Tables, memos: set<int>): set<string> {
    set id | id in memos && id in t.memos :: ContentId(t.memos[id])
  }

  predicate AttachmentRefers(a: Attachment, users: set<int>, memos: set<int>) {
    a.creator in users || (a.memo.Some? && a.memo.value in memos)
  }

  predicate ReactionRefers(r: Reaction, users: set<int>, contentIds: set<string>) {
    r.creator in users || r.contentId in contentIds
  }

  predicate ShareRefers(s: Share, users: set<int>, memos: set<int>) {
    s.creator in users || s.memo in memos
  }

  /** A memo id of 0 in a message stands for no memo. */
  predicate NamesMemo(id: int, memos: set<int>) { id != 0 && id in memos }

  predicate MessageTouches(m: Message, memos: set<int>) {
    m.MemoMessage? && m.payload.Some? && (NamesMemo(m.payload.value.memo, memos) || NamesMemo(m.payload.value.related, memos))
  }

  predicate InboxRefers(i: Inbox, users: set<int>, memos: set<int>) {
    i.sender in users || i.receiver in users || MessageTouches(i.message, memos)
  }

  predicate RelationRefers(r: Relation, memos: set<int>) {
    r.memo in memos || r.related in memos
  }

  /** The tables without the users, the given memos, and every row that refers to them. */
  function Without(t: Tables, users: set<int>, memos: set<int>): Tables {
    Tables(
      map id | id in t.users && id !in users :: t.users[id],
      map id | id in t.memos && id !in memos :: t.memos[id],
      set r | r in t.relations && !RelationRefers(r, memos),
      map id | id in t.attachments && !AttachmentRefers(t.attachments[id], users, memos) :: t.attachments[id],
      map id | id in t.reactions && !ReactionRefers(t.reactions[id], users, ContentIds(t, memos)) :: t.reactions[id],
      map id | id in t.shares && !ShareRefers(t.shares[id], users, memos) :: t.shares[id],
      map id | id in t.inboxes && !InboxRefers(t.inboxes[id], users, memos) :: t.inboxes[id],
      map id | id in t.identities && t.identities[id].user !in users :: t.identities[id],
      map k | k in t.settings && k.0 !in users :: t.settings[k])
  }

  /** What a user deletion leaves. */
  function AfterDeletion(t: Tables, user: int): Tables {
    Without(t, {user}, MemoTree(t, user))
  }

  /** No row refers to one of the users or of the deleted memos. */
  ghost predicate NoReferences(t: Tables, users: set<int>, memos: set<int>, contentIds: set<string>) {
    && t.users.Keys !! users
    && (forall id :: id in t.memos ==> id !in memos && t.memos[id].creator !in users)
    && (forall r :: r in t.relations ==> !RelationRefers(r, memos))
    && (forall id :: id in t.attachments ==> !AttachmentRefers(t.attachments[id], users, memos))
    && (forall id :: id in t.reactions ==> !ReactionRefers(t.reactions[id], users, contentIds))
    && (forall id :: id in t.shares ==> !ShareRefers(t.shares[id], users, memos))
    && (forall id :: id in t.inboxes ==> !InboxRefers(t.inboxes[id], users, memos))
    && (forall id :: id in t.identities ==> t.identities[id].user !in users)
    && (forall k :: k in t.settings ==> k.0 !in users)
  }

  /** Integrity: afterwards nothing refers to the user or to a deleted memo; a memo survives
      exactly when no chain of comments leads to it from the user's memos, and no surviving
      memo comments on a deleted one. */
  lemma DeletionKeepsIntegrity(t: Tables, user: int)
    ensures var gone, s := MemoTree(t, user), AfterDeletion(t, user);
            && NoReferences(s, {user}, gone, ContentIds(t, gone))
            && (forall id :: id in t.memos ==> (id in s.memos <==> !Reachable(t, user, id)))
            && (forall r :: r in t.relations && r.kind == Comment && r.related in gone ==> r.memo !in s.memos)
  {
    hide Reachable, MemoTree;
    MemoTreeIsLeastFixpoint(t, user);
    forall id | id in t.memos ensures id in MemoTree(t, user) <==> Reachable(t, user, id) {
      MemoTreeIsReachable(t, user, id);
    }
    var gone := MemoTree(t, user);
    forall r | r in t.relations && r.kind == Comment && r.related in gone && r.memo in t.memos ensures r.memo in gone {
      assert r.memo in Children(t, gone);
    }
  }

  /** Exactness: in each of the nine tables a row survives, unchanged, exactly when its own columns
      name neither the user nor a memo of the tree. First the account's own rows and the memos. */
  lemma AccountRowsSurviveExactly(t: Tables, user: int)
    ensures var gone, s := MemoTree(t, user), AfterDeletion(t, user);
            && (forall id :: id in s.users <==> id in t.users && id != user)
            && (forall id :: id in s.identities <==> id in t.identities && t.identities[id].user != user)
            && (forall k :: k in s.settings <==> k in t.settings && k.0 != user)
            && (forall id :: id in s.memos <==> id in t.memos && id !in gone)
            && (forall r :: r in s.relations <==> r in t.relations && r.memo !in gone && r.related !in gone)
  {
    hide MemoTree;
  }

  lemma ContentSurvivesExactly(t: Tables, user: int)
    ensures var gone, s := MemoTree(t, user), AfterDeletion(t, user);
            && (forall id :: id in s.attachments <==>
                  id in t.attachments && t.attachments[id].creator != user
                  && (t.attachments[id].memo.Some? ==> t.attachments[id].memo.value !in gone))
            && (forall id :: id in s.reactions <==>
                  id in t.reactions && t.reactions[id].creator != user
                  && forall m :: m in gone && m in t.memos ==> t.reactions[id].contentId != "memos/" + t.memos[m].uid)
            && (forall id :: id in s.shares <==> id in t.shares && t.shares[id].creator != user && t.shares[id].memo !in gone)
  {
    hide MemoTree;
  }

  lemma InboxesSurviveExactly(t: Tables, user: int)
    ensures var gone, s := MemoTree(t, user), AfterDeletion(t, user);
            forall id :: id in s.inboxes <==>
              && id in t.inboxes && t.inboxes[id].sender != user && t.inboxes[id].receiver != user
              && (t.inboxes[id].message.MemoMessage? && t.inboxes[id].message.payload.Some? ==>
                    var p := t.inboxes[id].message.payload.value;
                    (p.memo == 0 || p.memo !in gone) && (p.related == 0 || p.related !in gone))
  {
    hide MemoTree;
  }

  lemma SurvivorsAreUnchanged(t: Tables, user: int)
    ensures Unchanged(t, AfterDeletion(t, user))
  {
    hide MemoTree, AttachmentRefers, ReactionRefers, ShareRefers, InboxRefers, RelationRefers;
  }

  /** Every row that is left has its value. */
  ghost predicate Unchanged(t: Tables, s: Tables) {
    && (forall id :: id in s.users ==> id in t.users && s.users[id] == t.users[id])
    && (forall id :: id in s.memos ==> id in t.memos && s.memos[id] == t.memos[id])
    && (forall id :: id in s.attachments ==> id in t.attachments && s.attachments[id] == t.attachments[id])
    && (forall id :: id in s.reactions ==> id in t.reactions && s.reactions[id] == t.reactions[id])
    && (forall id :: id in s.shares ==> id in t.shares && s.shares[id] == t.shares[id])
    && (forall id :: id in s.inboxes ==> id in t.inboxes && s.inboxes[id] == t.inboxes[id])
    && (forall id :: id in s.identities ==> id in t.identities && s.identities[id] == t.identities[id])
    && (forall k :: k in s.settings ==> k in t.settings && s.settings[k] == t.settings[k])
  }

  /** Deleting a user shrinks another user's tree by what was deleted, and by nothing else. */
  lemma TreeAfterDeletion(t: Tables, first: int, second: int)
    ensures MemoTree(AfterDeletion(t, first), second) == MemoTree(t, second) - MemoTree(t, first)
  {
    hide MemoTree;
    var s := AfterDeletion(t, first);
    var gone, tree, left := MemoTree(t, first), MemoTree(t, second), MemoTree(s, second);
    MemoTreeIsLeastFixpoint(t, first);
    MemoTreeIsLeastFixpoint(t, second);
    MemoTreeIsLeastFixpoint(s, second);
    assert Closed(s, tree - gone) by {
      assert Children(s, tree - gone) <= Children(t, tree);
    }
    assert Roots(s, second) <= tree - gone;
    assert Closed(t, left + gone) by {
      forall m | m in Children(t, left + gone) ensures m in left + gone {
        var r :| r in t.relations && r.kind == Comment && r.related in left + gone && r.memo == m;
        if r.related in gone {
          assert m in Children(t, gone);
        } else if m !in gone {
          assert m in Children(s, left);
        }
      }
    }
    assert Roots(t, second) <= left + gone;
  }

  /** Two users can be deleted in either order: the tables end up the same. */
  lemma DeletionsCommute(t: Tables, a: int, b: int)
    ensures AfterDeletion(AfterDeletion(t, a), b) == AfterDeletion(AfterDeletion(t, b), a)
  {
    hide MemoTree;
    TreeAfterDeletion(t, a, b);
    TreeAfterDeletion(t, b, a);
    var x, y := MemoTree(t, a), MemoTree(t, b);
    TwoDeletions(t, a, b, x, y);
    TwoDeletions(t, b, a, y, x);
    assert y + x == x + y && {b, a} == {a, b};
  }

  lemma TwoDeletions(t: Tables, a: int, b: int, x: set<int>, y: set<int>)
    ensures Without(Without(t, {a}, x), {b}, y - x) == Without(t, {a, b}, x + y)
  {
    MemoTablesTwice(t, a, b, x, y);
    ReferringTablesTwice(t, a, b, x, y);
    var l, r := Without(Without(t, {a}, x), {b}, y - x), Without(t, {a, b}, x + y);
    assert l.users == r.users;
    assert l.identities == r.identities && l.settings == r.settings;
  }

  lemma MemoTablesTwice(t: Tables, a: int, b: int, x: set<int>, y: set<int>)
    ensures var l, r := Without(Without(t, {a}, x), {b}, y - x), Without(t, {a, b}, x + y);
            l.memos == r.memos && l.relations == r.relations && l.reactions == r.reactions
  {
    hide ReactionRefers, ContentIds, AttachmentRefers, ShareRefers, InboxRefers;
    SplitContentIds(t, a, x, y);
    RefersSplits(a, b, x, y, ContentIds(t, x), ContentIds(Without(t, {a}, x), y - x));
  }

  lemma ReferringTablesTwice(t: Tables, a: int, b: int, x: set<int>, y: set<int>)
    ensures var l, r := Without(Without(t, {a}, x), {b}, y - x), Without(t, {a, b}, x + y);
            l.attachments == r.attachments && l.shares == r.shares && l.inboxes == r.inboxes
  {
    hide ReactionRefers, ContentIds, AttachmentRefers, ShareRefers, InboxRefers, RelationRefers;
    RefersSplits(a, b, x, y, {}, {});
  }

  /** A row refers to both users' data exactly when it refers to one user's, where the second
      user's memos and contents need not list those of the first again. */
  lemma RefersSplits(a: int, b: int, x: set<int>, y: set<int>, c: set<string>, e: set<string>)
    ensures forall r :: RelationRefers(r, x + y) <==> RelationRefers(r, x) || RelationRefers(r, y - x)
    ensures forall r :: AttachmentRefers(r, {a, b}, x + y) <==>
                        AttachmentRefers(r, {a}, x) || AttachmentRefers(r, {b}, y - x)
    ensures forall r :: ReactionRefers(r, {a, b}, c + e) <==> ReactionRefers(r, {a}, c) || ReactionRefers(r, {b}, e)
    ensures forall r :: ShareRefers(r, {a, b}, x + y) <==> ShareRefers(r, {a}, x) || ShareRefers(r, {b}, y - x)
    ensures forall r :: InboxRefers(r, {a, b}, x + y) <==> InboxRefers(r, {a}, x) || InboxRefers(r, {b}, y - x)
  {
  }

  lemma SplitContentIds(t: Tables, a: int, x: set<int>, y: set<int>)
    ensures ContentIds(t, x) + ContentIds(Without(t, {a}, x), y - x) == ContentIds(t, x + y)
  {
    var s := Without(t, {a}, x);
    forall id | id in t.memos && id in y - x ensures ContentId(t.memos[id]) in ContentIds(s, y - x) {
      assert id in s.memos && s.memos[id] == t.memos[id];
    }
  }
}
