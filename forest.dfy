/**
 * The comment forest as a value: its pre-order traversal, the search the
 * store runs over it, and the two rewrites it applies to it (inserting a
 * reply under a parent, and cutting a node out together with its subtree).
 */
module Forest {
  import opened Wrappers
  import opened Entities
  import opened Records

  /** Every node of the forest in pre-order: a node before its replies, earlier siblings before later ones. */
  function Preorder(f: seq<Comment>): seq<Comment>
  {
    if f == [] then [] else [f[0]] + Preorder(f[0].replies) + Preorder(f[1..])
  }

  /** The ids of all nodes of the forest, in pre-order. */
  function Ids(f: seq<Comment>): seq<Id>
  {
    if f == [] then [] else [f[0].id] + Ids(f[0].replies) + Ids(f[1..])
  }

  /** The ids are those of the pre-order traversal, position by position. */
  lemma {:induction false} IdsFollowPreorder(f: seq<Comment>)
    ensures |Ids(f)| == |Preorder(f)|
    ensures forall k :: 0 <= k < |Ids(f)| ==> Ids(f)[k] == Preorder(f)[k].id
  {
    if f != [] {
      IdsFollowPreorder(f[0].replies);
      IdsFollowPreorder(f[1..]);
    }
  }

  /** No id occurs twice. */
  ghost predicate Distinct(ids: seq<Id>)
  {
    forall x :: multiset(ids)[x] <= 1
  }

  /** Distinct ids split into distinct, pairwise disjoint parts. */
  lemma DistinctParts(x: Id, r: seq<Id>, t: seq<Id>)
    requires Distinct([x] + r + t)
    ensures Distinct(r) && Distinct(t)
    ensures x !in r && x !in t
    ensures forall y :: y in r ==> y !in t
  {
    var m := multiset([x] + r + t);
    assert m == multiset{x} + multiset(r) + multiset(t);
    forall y ensures multiset(r)[y] + multiset(t)[y] + (if y == x then 1 else 0) <= 1 {
      assert m[y] <= 1;
    }
    forall y | y in r ensures y !in t && y != x {
      assert multiset(r)[y] > 0;
    }
    assert multiset(t)[x] == 0;
  }

  /**
   * A non-empty forest with distinct ids splits into a head, its replies and
   * the later siblings; id `x` occurs in at most one of them.
   */
  lemma DistinctSplit(f: seq<Comment>, x: Id)
    requires f != [] && Distinct(Ids(f))
    ensures Distinct(Ids(f[0].replies)) && Distinct(Ids(f[1..]))
    ensures f[0].id !in Ids(f[0].replies) && f[0].id !in Ids(f[1..])
    ensures x in Ids(f[0].replies) ==> x !in Ids(f[1..])
  {
    DistinctParts(f[0].id, Ids(f[0].replies), Ids(f[1..]));
  }

  /** The first comment of a flat list carrying `id`, as `Array.prototype.find` gives it. */
  function FirstWithId(s: seq<Comment>, id: Id): (r: Option<Comment>)
    ensures r.Some? ==> r.value in s && r.value.id == id
    ensures r.None? <==> forall c :: c in s ==> c.id != id
  {
    if s == [] then None
    else if s[0].id == id then Some(s[0])
    else FirstWithId(s[1..], id)
  }

  lemma {:induction false} FirstWithIdConcat(a: seq<Comment>, b: seq<Comment>, id: Id)
    ensures FirstWithId(a + b, id) == if FirstWithId(a, id).Some? then FirstWithId(a, id) else FirstWithId(b, id)
  {
    if a == [] {
      assert a + b == b;
    } else {
      assert (a + b)[1..] == a[1..] + b;
      FirstWithIdConcat(a[1..], b, id);
    }
  }

  /**
   * `findParentComment`: depth-first search for the node carrying `id`,
   * testing a node before descending into its replies.
   */
  function Find(f: seq<Comment>, id: Id): (r: Option<Comment>)
    ensures r.Some? ==> r.value.id == id
    ensures r.None? <==> id !in Ids(f)
  {
    if f == [] then None
    else if f[0].id == id then Some(f[0])
    else match Find(f[0].replies, id)
      case Some(c) => Some(c)
      case None => Find(f[1..], id)
  }

  /** The search returns the first node carrying the id in pre-order, and nothing when none does. */
  lemma {:induction false} FindIsFirstInPreorder(f: seq<Comment>, id: Id)
    ensures Find(f, id) == FirstWithId(Preorder(f), id)
  {
    if f != [] {
      FindIsFirstInPreorder(f[0].replies, id);
      FindIsFirstInPreorder(f[1..], id);
      FirstWithIdConcat([f[0]] + Preorder(f[0].replies), Preorder(f[1..]), id);
      FirstWithIdConcat([f[0]], Preorder(f[0].replies), id);
    }
  }

  /** The node found lies in the forest, and so do all the ids of its subtree. */
  lemma {:induction false} FoundSubtreeInForest(f: seq<Comment>, id: Id)
    requires Find(f, id).Some?
    ensures Find(f, id).value in Preorder(f)
    ensures forall x :: x in Ids([Find(f, id).value]) ==> x in Ids(f)
  {
    var n := Find(f, id).value;
    if f[0].id == id {
      IdsOfNode(n);
    } else if Find(f[0].replies, id).Some? {
      FoundSubtreeInForest(f[0].replies, id);
    } else {
      FoundSubtreeInForest(f[1..], id);
    }
  }

  // ---------------------------------------------------------------------------
  // Cutting a node out

  /**
   * The forest with every node carrying `id` removed together with its
   * subtree; all other siblings keep their order. This is the reference
   * behaviour of comment removal when ids are distinct.
   */
  function Pruned(f: seq<Comment>, id: Id): (r: seq<Comment>)
    ensures |r| <= |f|
    ensures forall n :: n in r ==> n.id != id
  {
    if f == [] then []
    else if f[0].id == id then Pruned(f[1..], id)
    else [f[0].(replies := Pruned(f[0].replies, id))] + Pruned(f[1..], id)
  }

  lemma {:induction false} PrunedAbsent(f: seq<Comment>, id: Id)
    requires id !in Ids(f)
    ensures Pruned(f, id) == f
  {
    if f != [] {
      PrunedAbsent(f[0].replies, id);
      PrunedAbsent(f[1..], id);
      assert [f[0]] + f[1..] == f;
    }
  }

  /** Pruning only drops ids, and leaves none carrying the pruned id. */
  lemma {:induction false} PrunedShrinks(f: seq<Comment>, id: Id)
    ensures multiset(Ids(Pruned(f, id))) <= multiset(Ids(f))
    ensures id !in Ids(Pruned(f, id))
  {
    if f != [] {
      PrunedShrinks(f[0].replies, id);
      PrunedShrinks(f[1..], id);
      if f[0].id != id {
        var g := Pruned(f, id);
        assert g[0] == f[0].(replies := Pruned(f[0].replies, id));
        assert g[1..] == Pruned(f[1..], id);
      }
    }
  }

  /** The ids of a one-node forest: the node's id, then its subtree's. */
  lemma IdsOfNode(n: Comment)
    ensures Ids([n]) == [n.id] + Ids(n.replies)
  {
  }

  /** The ids of the subtree cut out when pruning `id`, as a multiset. */
  ghost function CutIds(f: seq<Comment>, id: Id): multiset<Id>
    requires id in Ids(f)
  {
    multiset(Ids([Find(f, id).value]))
  }

  /** Case of `PrunedRemovesSubtree`: the pruned id lies in the first root's replies. */
  lemma PrunedInReplies(f: seq<Comment>, id: Id)
    requires f != [] && f[0].id != id && id in Ids(f[0].replies) && Pruned(f[1..], id) == f[1..]
    requires multiset(Ids(Pruned(f[0].replies, id))) + CutIds(f[0].replies, id) == multiset(Ids(f[0].replies))
    ensures multiset(Ids(Pruned(f, id))) + CutIds(f, id) == multiset(Ids(f))
  {
  }

  /** Case of `PrunedRemovesSubtree`: the pruned id lies in the later roots. */
  lemma PrunedInLater(f: seq<Comment>, id: Id)
    requires f != [] && f[0].id != id && id !in Ids(f[0].replies) && id in Ids(f[1..])
    requires Pruned(f[0].replies, id) == f[0].replies
    requires multiset(Ids(Pruned(f[1..], id))) + CutIds(f[1..], id) == multiset(Ids(f[1..]))
    ensures multiset(Ids(Pruned(f, id))) + CutIds(f, id) == multiset(Ids(f))
  {
  }

  /** Pruning a present id in a forest with distinct ids removes exactly the ids of that node's subtree. */
  lemma {:induction false} PrunedRemovesSubtree(f: seq<Comment>, id: Id)
    requires Distinct(Ids(f)) && id in Ids(f)
    ensures multiset(Ids(Pruned(f, id))) + multiset(Ids([Find(f, id).value])) == multiset(Ids(f))
  {
    DistinctSplit(f, id);
    if f[0].id == id {
      PrunedAbsent(f[1..], id);
      assert [f[0]][1..] == [];
    } else if id in Ids(f[0].replies) {
      PrunedRemovesSubtree(f[0].replies, id);
      PrunedAbsent(f[1..], id);
      PrunedInReplies(f, id);
    } else {
      PrunedAbsent(f[0].replies, id);
      PrunedRemovesSubtree(f[1..], id);
      PrunedInLater(f, id);
    }
  }

  /** Pruning keeps a forest's ids distinct. */
  lemma PrunedDistinct(f: seq<Comment>, id: Id)
    requires Distinct(Ids(f))
    ensures Distinct(Ids(Pruned(f, id)))
  {
    PrunedShrinks(f, id);
    forall x ensures multiset(Ids(Pruned(f, id)))[x] <= 1 {
      assert multiset(Ids(Pruned(f, id)))[x] <= multiset(Ids(f))[x];
    }
  }

  // ---------------------------------------------------------------------------
  // Inserting a reply

  /**
   * `setNestedComment`: `reply` put at the front of the replies of every node
   * carrying `parentId` that is not itself below such a node. Roots keep
   * their order and all their fields but the replies.
   */
  function Prepended(f: seq<Comment>, parentId: Id, reply: Comment): (r: seq<Comment>)
    ensures |r| == |f|
  {
    if f == [] then []
    else
      var n := f[0];
      var n' := if n.id == parentId then n.(replies := [reply] + n.replies)
                else n.(replies := Prepended(n.replies, parentId, reply));
      [n'] + Prepended(f[1..], parentId, reply)
  }

  /** One step of the insertion walk over `f`: rewriting root `i` extends the finished prefix `done`. */
  lemma PrependedLoopStep(f: seq<Comment>, i: nat, parentId: Id, reply: Comment, done: seq<Comment>, updated: Comment)
    requires i < |f|
    requires Prepended(f, parentId, reply) == done + Prepended(f[i..], parentId, reply)
    requires updated == if f[i].id == parentId then f[i].(replies := [reply] + f[i].replies)
                        else f[i].(replies := Prepended(f[i].replies, parentId, reply))
    ensures Prepended(f, parentId, reply) == (done + [updated]) + Prepended(f[i + 1..], parentId, reply)
  {
  }

  /** The roots keep their number, their order and every field but their replies. */
  lemma {:induction false} PrependedKeepsRoots(f: seq<Comment>, parentId: Id, reply: Comment)
    ensures var r := Prepended(f, parentId, reply);
            |r| == |f| && forall i :: 0 <= i < |f| ==> r[i] == f[i].(replies := r[i].replies)
  {
    if f != [] {
      PrependedKeepsRoots(f[1..], parentId, reply);
      var r := Prepended(f, parentId, reply);
      assert r[1..] == Prepended(f[1..], parentId, reply);
      forall i | 1 <= i < |f| ensures r[i] == f[i].(replies := r[i].replies) {
        assert r[i] == r[1..][i - 1] && f[i] == f[1..][i - 1];
      }
    }
  }

  lemma {:induction false} PrependedAbsent(f: seq<Comment>, parentId: Id, reply: Comment)
    requires parentId !in Ids(f)
    ensures Prepended(f, parentId, reply) == f
  {
    if f != [] {
      PrependedAbsent(f[0].replies, parentId, reply);
      PrependedAbsent(f[1..], parentId, reply);
      assert [f[0]] + f[1..] == f;
    }
  }

  /** Case of `PrependedIds`: the parent is the first root and occurs nowhere else. */
  lemma PrependedIdsAtHead(f: seq<Comment>, parentId: Id, reply: Comment)
    requires f != [] && f[0].id == parentId && Prepended(f[1..], parentId, reply) == f[1..]
    ensures multiset(Ids(Prepended(f, parentId, reply))) == multiset(Ids(f)) + multiset(Ids([reply]))
  {
  }

  /** Case of `PrependedIds`: the first root is not the parent; the insertion happens below or after it. */
  lemma PrependedIdsPastHead(f: seq<Comment>, parentId: Id, reply: Comment, inReplies: multiset<Id>, inLater: multiset<Id>)
    requires f != [] && f[0].id != parentId
    requires multiset(Ids(Prepended(f[0].replies, parentId, reply))) == multiset(Ids(f[0].replies)) + inReplies
    requires multiset(Ids(Prepended(f[1..], parentId, reply))) == multiset(Ids(f[1..])) + inLater
    ensures multiset(Ids(Prepended(f, parentId, reply))) == multiset(Ids(f)) + inReplies + inLater
  {
  }

  /** With distinct ids and the parent present, the forest gains exactly the reply's subtree. */
  lemma {:induction false} PrependedIds(f: seq<Comment>, parentId: Id, reply: Comment)
    requires Distinct(Ids(f)) && parentId in Ids(f)
    ensures multiset(Ids(Prepended(f, parentId, reply))) == multiset(Ids(f)) + multiset(Ids([reply]))
  {
    DistinctSplit(f, parentId);
    var h, r := f[0].replies, f[1..];
    if f[0].id == parentId {
      PrependedAbsent(r, parentId, reply);
      PrependedIdsAtHead(f, parentId, reply);
    } else if parentId in Ids(h) {
      PrependedIds(h, parentId, reply);
      PrependedAbsent(r, parentId, reply);
      PrependedIdsPastHead(f, parentId, reply, multiset(Ids([reply])), multiset{});
    } else {
      PrependedAbsent(h, parentId, reply);
      PrependedIds(r, parentId, reply);
      PrependedIdsPastHead(f, parentId, reply, multiset{}, multiset(Ids([reply])));
    }
  }

  /** With distinct ids, searching for the parent afterwards finds it with the reply at the front of its replies. */
  lemma {:induction false} PrependedFindsParent(f: seq<Comment>, parentId: Id, reply: Comment)
    requires Distinct(Ids(f)) && parentId in Ids(f)
    ensures var n := Find(f, parentId).value;
            Find(Prepended(f, parentId, reply), parentId) == Some(n.(replies := [reply] + n.replies))
  {
    DistinctSplit(f, parentId);
    var g := Prepended(f, parentId, reply);
    assert g[1..] == Prepended(f[1..], parentId, reply);
    if f[0].id != parentId {
      if parentId in Ids(f[0].replies) {
        PrependedFindsParent(f[0].replies, parentId, reply);
      } else {
        PrependedAbsent(f[0].replies, parentId, reply);
        PrependedFindsParent(f[1..], parentId, reply);
      }
    }
  }

  /** A reply with a fresh id is found by the search once it has been inserted under a present parent. */
  lemma {:induction false} PrependedFindsReply(f: seq<Comment>, parentId: Id, reply: Comment)
    requires parentId in Ids(f) && reply.id !in Ids(f)
    ensures Find(Prepended(f, parentId, reply), reply.id) == Some(reply)
  {
    var g := Prepended(f, parentId, reply);
    assert g[1..] == Prepended(f[1..], parentId, reply);
    if f[0].id == parentId {
      assert g[0].replies == [reply] + f[0].replies;
    } else if parentId in Ids(f[0].replies) {
      PrependedFindsReply(f[0].replies, parentId, reply);
    } else {
      PrependedAbsent(f[0].replies, parentId, reply);
      PrependedFindsReply(f[1..], parentId, reply);
    }
  }

  /** Cutting out a freshly inserted reply gives back the forest it was inserted into. */
  lemma {:induction false} PrunedUndoesPrepended(f: seq<Comment>, parentId: Id, reply: Comment)
    requires reply.id !in Ids(f)
    ensures Pruned(Prepended(f, parentId, reply), reply.id) == f
  {
    if f != [] {
      var g := Prepended(f, parentId, reply);
      assert g[1..] == Prepended(f[1..], parentId, reply);
      PrunedUndoesPrepended(f[1..], parentId, reply);
      if f[0].id == parentId {
        var rs := [reply] + f[0].replies;
        assert rs[1..] == f[0].replies;
        PrunedAbsent(f[0].replies, reply.id);
      } else {
        PrunedUndoesPrepended(f[0].replies, parentId, reply);
      }
      assert [f[0]] + f[1..] == f;
    }
  }

  /** Every root's id is among the forest's ids. */
  lemma {:induction false} RootIdsInForest(f: seq<Comment>)
    ensures forall c :: c in f ==> c.id in Ids(f)
  {
    if f != [] {
      RootIdsInForest(f[1..]);
      forall c | c in f ensures c.id in Ids(f) {
        if c != f[0] {
          assert c in f[1..];
        }
      }
    }
  }

  // ---------------------------------------------------------------------------
  // Placing a new comment

  /** A parent id counts as given when it is present and not empty (`if (parentId)`). */
  predicate ParentGiven(parentId: Option<Id>)
  {
    parentId.Some? && parentId.value != ""
  }

  /**
   * The forest after `addComment` places node `c`: at the front of the parent's
   * replies when a parent id is given and found, otherwise at the front of
   * the roots.
   */
  function Placed(f: seq<Comment>, parentId: Option<Id>, c: Comment): (r: seq<Comment>)
    ensures ParentGiven(parentId) && parentId.value in Ids(f) ==>
              |r| == |f| && forall i :: 0 <= i < |f| ==> r[i] == f[i].(replies := r[i].replies)
    ensures !(ParentGiven(parentId) && parentId.value in Ids(f)) ==> |r| == |f| + 1 && r[0] == c && r[1..] == f
  {
    if ParentGiven(parentId) && Find(f, parentId.value).Some? then
      PrependedKeepsRoots(f, parentId.value, c);
      Prepended(f, parentId.value, c)
    else [c] + f
  }

  /**
   * A parent id that is absent or empty fails the `if (parentId)` test, so the
   * node becomes the first root even when some node carries the empty id.
   */
  lemma UngivenParentPlacesRoot(f: seq<Comment>, c: Comment)
    ensures Placed(f, None, c) == [c] + f
    ensures Placed(f, Some(""), c) == [c] + f
  {
  }

  /** Placing a leaf with a fresh id adds exactly that one id. */
  lemma PlacedAddsOne(f: seq<Comment>, parentId: Option<Id>, c: Comment)
    requires Distinct(Ids(f)) && c.id !in Ids(f) && c.replies == []
    ensures multiset(Ids(Placed(f, parentId, c))) == multiset(Ids(f)) + multiset{c.id}
  {
    var g := Placed(f, parentId, c);
    assert Ids([c]) == [c.id] + Ids([]) + Ids([]);
    if ParentGiven(parentId) && parentId.value in Ids(f) {
      PrependedIds(f, parentId.value, c);
    } else {
      assert g == [c] + f && g[1..] == f;
      assert Ids(g) == [c.id] + Ids([]) + Ids(f);
    }
  }

  /** Placing a leaf with a fresh id keeps ids distinct and grows the forest by exactly one node. */
  lemma PlacedKeepsDistinct(f: seq<Comment>, parentId: Option<Id>, c: Comment)
    requires Distinct(Ids(f)) && c.id !in Ids(f) && c.replies == []
    ensures Distinct(Ids(Placed(f, parentId, c)))
    ensures |Ids(Placed(f, parentId, c))| == |Ids(f)| + 1
  {
    var m, m' := multiset(Ids(f)), multiset(Ids(Placed(f, parentId, c)));
    PlacedAddsOne(f, parentId, c);
    assert m' == m + multiset{c.id};
    assert |m'| == |m| + 1;
    assert m[c.id] == 0;
    forall x ensures m'[x] <= 1 {
      assert m'[x] == m[x] + multiset{c.id}[x];
    }
  }

  /** The new comment can be found by its id wherever it was placed. */
  lemma PlacedFindsNew(f: seq<Comment>, parentId: Option<Id>, c: Comment)
    requires c.id !in Ids(f)
    ensures Find(Placed(f, parentId, c), c.id) == Some(c)
  {
    if ParentGiven(parentId) && parentId.value in Ids(f) {
      PrependedFindsReply(f, parentId.value, c);
    }
  }

  // ---------------------------------------------------------------------------
  // Removing a comment

  /** What one run of the removal leaves: the sibling list, the posts, and the node removed last. */
  datatype Removal = Removal(forest: seq<Comment>, posts: seq<Post>, found: Option<Comment>)

  /**
   * `findAndRemoveComment` over sibling list `f`: scan the siblings in order;
   * the first one carrying `id` is recorded as found, its post is filtered
   * out of `posts`, and it is dropped from the list, ending the scan; every
   * sibling passed before it has the removal applied to its replies first.
   */
  function RemoveFrom(f: seq<Comment>, id: Id, posts: seq<Post>, found: Option<Comment>): (r: Removal)
    ensures |r.forest| <= |f|
    ensures forall p :: p in r.posts ==> p in posts
    ensures r.found != found ==> r.found.Some? && r.found.value.id == id
  {
    if f == [] then Removal(f, posts, found)
    else if f[0].id == id then
      var posts' := if HasPost(posts, f[0].postId) then PostsWithoutId(posts, f[0].postId) else posts;
      Removal(f[1..], posts', Some(f[0]))
    else
      var inner := RemoveFrom(f[0].replies, id, posts, found);
      var rest := RemoveFrom(f[1..], id, inner.posts, inner.found);
      Removal([f[0].(replies := inner.forest)] + rest.forest, rest.posts, rest.found)
  }

  /** Removing an id the forest does not hold changes nothing and finds nothing. */
  lemma {:induction false} RemoveFromAbsent(f: seq<Comment>, id: Id, posts: seq<Post>, found: Option<Comment>)
    requires id !in Ids(f)
    ensures RemoveFrom(f, id, posts, found) == Removal(f, posts, found)
  {
    if f != [] {
      RemoveFromAbsent(f[0].replies, id, posts, found);
      RemoveFromAbsent(f[1..], id, posts, found);
      assert [f[0]] + f[1..] == f;
    }
  }

  /**
   * With distinct ids, removing a present id cuts that node out with its
   * whole subtree, filters exactly the posts carrying its post id, and
   * reports the node the search finds.
   */
  lemma {:induction false} RemoveFromPrunes(f: seq<Comment>, id: Id, posts: seq<Post>, found: Option<Comment>)
    requires Distinct(Ids(f)) && id in Ids(f)
    ensures var n := Find(f, id).value;
            RemoveFrom(f, id, posts, found) == Removal(Pruned(f, id), PostsWithoutId(posts, n.postId), Some(n))
  {
    DistinctSplit(f, id);
    if f[0].id == id {
      PrunedAbsent(f[1..], id);
      if !HasPost(posts, f[0].postId) {
        PostsWithoutAbsentId(posts, f[0].postId);
      }
    } else if id in Ids(f[0].replies) {
      RemoveFromPrunes(f[0].replies, id, posts, found);
      var inner := RemoveFrom(f[0].replies, id, posts, found);
      RemoveFromAbsent(f[1..], id, inner.posts, inner.found);
      PrunedAbsent(f[1..], id);
    } else {
      RemoveFromAbsent(f[0].replies, id, posts, found);
      PrunedAbsent(f[0].replies, id);
      RemoveFromPrunes(f[1..], id, posts, found);
    }
  }

  /** With distinct ids, a second removal of the same id finds nothing and changes nothing. */
  lemma RemoveTwiceFindsNothing(f: seq<Comment>, id: Id, posts: seq<Post>)
    requires Distinct(Ids(f))
    ensures var first := RemoveFrom(f, id, posts, None);
            RemoveFrom(first.forest, id, first.posts, None) == Removal(first.forest, first.posts, None)
  {
    var first := RemoveFrom(f, id, posts, None);
    if id in Ids(f) {
      RemoveFromPrunes(f, id, posts, None);
      PrunedShrinks(f, id);
    } else {
      RemoveFromAbsent(f, id, posts, None);
    }
    RemoveFromAbsent(first.forest, id, first.posts, None);
  }

  /**
   * Removing a comment just added restores the forest and the posts and
   * reports the added node: removal undoes `addComment` except for an author
   * it created.
   */
  lemma RemoveUndoesPlace(f: seq<Comment>, parentId: Option<Id>, c: Comment, post: Post, posts: seq<Post>)
    requires Distinct(Ids(f)) && c.id !in Ids(f) && c.replies == []
    requires c.postId == post.id && !HasPost(posts, post.id)
    ensures RemoveFrom(Placed(f, parentId, c), c.id, [post] + posts, None) == Removal(f, posts, Some(c))
  {
    var g := Placed(f, parentId, c);
    PlacedKeepsDistinct(f, parentId, c);
    PlacedFindsNew(f, parentId, c);
    RemoveFromPrunes(g, c.id, [post] + posts, None);
    if ParentGiven(parentId) && parentId.value in Ids(f) {
      PrunedUndoesPrepended(f, parentId.value, c);
    } else {
      assert g[1..] == f;
      PrunedAbsent(f, c.id);
    }
    PostsWithoutIdConcat([post], posts, post.id);
    PostsWithoutAbsentId(posts, post.id);
  }

  // ---------------------------------------------------------------------------
  // The value `addComment` returns on the reply path

  /** The node carrying `id` among the direct replies of the node `parentId`, searched for in forest `f`. */
  function ReplyUnder(f: seq<Comment>, parentId: Id, id: Id): (r: Option<Comment>)
    ensures r.Some? ==> r.value.id == id && Find(f, parentId).Some? && r.value in Find(f, parentId).value.replies
  {
    match Find(f, parentId)
    case Some(p) => FirstWithId(p.replies, id)
    case None => None
  }

  /**
   * As written, the reply path looks the new reply up in the parent as read
   * before the insertion, where a fresh id cannot be: it returns nothing.
   */
  lemma ReplyLookupBeforeInsertIsEmpty(before: seq<Comment>, parentId: Id, c: Comment)
    requires c.id !in Ids(before)
    ensures ReplyUnder(before, parentId, c.id) == None
  {
    if Find(before, parentId).Some? {
      var p := Find(before, parentId).value;
      FoundSubtreeInForest(before, parentId);
      RootIdsInForest(p.replies);
      IdsOfNode(p);
    }
  }

  /** Looked up in the forest after the insertion, the reply is found under its parent. */
  lemma ReplyLookupAfterInsert(f: seq<Comment>, parentId: Id, c: Comment)
    requires Distinct(Ids(f)) && parentId in Ids(f)
    ensures ReplyUnder(Prepended(f, parentId, c), parentId, c.id) == Some(c)
  {
    PrependedFindsParent(f, parentId, c);
  }
}
