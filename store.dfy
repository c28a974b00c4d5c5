/**
 * The global comment store: three collections the operations update in
 * place, users (appended), posts (newest first) and the comment forest
 * (newest first at every level). Fresh ids and clock readings, which the
 * store draws from a UUID generator and the clock, are parameters here.
 */
module Store {
  import opened Wrappers
  import opened Entities
  import opened Records
  import opened Forest

  /**
   * `setNestedComment`: walk the sibling list and put `reply` at the front of
   * the replies of each node carrying `parentId`, descending into the
   * replies of every other node.
   */
  method SetNestedComment(comments: seq<Comment>, parentId: Id, reply: Comment) returns (r: seq<Comment>)
    ensures r == Prepended(comments, parentId, reply)
    decreases comments
  {
    r := [];
    var i := 0;
    while i < |comments|
      invariant 0 <= i <= |comments|
      invariant Prepended(comments, parentId, reply) == r + Prepended(comments[i..], parentId, reply)
    {
      var n := comments[i];
      var updated: Comment;
      if n.id == parentId {
        updated := n.(replies := [reply] + n.replies);
      } else {
        var nested := SetNestedComment(n.replies, parentId, reply);
        updated := n.(replies := nested);
      }
      PrependedLoopStep(comments, i, parentId, reply, r, updated);
      r := r + [updated];
      i := i + 1;
    }
  }

  class GlobalStore {
    var users: seq<User>
    var posts: seq<Post>
    var comments: seq<Comment>

    /** Comment ids are never reused: every id occurs at most once in the forest. */
    ghost predicate Valid()
      reads this`comments
    {
      Distinct(Ids(comments))
    }

    /** The store starts empty. */
    constructor ()
      ensures Valid()
      ensures users == [] && posts == [] && comments == []
    {
      users, posts, comments := [], [], [];
    }

    /**
     * `addUser`: append a user with a fresh id, then return the first user
     * with that name, which is an older one when the name was taken.
     */
    method AddUser(name: string, freshId: Id) returns (u: User)
      modifies this`users
      ensures users == old(users) + [User(freshId, name)]
      ensures u.name == name && u in users
      ensures u == FirstNamed(old(users), name).GetOr(User(freshId, name))
    {
      users := users + [User(freshId, name)];
      FirstNamedConcat(old(users), [User(freshId, name)], name);
      u := FirstNamed(users, name).value;
    }

    /**
     * `addPost`: put a post with a fresh id and the clock's time at the front
     * of the posts, then return the first post with that content: the new one.
     */
    method AddPost(content: string, freshId: Id, now: Timestamp) returns (p: Post)
      modifies this`posts
      ensures posts == [Post(freshId, content, now, None)] + old(posts)
      ensures p == Post(freshId, content, now, None)
    {
      posts := [Post(freshId, content, now, None)] + posts;
      p := FirstWithContent(posts, content).value;
    }

    /** `removeUser`: drop every user carrying `id` and return `id`, or return "" and change nothing. */
    method RemoveUser(id: Id) returns (r: Id)
      modifies this`users
      ensures HasUser(old(users), id) ==> r == id && users == UsersWithoutId(old(users), id)
      ensures !HasUser(old(users), id) ==> r == "" && users == old(users)
    {
      if !HasUser(users, id) {
        return "";
      }
      users := UsersWithoutId(users, id);
      r := id;
    }

    /** `removePost`: drop every post carrying `id` and return `id`, or return "" and change nothing. */
    method RemovePost(id: Id) returns (r: Id)
      modifies this`posts
      ensures HasPost(old(posts), id) ==> r == id && posts == PostsWithoutId(old(posts), id)
      ensures !HasPost(old(posts), id) ==> r == "" && posts == old(posts)
    {
      if !HasPost(posts, id) {
        return "";
      }
      posts := PostsWithoutId(posts, id);
      r := id;
    }

    /**
     * `addComment`: create the post, resolve the author by name (creating the
     * user when there is none), and put the new node at the front of the
     * parent's replies when `parentId` is given and found, or at the front of
     * the roots otherwise. Returns the new node.
     */
    method AddComment(content: string, author: string, parentId: Option<Id>,
                      newId: Id, postId: Id, userId: Id, postTime: Timestamp, commentTime: Timestamp)
      returns (c: Comment)
      requires Valid()
      requires newId !in Ids(comments)
      modifies this`users, this`posts, this`comments
      ensures Valid()
      ensures posts == [Post(postId, content, postTime, None)] + old(posts)
      ensures Author(users, c.user) == ResolveAuthor(old(users), author, userId)
      ensures c == Comment(newId, postId, c.user.id, commentTime, None, posts[0], c.user, [])
      ensures comments == Placed(old(comments), parentId, c)
    {
      var post := AddPost(content, postId, postTime);
      var existing := FirstNamed(users, author);
      var user: User;
      if existing.Some? {
        user := existing.value;
      } else {
        user := AddUser(author, userId);
      }
      c := Comment(newId, post.id, user.id, commentTime, None, post, user, []);
      PlacedKeepsDistinct(old(comments), parentId, c);
      if ParentGiven(parentId) {
        var parent := Find(comments, parentId.value);
        if parent.Some? {
          comments := SetNestedComment(comments, parentId.value, c);
          return;
        }
      }
      comments := [c] + comments;
      c := FirstWithId(comments, newId).value;
    }

    /**
     * `findAndRemoveComment`: scan sibling list `siblings` by index; drop the
     * first node carrying `id`, record it and filter its post out of the
     * store's posts; before that, run the removal on the replies of each node
     * passed.
     */
    method FindAndRemove(siblings: seq<Comment>, id: Id, found0: Option<Comment>)
      returns (r: seq<Comment>, found: Option<Comment>)
      modifies this`posts
      ensures Removal(r, posts, found) == RemoveFrom(siblings, id, old(posts), found0)
      decreases siblings
    {
      var done: seq<Comment> := [];
      found := found0;
      var i := 0;
      while i < |siblings|
        invariant 0 <= i <= |siblings|
        invariant var rest := RemoveFrom(siblings[i..], id, posts, found);
                  RemoveFrom(siblings, id, old(posts), found0) == Removal(done + rest.forest, rest.posts, rest.found)
      {
        var n := siblings[i];
        assert siblings[i..][1..] == siblings[i + 1..];
        if n.id == id {
          found := Some(n);
          if HasPost(posts, n.postId) {
            posts := PostsWithoutId(posts, n.postId);
          }
          r := done + siblings[i + 1..];
          return;
        }
        var nested;
        nested, found := FindAndRemove(n.replies, id, found);
        done := done + [n.(replies := nested)];
        i := i + 1;
      }
      assert siblings[i..] == [];
      r := done;
    }

    /**
     * `removeComment`: cut the node carrying `id` out of the forest with its
     * subtree and filter its post out of the posts; return the node, or
     * nothing (changing nothing) when no node carries `id`.
     */
    method RemoveComment(id: Id) returns (found: Option<Comment>)
      requires Valid()
      modifies this`posts, this`comments
      ensures Valid()
      ensures Removal(comments, posts, found) == RemoveFrom(old(comments), id, old(posts), None)
      ensures found == Find(old(comments), id)
      ensures comments == Pruned(old(comments), id)
      ensures found.Some? ==> posts == PostsWithoutId(old(posts), found.value.postId)
      ensures found.None? ==> posts == old(posts) && comments == old(comments)
    {
      ghost var before, postsBefore := comments, posts;
      var c;
      c, found := FindAndRemove(comments, id, None);
      comments := c;
      assert Removal(comments, posts, found) == RemoveFrom(before, id, postsBefore, None);
      if id in Ids(before) {
        RemoveFromPrunes(before, id, postsBefore, None);
      } else {
        RemoveFromAbsent(before, id, postsBefore, None);
        PrunedAbsent(before, id);
      }
      PrunedDistinct(before, id);
    }
  }

  /**
   * A caller's view of the contracts: post a root comment, reply to it, then
   * remove the root. The forest empties, and only the reply's post is left.
   */
  method RootReplyRemoveScenario()
  {
    var store := new GlobalStore();
    var root := store.AddComment("<p>Hi</p>", "Ann", None, "c1", "p1", "u1", "t1", "t2");
    assert store.comments == [root];
    assert root.user == User("u1", "Ann") && root.post.content == "<p>Hi</p>";
    assert Ids(store.comments) == ["c1"];
    assert Find([root], "c1") == Some(root);
    var reply := store.AddComment("<p>Hey</p>", "Bo", Some("c1"), "c2", "p2", "u2", "t3", "t4");
    assert Prepended([root], "c1", reply) == [root.(replies := [reply])] by {
      assert [root][1..] == [];
      assert [reply] + root.replies == [reply];
    }
    assert store.comments == [root.(replies := [reply])];
    assert reply.user == User("u2", "Bo");
    assert store.posts == [reply.post, root.post];
    var removed := store.RemoveComment("c1");
    assert removed == Some(root.(replies := [reply]));
    assert store.comments == [];
    assert store.posts == [reply.post];
  }
}
