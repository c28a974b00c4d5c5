/**
 * The store's two flat collections, users and posts: the searches the store
 * runs on them (`find` by name, content or id), the filters that remove
 * entries by id, and the resolution of a comment's author by name.
 */
module Records {
  import opened Wrappers
  import opened Entities

  /** The first user carrying `name`, as `user.find(u => u.name === name)` gives it. */
  function FirstNamed(users: seq<User>, name: string): (r: Option<User>)
    ensures r.Some? ==> r.value in users && r.value.name == name
    ensures r.None? <==> forall u :: u in users ==> u.name != name
  {
    if users == [] then None
    else if users[0].name == name then Some(users[0])
    else FirstNamed(users[1..], name)
  }

  /** Searching a concatenation finds in the first part before looking at the second. */
  lemma {:induction false} FirstNamedConcat(a: seq<User>, b: seq<User>, name: string)
    ensures FirstNamed(a + b, name) == if FirstNamed(a, name).Some? then FirstNamed(a, name) else FirstNamed(b, name)
  {
    if a == [] {
      assert a + b == b;
    } else {
      assert (a + b)[1..] == a[1..] + b;
      FirstNamedConcat(a[1..], b, name);
    }
  }

  /** The first post carrying `content`, as `posts.find(p => p.content === content)` gives it. */
  function FirstWithContent(posts: seq<Post>, content: string): (r: Option<Post>)
    ensures r.Some? ==> r.value in posts && r.value.content == content
    ensures r.None? <==> forall p :: p in posts ==> p.content != content
  {
    if posts == [] then None
    else if posts[0].content == content then Some(posts[0])
    else FirstWithContent(posts[1..], content)
  }

  /** Searching a concatenation by content finds in the first part before looking at the second. */
  lemma {:induction false} FirstWithContentConcat(a: seq<Post>, b: seq<Post>, content: string)
    ensures FirstWithContent(a + b, content) ==
            if FirstWithContent(a, content).Some? then FirstWithContent(a, content) else FirstWithContent(b, content)
  {
    if a == [] {
      assert a + b == b;
    } else {
      assert (a + b)[1..] == a[1..] + b;
      FirstWithContentConcat(a[1..], b, content);
    }
  }

  predicate HasUser(users: seq<User>, id: Id)
  {
    exists u :: u in users && u.id == id
  }

  predicate HasPost(posts: seq<Post>, id: Id)
  {
    exists p :: p in posts && p.id == id
  }

  /** `users.filter(u => u.id !== id)`. */
  function UsersWithoutId(users: seq<User>, id: Id): (r: seq<User>)
    ensures forall u :: u in r <==> u in users && u.id != id
    ensures |r| <= |users|
  {
    if users == [] then []
    else if users[0].id == id then UsersWithoutId(users[1..], id)
    else [users[0]] + UsersWithoutId(users[1..], id)
  }

  /** The filter keeps the relative order of what it keeps: it distributes over concatenation. */
  lemma {:induction false} UsersWithoutIdConcat(a: seq<User>, b: seq<User>, id: Id)
    ensures UsersWithoutId(a + b, id) == UsersWithoutId(a, id) + UsersWithoutId(b, id)
  {
    if a == [] {
      assert a + b == b;
    } else {
      assert (a + b)[1..] == a[1..] + b;
      UsersWithoutIdConcat(a[1..], b, id);
    }
  }

  /** With no entry carrying `id`, the filter changes nothing. */
  lemma {:induction false} UsersWithoutAbsentId(users: seq<User>, id: Id)
    requires !HasUser(users, id)
    ensures UsersWithoutId(users, id) == users
  {
    if users != [] {
      assert users[0] in users;
      UsersWithoutAbsentId(users[1..], id);
    }
  }

  /** `posts.filter(p => p.id !== id)`. */
  function PostsWithoutId(posts: seq<Post>, id: Id): (r: seq<Post>)
    ensures forall p :: p in r <==> p in posts && p.id != id
    ensures |r| <= |posts|
  {
    if posts == [] then []
    else if posts[0].id == id then PostsWithoutId(posts[1..], id)
    else [posts[0]] + PostsWithoutId(posts[1..], id)
  }

  /** The filter keeps the relative order of what it keeps: it distributes over concatenation. */
  lemma {:induction false} PostsWithoutIdConcat(a: seq<Post>, b: seq<Post>, id: Id)
    ensures PostsWithoutId(a + b, id) == PostsWithoutId(a, id) + PostsWithoutId(b, id)
  {
    if a == [] {
      assert a + b == b;
    } else {
      assert (a + b)[1..] == a[1..] + b;
      PostsWithoutIdConcat(a[1..], b, id);
    }
  }

  /** With no entry carrying `id`, the filter changes nothing. */
  lemma {:induction false} PostsWithoutAbsentId(posts: seq<Post>, id: Id)
    requires !HasPost(posts, id)
    ensures PostsWithoutId(posts, id) == posts
  {
    if posts != [] {
      assert posts[0] in posts;
      PostsWithoutAbsentId(posts[1..], id);
    }
  }

  /** The user list after resolving an author, and the user the comment is attributed to. */
  datatype Author = Author(users: seq<User>, user: User)

  /**
   * Author resolution of `addComment`: reuse the first user with the name, or
   * else append a new user with the fresh id (what `addUser` does) and use it.
   */
  function ResolveAuthor(users: seq<User>, name: string, freshId: Id): (r: Author)
    ensures r.user.name == name
    ensures FirstNamed(r.users, name) == Some(r.user)
    ensures FirstNamed(users, name).Some? ==> r.users == users
    ensures FirstNamed(users, name).None? ==> r.users == users + [User(freshId, name)] && r.user == User(freshId, name)
  {
    match FirstNamed(users, name)
    case Some(u) => Author(users, u)
    case None =>
      FirstNamedConcat(users, [User(freshId, name)], name);
      Author(users + [User(freshId, name)], User(freshId, name))
  }

  /** Resolving the same name again reuses the same user and adds nobody. */
  lemma ResolveAuthorTwice(users: seq<User>, name: string, id1: Id, id2: Id)
    ensures var first := ResolveAuthor(users, name, id1);
            ResolveAuthor(first.users, name, id2) == first
  {
  }
}
