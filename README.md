# Comment-forest store, modelled in Dafny

This project models the global store of a client-side threaded comment board
(`src/app/store/index.ts`). The store holds three collections:

- `user`: users, appended at the end. It is called `users` here.
- `posts`: one post per comment, newest first.
- `comments`: a forest of comments. Every node embeds its post and its user
  and has an ordered list of replies. New comments and replies go to the
  front of their sibling list.

The model covers the operations `addUser`, `addPost`, `removeUser`,
`removePost`, `addComment` and `removeComment`. It also covers the helpers
inside them: the depth-first search `findParentComment`, the insertion walk
`setNestedComment` and the removal walk `findAndRemoveComment`.

Layout:

- `wrappers.dfy`: `Option`, which stands for the source's `undefined` results.
- `entities.dfy`: `User`, `Post` and `Comment`. `Comment` is the store's
  `PostedComment`, with `replies` for its optional `comments` list.
- `records.dfy`: the flat user and post lists. It holds the `find` searches,
  the `filter`-by-id removals and author resolution.
- `forest.dfy`: the forest as a value. It holds the pre-order traversal, the
  search, the two rewrites (insert a reply, cut a node out) and their lemmas.
- `store.dfy`: the class `GlobalStore`, with `seq` fields that its methods
  reassign. It also holds the two tree walks as methods with loops, each
  proved equal to its specification function in `forest.dfy`.

Fresh ids (`uuidv4()`) and clock readings (`dayjs().toISOString()`) are
parameters. The store invariant `Valid()` says that no comment id occurs
twice. The invariant holds because `addComment` requires its new id to be
absent. Under it, the strong properties hold: removal cuts exactly one
subtree, and insertion adds exactly one node. The walks are modelled as
written for every input, duplicates included, apart from a separate clock
reading per inserted copy. `setNestedComment` inserts
under every matching node that is not below another match.
`findAndRemoveComment` removes the first match in each sibling list it
reaches, and it searches the subtrees of the siblings it passed before that.

Three points where the store's code behaves other than a reader of its
interface might expect; the model follows the code:

- Removing a comment cuts it out together with its whole subtree. The
  descendants leave the forest; they are not left orphaned in place. Only
  the removed node's own post is deleted, so the posts of its descendants
  stay in `posts`.
- `removeUser` and `removePost` remove every entry that carries the id, not
  just one.
- The store has no `updateComment` operation, so the model has none.

## Model

| member | source | states |
|---|---|---|
| `Records.FirstNamed` | src/app/store/index.ts:107 | The result is a user in the list with the given name. It is absent exactly when no user has that name. |
| `Records.FirstNamedConcat` | src/app/store/index.ts:58 | Searching `a + b` by name finds in `a` first, and looks in `b` only when `a` has no match. So `addUser` returns an older user of the same name when one exists. |
| `Records.FirstWithContent` | src/app/store/index.ts:70 | The result is a post in the list with the given content. It is absent exactly when no post has that content. |
| `Records.FirstWithContentConcat` | src/app/store/index.ts:70 | Searching `a + b` by content finds in `a` first, and looks in `b` only when `a` has no match. So `find` returns the first post with the content; after `addPost` prepends its post, that is the new post. |
| `Records.UsersWithoutId` | src/app/store/index.ts:78 | A user is kept exactly when it was in the list and its id differs from the removed id. |
| `Records.UsersWithoutIdConcat` | src/app/store/index.ts:78 | The user filter distributes over concatenation, so the users it keeps stay in their order. |
| `Records.UsersWithoutAbsentId` | src/app/store/index.ts:78 | When no user carries the id, the user filter returns the list unchanged. |
| `Records.PostsWithoutId` | src/app/store/index.ts:219-221 | A post is kept exactly when it was in the list and its id differs from the removed id. So the posts of other comments, descendants included, stay when their post ids differ. |
| `Records.PostsWithoutIdConcat` | src/app/store/index.ts:89 | The post filter distributes over concatenation, so the posts it keeps stay in their order. |
| `Records.PostsWithoutAbsentId` | src/app/store/index.ts:218-222 | When no post carries the id, the post filter returns the list unchanged, which is why the `postIndex !== -1` guard changes nothing. |
| `Records.ResolveAuthor` | src/app/store/index.ts:107-133 | The resolved user has the author's name and is the first user with that name afterwards. An existing name leaves the users unchanged. A new name appends exactly one user, with the fresh id, at the end. |
| `Records.ResolveAuthorTwice` | src/app/store/index.ts:107 | Resolving the same name a second time reuses the same user and adds nobody. |
| `Forest.IdsFollowPreorder` | src/app/store/index.ts:116-128 | The forest's id list is the pre-order traversal's ids, position by position. |
| `Forest.FirstWithId` | src/app/store/index.ts:187 | `find` by id over a flat list, which returns the new root node: the result is an element with that id, and it is absent exactly when no element has that id. |
| `Forest.Find` | src/app/store/index.ts:112-129 | A found node carries the searched id. Nothing is found exactly when the id is not in the forest. |
| `Forest.FindIsFirstInPreorder` | src/app/store/index.ts:112-129 | The search returns the first node with the id in pre-order: a node before its replies, earlier siblings before later ones. |
| `Forest.FoundSubtreeInForest` | src/app/store/index.ts:136 | The node found is one of the forest's nodes, and every id in its subtree is an id of the forest. |
| `Forest.Pruned` | src/app/store/index.ts:205-237 | The reference removal: no root of the result carries the id, and the result has no more roots than the forest. `PrunedAbsent`, `PrunedShrinks`, `PrunedRemovesSubtree` and `RemoveFromPrunes` characterise it further. |
| `Forest.PrunedAbsent` | src/app/store/index.ts:208-232 | Cutting out an id the forest does not hold leaves the forest unchanged. |
| `Forest.PrunedShrinks` | src/app/store/index.ts:205-237 | Cutting a node out only removes ids, and no node with the cut id remains. |
| `Forest.PrunedRemovesSubtree` | src/app/store/index.ts:205-237 | With distinct ids and the id present, the ids removed are exactly those of the found node's subtree. Its former replies become unreachable. |
| `Forest.PrunedDistinct` | src/app/store/index.ts:224 | Cutting a node out keeps the comment ids distinct. |
| `Forest.Prepended` | src/app/store/index.ts:144-167 | `setNestedComment` as a function: the roots keep their number. `PrependedKeepsRoots`, `PrependedAbsent`, `PrependedIds` and `PrependedFindsParent` characterise it further, and `Store.SetNestedComment` is proved equal to it. |
| `Forest.PrependedKeepsRoots` | src/app/store/index.ts:144-167 | Inserting a reply keeps the roots' number and order, and every root field except the replies. |
| `Forest.PrependedAbsent` | src/app/store/index.ts:144-167 | When no node carries the parent id, inserting a reply changes nothing. |
| `Forest.PrependedIds` | src/app/store/index.ts:144-167 | With distinct ids and the parent present, the forest's ids grow by exactly the reply's subtree. |
| `Forest.PrependedFindsParent` | src/app/store/index.ts:146-158 | Afterwards the search finds the parent unchanged except that the reply is at the front of its replies. A missing list counts as empty. |
| `Forest.PrependedFindsReply` | src/app/store/index.ts:151-158 | A reply with a fresh id, inserted under a present parent, is found by the search afterwards. |
| `Forest.PrunedUndoesPrepended` | src/app/store/index.ts:144-167 | Cutting out a reply with a fresh id right after inserting it gives back the original forest, so nothing else changed. |
| `Forest.Placed` | src/app/store/index.ts:135-187 | When the parent id is given and found, the roots keep their number, order and fields apart from replies. Otherwise the new node is at index 0 of the roots and the old roots follow in their order. |
| `Forest.UngivenParentPlacesRoot` | src/app/store/index.ts:135 | The `if (parentId)` test (`ParentGiven`): an absent or empty parent id places the node at the front of the roots, even when some node carries the empty id. |
| `Forest.PlacedAddsOne` | src/app/store/index.ts:135-187 | With distinct ids, placing a new leaf with a fresh id adds exactly its id to the forest's ids. |
| `Forest.PlacedKeepsDistinct` | src/app/store/index.ts:135-187 | Placing a new leaf with a fresh id keeps ids distinct and raises the node count by exactly one. |
| `Forest.PlacedFindsNew` | src/app/store/index.ts:176-187 | The new node is found by its id wherever it was placed. |
| `Forest.RemoveFrom` | src/app/store/index.ts:205-233 | `findAndRemoveComment` as written: the sibling list never grows, the posts only lose entries, and a newly reported node carries the id. `RemoveFromAbsent` and `RemoveFromPrunes` relate it to `Pruned`, and `Store.GlobalStore.FindAndRemove` is proved equal to it. |
| `Forest.RemoveFromAbsent` | src/app/store/index.ts:208-232 | Removing an id the forest does not hold leaves the forest and the posts unchanged and finds nothing. |
| `Forest.RemoveFromPrunes` | src/app/store/index.ts:205-237 | With distinct ids and the id present, the removal walk cuts out the found node with its subtree. It keeps the other siblings' order, filters exactly the posts that carry the node's post id, and reports the node the search finds. |
| `Forest.RemoveTwiceFindsNothing` | src/app/store/index.ts:197-240 | With distinct ids, a second removal of the same id finds nothing and changes nothing. |
| `Forest.RemoveUndoesPlace` | src/app/store/index.ts:104-240 | Given distinct ids, a fresh comment id, a new leaf, and a new post whose id no existing post carries: removing the comment just added restores the forest and the posts, and it returns the added node. |
| `Forest.ReplyUnder` | src/app/store/index.ts:170-172 | The lookup `parentComment.comments?.find(...)`: a result carries the searched id and is a direct reply of the node the search finds for the parent id. |
| `Forest.ReplyLookupBeforeInsertIsEmpty` | src/app/store/index.ts:136-172 | Looking up a fresh reply among the replies of the parent as it was before the insertion finds nothing. |
| `Forest.ReplyLookupAfterInsert` | src/app/store/index.ts:170-172 | Looking up the reply under its parent in the forest after the insertion finds the reply. |
| `Store.SetNestedComment` | src/app/store/index.ts:144-167 | The loop over the siblings, recursing into replies, produces exactly the reply insertion `Prepended`. |
| `Store.GlobalStore.constructor` | src/app/store/index.ts:49-51 | The store starts with no users, posts or comments, and the invariant holds. |
| `Store.GlobalStore.AddUser` | src/app/store/index.ts:53-59 | One user with the fresh id is appended. The returned user has the name, and it is the older user of that name when one existed. |
| `Store.GlobalStore.AddPost` | src/app/store/index.ts:61-71 | A post with the fresh id, the content and the clock's time is prepended, and that post is returned. |
| `Store.GlobalStore.RemoveUser` | src/app/store/index.ts:73-82 | With the id present, every user carrying it is removed and the id is returned. Otherwise `""` is returned and nothing changes. |
| `Store.GlobalStore.RemovePost` | src/app/store/index.ts:84-93 | With the id present, every post carrying it is removed and the id is returned. Otherwise `""` is returned and nothing changes. |
| `Store.GlobalStore.AddComment` | src/app/store/index.ts:104-188 | Exactly one post with the content is prepended. The author is resolved as `ResolveAuthor` says. The returned node has the fresh id, the new post's id and embedded post, the resolved user, and no replies. The forest becomes `Placed`, and the ids stay distinct. |
| `Store.GlobalStore.FindAndRemove` | src/app/store/index.ts:205-233 | The indexed loop, recursing into the replies of the siblings it passes, produces exactly the removal `RemoveFrom`: the new sibling list, the store's new posts and the node found. |
| `Store.GlobalStore.RemoveComment` | src/app/store/index.ts:197-241 | The node the search finds is returned, and the forest becomes the old one with that subtree cut out. Exactly the posts with its post id are removed. When nothing is found, nothing changes. The ids stay distinct. |

## Findings

| source | as written | input that shows it | evidently intended | confidence | as-written member | corrected member |
|---|---|---|---|---|---|---|
| src/app/store/index.ts:170-172 | On the reply path, `addComment` returns `parentComment.comments?.find(c => c.id === id)`. `parentComment` was read at :136 from the state before `set`, and the immer update leaves that state untouched, so the lookup searches the parent's old replies. | Any forest with a node `p`, then `addComment(x, a, p.id)`. The new id is fresh, so it is not among `p`'s old replies and the result is `undefined`. | Return the new reply, as the doc comment at :102 says. | not executed; medium (rests on immer producing a new state without mutating the old one) | `Forest.ReplyLookupBeforeInsertIsEmpty` | `Forest.ReplyLookupAfterInsert` (`Store.GlobalStore.AddComment` returns the new node) |

## Left out

- Persistence (the `persist` middleware saving to local storage under `__comment-global-store`) is library code, so it is not modelled. Only the in-memory state is.
- The zustand/immer plumbing is not modelled. The store's `set` runs each update on a draft; here each update reassigns the class's `seq` fields.
- Nodes are values, not shared mutable objects. The source changes a node's `comments` array in place (`unshift`, reassignment). The model rebuilds the sibling list around the changed node instead. Aliasing between the returned objects and the store is not captured.
- `removeComment` returns `found`, which holds the draft of the removed node (index.ts:209, 212). Immer revokes its drafts when the update returns, so a caller could not read that object. The model returns the removed node as a plain value instead.
- A node whose `comments` list is absent is modelled like one with an empty list. Inside the store the two behave alike: the `if (comment.comments)` guards only skip a walk over an empty list, and `setNestedComment` creates the list before prepending. The model does not record whether a node has an absent list or an empty one. For example, after its last reply is removed a node keeps `comments: []`, and the comment view renders that differently from an absent list.
- `uuidv4()` and `dayjs()` are foreign calls, so they are parameters here. Only the new comment's id is required to be absent from the forest. Post and user ids are unconstrained, although `uuidv4()` would make them new. So the model admits a post id that is already in use. In that case `removeComment` deletes the older post with the same id as well. The post's time and the comment's time are two separate clock readings.
- The read selectors (`useGetComments`, `useAddComment`, `useRemoveComment`) only return store members, so they are not modelled.
- The UI is not modelled. That covers rendering, the editors, the expand/collapse state, the reply-depth limit, the HTML-to-component mapping and the collapse animation.
- The seed data is not modelled, because the store starts empty.
- The `User` and `Post` type files are not part of this model. Their fields follow the entity descriptions: a user has an id and a name, and a post has an id, content, a creation time and an optional update time.
