/**
 * The records the comment store keeps: users, posts and the comments that
 * form a forest of replies. A comment embeds its resolved post and user, as
 * the store's `PostedComment` shape does.
 */
module Entities {
  import opened Wrappers

  /** Identifiers are opaque strings (fresh ones come from a UUID generator). */
  type Id = string

  /** Timestamps are ISO-8601 strings produced by the clock. */
  type Timestamp = string

  datatype User = User(id: Id, name: string)

  datatype Post = Post(id: Id, content: string, createdAt: Timestamp, updatedAt: Option<Timestamp>)

  /**
   * A comment node. `replies` is the node's ordered child list (newest
   * first); a node whose child list is absent has no replies.
   */
  datatype Comment = Comment(
    id: Id,
    postId: Id,
    userId: Id,
    createdAt: Timestamp,
    updatedAt: Option<Timestamp>,
    post: Post,
    user: User,
    replies: seq<Comment>)
}
