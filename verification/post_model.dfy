/** The `posts` table: one immutable record per row, keyed by its primary key. */
module PostModel {
  import opened Common

  type PostId = nat

  /** A row of `posts`. `title`, `image_url` and `user_id` are NOT NULL columns and
      so plain strings; `description` is nullable; `tags` is the decoded JSON list. */
  datatype Post = Post(
    id: PostId,
    title: string,
    description: Option<string>,
    imageUrl: string,
    userId: string,
    tags: seq<string>,
    isActive: bool,
    lastImageCheck: Option<Time>,
    createdAt: Time)

  /** The table, from primary key to row. */
  type Store = map<PostId, Post>

  /** What a request handler leaves behind: the table after the request, and the
      response or the raised error. */
  datatype Reply<+T> = Reply(store: Store, result: Result<T>)

  /** The 404 detail of every endpoint that looks a post up by id. */
  const PostNotFound := "Post not found"

  /** Every row is filed under its own id, so ids are unique within the store. */
  predicate WellFormed(store: Store) {
    forall id :: id in store ==> store[id].id == id
  }

  /** The order in which the database happens to return the rows of a query with
      no `ORDER BY`: every row exactly once, in some order the model does not fix. */
  predicate IsRowOrder(store: Store, order: seq<PostId>) {
    && NoDup(order)
    && (forall id :: id in order ==> id in store)
    && (forall id :: id in store ==> id in order)
  }

  /** A freshly inserted row: the column defaults make it active and never checked,
      and the server default stamps its creation time. */
  function NewPost(id: PostId, title: string, description: Option<string>, imageUrl: string,
                   userId: string, tags: seq<string>, now: Time): (p: Post)
    ensures p.id == id && p.title == title && p.description == description
    ensures p.imageUrl == imageUrl && p.userId == userId && p.tags == tags
    ensures p.isActive
    ensures p.lastImageCheck == None
    ensures p.createdAt == now
  {
    Post(id, title, description, imageUrl, userId, tags, true, None, now)
  }

  /** Inserting a row under a fresh key keeps the store well formed and adds exactly that key. */
  lemma InsertFresh(store: Store, p: Post)
    requires p.id !in store
    ensures WellFormed(store) ==> WellFormed(store[p.id := p])
    ensures store[p.id := p].Keys == store.Keys + {p.id}
    ensures |store[p.id := p]| == |store| + 1
  {
  }
}
