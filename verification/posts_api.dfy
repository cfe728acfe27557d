/** Post CRUD: the filtered, paginated listing and the single-post endpoints
    (backend/app/api/posts.py). */
module PostsApi {
  import opened Common
  import opened PostModel
  import Sorting

  const MaxPerPage := 1000

  const NotAuthorizedToEdit := "Not authorized to edit this post"
  const NotAuthorizedToDelete := "Not authorized to delete this post"
  const InvalidDateFormat := "Invalid date format. Use ISO format (YYYY-MM-DDTHH:MM:SSZ)"
  /** Request validation (a missing required header or an out-of-range query value)
      fails before the handler runs. */
  const ValidationFailed := "Request validation failed"

  /** A post as the API returns it: the row plus `author`, always equal to `user_id`. */
  datatype PostView = PostView(post: Post, author: string)

  function View(p: Post): (v: PostView)
    ensures v.post == p && v.author == p.userId
  {
    PostView(p, p.userId)
  }

  /** `PaginatedResponse`. */
  datatype Page = Page(items: seq<PostView>, total: nat, page: nat, perPage: nat, totalPages: nat)

  // ---------------------------------------------------------------------------
  // Listing

  /** `s.replace('Z', '+00:00')`. */
  function ReplaceZ(s: string): (r: string)
    ensures 'Z' !in s ==> r == s
    ensures 'Z' !in r
  {
    if |s| == 0 then ""
    else (if s[0] == 'Z' then "+00:00" else [s[0]]) + ReplaceZ(s[1..])
  }

  /** The replacement works character by character: a text is rewritten piecewise. */
  lemma {:induction false} ReplaceZConcat(a: string, b: string)
    ensures ReplaceZ(a + b) == ReplaceZ(a) + ReplaceZ(b)
    decreases |a|
  {
    if |a| == 0 {
      assert a + b == b;
    } else {
      assert (a + b)[0] == a[0];
      assert (a + b)[1..] == a[1..] + b;
      ReplaceZConcat(a[1..], b);
    }
  }

  /** Each `Z` becomes `+00:00`, and every other character stays. */
  lemma ReplaceZOfChar(c: char)
    ensures ReplaceZ([c]) == if c == 'Z' then "+00:00" else [c]
  {
  }

  /** The listing filter: active posts only, then the optional owner filter and the
      optional strict lower bound on the creation time. */
  predicate Listed(p: Post, owner: Option<string>, after: Option<Time>)
    ensures Listed(p, owner, after) ==> p.isActive
    ensures owner.None? && after.None? ==> (Listed(p, owner, after) <==> p.isActive)
    ensures owner.Some? && p.userId != owner.value ==> !Listed(p, owner, after)
    ensures after.Some? && p.createdAt <= after.value ==> !Listed(p, owner, after)
    ensures p.isActive && (owner.Some? ==> p.userId == owner.value) && (after.Some? ==> p.createdAt > after.value) ==>
      Listed(p, owner, after)
  {
    && p.isActive
    && (owner.Some? ==> p.userId == owner.value)
    && (after.Some? ==> p.createdAt > after.value)
  }

  /** Ids of the listed rows, in row order. */
  function ListedIds(store: Store, order: seq<PostId>, owner: Option<string>, after: Option<Time>): (ids: seq<PostId>)
    ensures forall id :: id in ids <==> id in order && id in store && Listed(store[id], owner, after)
    ensures NoDup(order) ==> NoDup(ids)
  {
    if |order| == 0 then []
    else
      var rest := ListedIds(store, order[1..], owner, after);
      assert forall id :: id in order[1..] ==> id in order;
      if order[0] in store && Listed(store[order[0]], owner, after) then
        assert NoDup(order) ==> order[0] !in order[1..];
        [order[0]] + rest
      else
        rest
  }

  /** The ids of every listed row, as a set. */
  function ListedSet(store: Store, owner: Option<string>, after: Option<Time>): set<PostId> {
    set id | id in store && Listed(store[id], owner, after)
  }

  function CreatedAt(p: Post): int {
    p.createdAt
  }

  /** The rows behind a list of ids, in the same order. */
  function Rows(store: Store, ids: seq<PostId>): (rows: seq<Post>)
    requires forall id :: id in ids ==> id in store
    ensures |rows| == |ids|
    ensures forall i :: 0 <= i < |ids| ==> rows[i] == store[ids[i]]
  {
    seq(|ids|, i requires 0 <= i < |ids| => store[ids[i]])
  }

  /** The listed rows, before sorting, are exactly the listed rows of the table. */
  lemma ListedRows(store: Store, order: seq<PostId>, owner: Option<string>, after: Option<Time>)
    requires WellFormed(store)
    requires IsRowOrder(store, order)
    ensures var rows := Rows(store, ListedIds(store, order, owner, after));
      && |rows| == |ListedSet(store, owner, after)|
      && (forall p :: p in rows ==> p.id in store && store[p.id] == p && Listed(p, owner, after))
      && (forall id :: id in store && Listed(store[id], owner, after) ==> store[id] in rows)
  {
    var ids := ListedIds(store, order, owner, after);
    var rows := Rows(store, ids);
    assert Elements(ids) == ListedSet(store, owner, after);
    ElementsCard(ids);
    forall p | p in rows ensures p.id in store && store[p.id] == p && Listed(p, owner, after) {
      var k :| 0 <= k < |rows| && rows[k] == p;
      assert ids[k] in ids;
    }
    forall id | id in store && Listed(store[id], owner, after) ensures store[id] in rows {
      var k :| 0 <= k < |ids| && ids[k] == id;
      assert rows[k] == store[id];
    }
  }

  /** All listed rows, newest first (rows with equal creation times stay in row order). */
  function Listing(store: Store, order: seq<PostId>, owner: Option<string>, after: Option<Time>): (l: seq<Post>)
    requires WellFormed(store)
    requires IsRowOrder(store, order)
    ensures Sorting.SortedDesc(l, CreatedAt)
    ensures |l| == |ListedSet(store, owner, after)|
    ensures forall i :: 0 <= i < |l| ==> l[i].id in store && store[l[i].id] == l[i] && Listed(l[i], owner, after)
    ensures forall id :: id in store && Listed(store[id], owner, after) ==> store[id] in l
  {
    var rows := Rows(store, ListedIds(store, order, owner, after));
    ListedRows(store, order, owner, after);
    var l := Sorting.SortDesc(rows, CreatedAt);
    SameMembers(l, rows);
    assert forall i :: 0 <= i < |l| ==> l[i] in rows by {
      forall i | 0 <= i < |l| ensures l[i] in rows {
        assert l[i] in l;
      }
    }
    l
  }

  /** `math.ceil(total / per_page)`. */
  function CeilDiv(total: nat, perPage: nat): (pages: nat)
    requires perPage >= 1
    ensures total == 0 ==> pages == 0
    ensures pages * perPage >= total
    ensures pages > 0 ==> (pages - 1) * perPage < total
  {
    var q := (total + perPage - 1) / perPage;
    DivMod(total + perPage - 1, perPage);
    MulSucc(q, perPage);
    assert q * perPage + perPage > total;
    assert (q - 1) * perPage == q * perPage - perPage;
    q
  }

  /** The offset of a page: `(page - 1) * per_page`. */
  function PageStart(page: nat, perPage: nat): nat
    requires page >= 1
  {
    (page - 1) * perPage
  }

  /** `.offset((page - 1) * per_page).limit(per_page)`. */
  function PageSlice<T>(xs: seq<T>, page: nat, perPage: nat): (r: seq<T>)
    requires page >= 1 && perPage >= 1
    ensures var start := PageStart(page, perPage);
      && (start >= |xs| ==> |r| == 0)
      && (start < |xs| ==> |r| == if |xs| - start < perPage then |xs| - start else perPage)
      && forall i :: 0 <= i < |r| ==> r[i] == xs[start + i]
  {
    var start := PageStart(page, perPage);
    if start >= |xs| then []
    else if |xs| - start < perPage then xs[start..]
    else xs[start..start + perPage]
  }

  /** The query parameters' validated ranges (`page >= 1`, `1 <= per_page <= 1000`). */
  predicate ValidPaging(page: int, perPage: int) {
    page >= 1 && 1 <= perPage <= MaxPerPage
  }

  /** One page of the listing under the given filters. */
  function ListPage(store: Store, order: seq<PostId>, page: nat, perPage: nat, owner: Option<string>, after: Option<Time>): (r: Page)
    requires WellFormed(store)
    requires IsRowOrder(store, order)
    requires ValidPaging(page, perPage)
    ensures var listing := Listing(store, order, owner, after);
      var start := PageStart(page, perPage);
      && r.page == page && r.perPage == perPage
      && r.total == |ListedSet(store, owner, after)|
      && r.totalPages == CeilDiv(r.total, perPage)
      && |r.items| <= perPage && (|r.items| > 0 ==> start + |r.items| <= |listing|)
      && (forall i :: 0 <= i < |r.items| ==> r.items[i] == View(listing[start + i]))
      && (start < |listing| ==> |r.items| == if |listing| - start < perPage then |listing| - start else perPage)
      && (forall i :: 0 <= i < |r.items| ==> r.items[i].author == r.items[i].post.userId && Listed(r.items[i].post, owner, after))
  {
    var listing := Listing(store, order, owner, after);
    Page(Views(PageSlice(listing, page, perPage)), |listing|, page, perPage, CeilDiv(|listing|, perPage))
  }

  /** The response items for a run of rows. */
  function Views(ps: seq<Post>): (vs: seq<PostView>)
    ensures |vs| == |ps|
    ensures forall i :: 0 <= i < |ps| ==> vs[i] == View(ps[i])
  {
    seq(|ps|, i requires 0 <= i < |ps| => View(ps[i]))
  }

  /** The effective owner filter: an absent or empty `user_id` filters nothing. */
  function OwnerFilter(userId: Option<string>): (owner: Option<string>)
    ensures owner.Some? <==> Truthy(userId)
    ensures owner.Some? ==> owner == userId
  {
    if Truthy(userId) then userId else None
  }

  /** `get_posts`: out-of-range paging is rejected (422) before the handler runs; an
      unparseable `min_date` is 400; otherwise `total` counts every listed row whatever
      the page, `total_pages` is the ceiling of `total / per_page`, and the items are
      that page of the newest-first listing. An empty `user_id` or `min_date` is no
      filter at all. */
  function GetPosts(store: Store, order: seq<PostId>, page: int, perPage: int, userId: Option<string>,
                    minDate: Option<string>, parseIso: string -> Option<Time>): (r: Result<Page>)
    requires WellFormed(store)
    requires IsRowOrder(store, order)
    ensures !ValidPaging(page, perPage) ==> r == Err(Unprocessable, ValidationFailed)
    ensures ValidPaging(page, perPage) && Truthy(minDate) && parseIso(ReplaceZ(minDate.value)).None? ==>
      r == Err(BadRequest, InvalidDateFormat)
    ensures r.Ok? <==> ValidPaging(page, perPage) && !(Truthy(minDate) && parseIso(ReplaceZ(minDate.value)).None?)
    ensures r.Ok? ==>
      var owner := OwnerFilter(userId);
      var after := if Truthy(minDate) then parseIso(ReplaceZ(minDate.value)) else None;
      var listing := Listing(store, order, owner, after);
      var start := PageStart(page, perPage);
      && r.value.page == page && r.value.perPage == perPage
      && r.value.total == |ListedSet(store, owner, after)|
      && r.value.totalPages == CeilDiv(r.value.total, perPage)
      && |r.value.items| <= perPage && (|r.value.items| > 0 ==> start + |r.value.items| <= |listing|)
      && (forall i :: 0 <= i < |r.value.items| ==> r.value.items[i] == View(listing[start + i]))
      && (start < |listing| ==> |r.value.items| == if |listing| - start < perPage then |listing| - start else perPage)
      && (forall i :: 0 <= i < |r.value.items| ==>
            r.value.items[i].author == r.value.items[i].post.userId && Listed(r.value.items[i].post, owner, after))
  {
    if !ValidPaging(page, perPage) then Err(Unprocessable, ValidationFailed)
    else
      var parsed := if Truthy(minDate) then parseIso(ReplaceZ(minDate.value)) else None;
      if Truthy(minDate) && parsed.None? then Err(BadRequest, InvalidDateFormat)
      else Ok(ListPage(store, order, page, perPage, OwnerFilter(userId), parsed))
  }

  /** The row at position `i` of the listing is row `i % per_page` of page `i / per_page + 1`. */
  lemma PagePosition<T>(xs: seq<T>, perPage: nat, i: nat)
    requires perPage >= 1
    requires i < |xs|
    ensures i % perPage < |PageSlice(xs, i / perPage + 1, perPage)|
    ensures PageSlice(xs, i / perPage + 1, perPage)[i % perPage] == xs[i]
  {
    DivMod(i, perPage);
    var q := i / perPage;
    assert (q + 1 - 1) * perPage == q * perPage;
  }

  /** The pages past `total_pages` are empty. */
  lemma PagesPastTheEndAreEmpty<T>(xs: seq<T>, perPage: nat, page: nat)
    requires perPage >= 1
    requires page > CeilDiv(|xs|, perPage)
    ensures PageSlice(xs, page, perPage) == []
  {
    var c := CeilDiv(|xs|, perPage);
    MulMonoLeft(c, page - 1, perPage);
  }

  lemma MulMonoLeft(a: nat, b: nat, t: nat)
    requires a <= b
    ensures a * t <= b * t
  {
  }

  /** Fifteen listed posts at ten per page: two pages, of ten and of five. */
  lemma FifteenPostsTwoPages<T>(xs: seq<T>)
    requires |xs| == 15
    ensures CeilDiv(15, 10) == 2
    ensures |PageSlice(xs, 1, 10)| == 10
    ensures |PageSlice(xs, 2, 10)| == 5
    ensures PageSlice(xs, 1, 10) + PageSlice(xs, 2, 10) == xs
  {
    assert PageSlice(xs, 1, 10) == xs[..10];
    assert PageSlice(xs, 2, 10) == xs[10..];
    assert xs[..10] + xs[10..] == xs;
  }

  // ---------------------------------------------------------------------------
  // Single-post endpoints

  /** `get_post`: 404 for an unknown id; inactive posts are returned too. */
  function GetPost(store: Store, postId: PostId): (r: Result<PostView>)
    ensures r.Ok? <==> postId in store
    ensures postId !in store ==> r == Err(NotFound, PostNotFound)
    ensures r.Ok? ==> r.value.post == store[postId] && r.value.author == store[postId].userId
  {
    if postId !in store then Err(NotFound, PostNotFound) else Ok(View(store[postId]))
  }

  /** The body of `POST` and `PUT` (`PostCreate`). */
  datatype PostInput = PostInput(title: string, description: Option<string>, imageUrl: string, tags: Option<seq<string>>)

  /** `create_post`: the required user header (422 without it) becomes the owner; the
      new row is active and never checked. */
  function CreatePost(store: Store, freshId: PostId, input: PostInput, currentUser: Option<string>, now: Time): (r: Reply<PostView>)
    requires freshId !in store
    ensures currentUser.None? ==> r == Reply(store, Err(Unprocessable, ValidationFailed))
    ensures r.result.Ok? <==> currentUser.Some?
    ensures r.result.Ok? ==>
      var p := r.result.value.post;
      && r.store == store[freshId := p]
      && p == NewPost(freshId, input.title, input.description, input.imageUrl, currentUser.value, OrEmpty(input.tags), now)
      && p.isActive && p.lastImageCheck == None
      && r.result.value.author == currentUser.value
      && r.store.Keys == store.Keys + {freshId} && |r.store| == |store| + 1
    ensures WellFormed(store) ==> WellFormed(r.store)
  {
    match currentUser
    case None => Reply(store, Err(Unprocessable, ValidationFailed))
    case Some(user) =>
      var p := NewPost(freshId, input.title, input.description, input.imageUrl, user, OrEmpty(input.tags), now);
      InsertFresh(store, p);
      Reply(store[freshId := p], Ok(View(p)))
  }

  /** The common prelude of PUT, PATCH and DELETE: a missing header fails validation
      (422), then an unknown id is 404, then a requester other than the owner is 403. */
  function Authorize(store: Store, postId: PostId, currentUser: Option<string>, forbidden: string): (r: Result<Post>)
    ensures currentUser.None? ==> r == Err(Unprocessable, ValidationFailed)
    ensures currentUser.Some? && postId !in store ==> r == Err(NotFound, PostNotFound)
    ensures currentUser.Some? && postId in store && store[postId].userId != currentUser.value ==> r == Err(Forbidden, forbidden)
    ensures r.Ok? <==> currentUser.Some? && postId in store && store[postId].userId == currentUser.value
    ensures r.Ok? ==> r.value == store[postId]
  {
    if currentUser.None? then Err(Unprocessable, ValidationFailed)
    else if postId !in store then Err(NotFound, PostNotFound)
    else if store[postId].userId != currentUser.value then Err(Forbidden, forbidden)
    else Ok(store[postId])
  }

  /** `update_post` (PUT): replaces title, description, image URL and tags; every
      other column, `is_active` and `last_image_check` among them, is kept. */
  function UpdatePost(store: Store, postId: PostId, input: PostInput, currentUser: Option<string>): (r: Reply<PostView>)
    ensures r.result.Err? ==> r.store == store
    ensures r.result.Err? ==> var a := Authorize(store, postId, currentUser, NotAuthorizedToEdit);
      a.Err? && r.result.status == a.status && r.result.detail == a.detail
    ensures r.result.Ok? <==> Authorize(store, postId, currentUser, NotAuthorizedToEdit).Ok?
    ensures r.result.Ok? ==>
      var old_ := store[postId];
      var new_ := r.result.value.post;
      && r.store == store[postId := new_]
      && new_.title == input.title && new_.description == input.description
      && new_.imageUrl == input.imageUrl && new_.tags == OrEmpty(input.tags)
      && new_.(title := old_.title, description := old_.description, imageUrl := old_.imageUrl, tags := old_.tags) == old_
      && r.result.value.author == new_.userId
    ensures WellFormed(store) ==> WellFormed(r.store)
  {
    match Authorize(store, postId, currentUser, NotAuthorizedToEdit)
    case Err(status, detail) => Reply(store, Err(status, detail))
    case Ok(post) =>
      var updated := post.(title := input.title, description := input.description,
                           imageUrl := input.imageUrl, tags := OrEmpty(input.tags));
      Reply(store[postId := updated], Ok(View(updated)))
  }

  /** The body of `PATCH` (`PostUpdate`); `None` stands for a field that was left out
      or sent as `null`, which the handler treats alike. */
  datatype PostPatch = PostPatch(title: Option<string>, description: Option<string>,
                                 imageUrl: Option<string>, tags: Option<seq<string>>)

  /** `partial_update_post` (PATCH): each field given with a value replaces the
      stored one; every other column is kept. */
  function PartialUpdatePost(store: Store, postId: PostId, patch: PostPatch, currentUser: Option<string>): (r: Reply<PostView>)
    ensures r.result.Err? ==> r.store == store
    ensures r.result.Err? ==> var a := Authorize(store, postId, currentUser, NotAuthorizedToEdit);
      a.Err? && r.result.status == a.status && r.result.detail == a.detail
    ensures r.result.Ok? <==> Authorize(store, postId, currentUser, NotAuthorizedToEdit).Ok?
    ensures r.result.Ok? ==>
      var old_ := store[postId];
      var new_ := r.result.value.post;
      && r.store == store[postId := new_]
      && new_.title == patch.title.GetOr(old_.title)
      && new_.description == (if patch.description.Some? then patch.description else old_.description)
      && new_.imageUrl == patch.imageUrl.GetOr(old_.imageUrl)
      && new_.tags == patch.tags.GetOr(old_.tags)
      && new_.(title := old_.title, description := old_.description, imageUrl := old_.imageUrl, tags := old_.tags) == old_
    ensures WellFormed(store) ==> WellFormed(r.store)
  {
    match Authorize(store, postId, currentUser, NotAuthorizedToEdit)
    case Err(status, detail) => Reply(store, Err(status, detail))
    case Ok(post) =>
      var p1 := if patch.title.Some? then post.(title := patch.title.value) else post;
      var p2 := if patch.description.Some? then p1.(description := patch.description) else p1;
      var p3 := if patch.imageUrl.Some? then p2.(imageUrl := patch.imageUrl.value) else p2;
      var p4 := if patch.tags.Some? then p3.(tags := patch.tags.value) else p3;
      Reply(store[postId := p4], Ok(View(p4)))
  }

  /** `delete_post`: removes exactly the owner's row. */
  function DeletePost(store: Store, postId: PostId, currentUser: Option<string>): (r: Reply<()>)
    ensures r.result.Err? ==> r.store == store
    ensures r.result.Err? ==> var a := Authorize(store, postId, currentUser, NotAuthorizedToDelete);
      a.Err? && r.result.status == a.status && r.result.detail == a.detail
    ensures r.result.Ok? <==> Authorize(store, postId, currentUser, NotAuthorizedToDelete).Ok?
    ensures r.result.Ok? ==> r.store.Keys == store.Keys - {postId} && forall id :: id in r.store ==> r.store[id] == store[id]
    ensures WellFormed(store) ==> WellFormed(r.store)
  {
    match Authorize(store, postId, currentUser, NotAuthorizedToDelete)
    case Err(status, detail) => Reply(store, Err(status, detail))
    case Ok(_) => Reply(store - {postId}, Ok(()))
  }

  // ---------------------------------------------------------------------------
  // How the endpoints relate

  /** A PATCH that gives every field does what a PUT with the same values does. */
  lemma FullPatchIsPut(store: Store, postId: PostId, title: string, description: string, imageUrl: string,
                       tags: seq<string>, currentUser: Option<string>)
    ensures PartialUpdatePost(store, postId, PostPatch(Some(title), Some(description), Some(imageUrl), Some(tags)), currentUser)
         == UpdatePost(store, postId, PostInput(title, Some(description), imageUrl, Some(tags)), currentUser)
  {
  }

  /** A PATCH that gives no field leaves the table as it was. */
  lemma EmptyPatchChangesNothing(store: Store, postId: PostId, currentUser: Option<string>)
    ensures PartialUpdatePost(store, postId, PostPatch(None, None, None, None), currentUser).store == store
  {
  }

  /** A created post can be fetched back as created, and a deleted one is gone. */
  lemma CreateGetDelete(store: Store, freshId: PostId, input: PostInput, user: string, now: Time)
    requires freshId !in store
    ensures var created := CreatePost(store, freshId, input, Some(user), now);
      && GetPost(created.store, freshId) == created.result
      && DeletePost(created.store, freshId, Some(user)).result.Ok?
      && GetPost(DeletePost(created.store, freshId, Some(user)).store, freshId) == Err(NotFound, PostNotFound)
  {
  }
}
