/** Image liveness: the reachability prober, the batch re-check, the single-post
    check, reactivation, and the health statistics over `is_active` and
    `last_image_check` (backend/app/api/image_health.py). */
module ImageHealth {
  import opened Common
  import opened PostModel
  import opened FileStore

  /** URLs under this prefix name files of the server's own upload store. */
  const LocalImagePrefix := "http://localhost:8000/api/upload/images/"

  /** At most this many posts are examined per batch. */
  const BatchLimit := 50

  /** A post checked within the last 24 hours is not due for the cooldown batch. */
  const CooldownWindow := 24 * 60 * 60

  const NotAuthorizedToReactivate := "Not authorized to reactivate this post"
  const NewUrlNotAccessible := "New image URL is not accessible"
  const CheckStarted := "Verificación de imágenes iniciada en segundo plano"
  const Reactivated := "Post reactivated successfully"

  // ---------------------------------------------------------------------------
  // Reachability prober

  /** What the HEAD request (redirects followed, 5 s timeout) ends in: an exception of
      any kind, or the final response's status and `content-type` header. */
  datatype HeadOutcome = TransportError | Response(statusCode: int, contentType: Option<string>)

  /** The lowercased `content-type` (absent reads as `""`) names an image. */
  predicate IsImageContentType(contentType: Option<string>)
    ensures contentType.None? ==> !IsImageContentType(contentType)
    ensures IsImageContentType(contentType) <==>
      && contentType.Some?
      && ((exists i :: OccursAt(Lower(contentType.value), "image/", i)) || (exists i :: OccursAt(Lower(contentType.value), "img/", i)))
    ensures contentType.Some? && StartsWith(Lower(contentType.value), "image/") ==> IsImageContentType(contentType)
    ensures contentType.Some? && StartsWith(Lower(contentType.value), "img/") ==> IsImageContentType(contentType)
  {
    var ct := Lower(contentType.GetOr(""));
    Contains(ct, "image/") || Contains(ct, "img/")
  }

  /** `check_image_url`: a local upload URL is judged by whether the file named by its
      last path segment exists under the upload directory, without any network
      traffic; any other URL by the HEAD response alone. */
  function CheckImageUrl(url: string, fs: FileSystem, head: string -> HeadOutcome): (reachable: bool)
    ensures StartsWith(url, LocalImagePrefix) ==>
      (reachable <==> Exists(fs, UploadDir + "/" + LastSegment(url[|LocalImagePrefix|..])))
    ensures !StartsWith(url, LocalImagePrefix) ==>
      (reachable <==> head(url).Response? && head(url).statusCode == 200 && IsImageContentType(head(url).contentType))
  {
    if StartsWith(url, LocalImagePrefix) then
      var filename := LastSegment(url);
      assert url == LocalImagePrefix + url[|LocalImagePrefix|..];
      LastSegmentSkipsPrefix(LocalImagePrefix, url[|LocalImagePrefix|..]);
      Exists(fs, JoinUploadDir(filename))
    else
      match head(url)
      case TransportError => false
      case Response(status, contentType) =>
        if status == 200 then IsImageContentType(contentType) else false
  }

  // ---------------------------------------------------------------------------
  // Batch selection

  /** Never checked, or last checked before the 24-hour cutoff. */
  predicate Due(p: Post, now: Time)
    ensures p.lastImageCheck.None? ==> Due(p, now)
    ensures p.lastImageCheck.Some? ==> (Due(p, now) <==> now - p.lastImageCheck.value > CooldownWindow)
  {
    p.lastImageCheck.None? || p.lastImageCheck.value < now - CooldownWindow
  }

  /** The filter of `verify_post_images`: active posts, and then either the listed
      ids (a non-empty list; no cooldown) or, for an empty list, the due posts. */
  predicate InBatchScope(p: Post, postIds: seq<PostId>, now: Time) {
    p.isActive && (if |postIds| > 0 then p.id in postIds else Due(p, now))
  }

  /** The rows the filtered query returns, in row order. */
  function Candidates(store: Store, order: seq<PostId>, postIds: seq<PostId>, now: Time): (c: seq<PostId>)
    ensures forall id :: id in c <==> id in order && id in store && InBatchScope(store[id], postIds, now)
    ensures NoDup(order) ==> NoDup(c)
  {
    if |order| == 0 then []
    else
      var rest := Candidates(store, order[1..], postIds, now);
      assert forall id :: id in order[1..] ==> id in order;
      if order[0] in store && InBatchScope(store[order[0]], postIds, now) then
        assert NoDup(order) ==> order[0] !in order[1..];
        [order[0]] + rest
      else
        rest
  }

  /** `query.limit(50).all()`: with no `ORDER BY`, the first 50 candidates in
      whatever order the database returns them. */
  function SelectBatch(store: Store, order: seq<PostId>, postIds: seq<PostId>, now: Time): (sel: seq<PostId>)
    requires IsRowOrder(store, order)
    ensures |sel| <= BatchLimit
    ensures NoDup(sel)
    ensures forall id :: id in sel ==> id in store && InBatchScope(store[id], postIds, now)
    ensures forall id :: id in store && InBatchScope(store[id], postIds, now) && id !in sel ==> |sel| == BatchLimit
  {
    var c := Candidates(store, order, postIds, now);
    if |c| <= BatchLimit then c
    else
      assert forall id :: id in c[..BatchLimit] ==> id in c;
      c[..BatchLimit]
  }

  // ---------------------------------------------------------------------------
  // Applying verdicts

  /** The row a reachability verdict leaves behind: stamped with the check time,
      and active exactly when the image was reachable. */
  function Checked(p: Post, now: Time, reachable: string -> bool): (q: Post)
    ensures q.id == p.id && q.imageUrl == p.imageUrl && q.userId == p.userId
    ensures q.lastImageCheck == Some(now)
    ensures q.isActive == reachable(p.imageUrl)
    ensures q.(isActive := p.isActive, lastImageCheck := p.lastImageCheck) == p
  {
    p.(lastImageCheck := Some(now), isActive := reachable(p.imageUrl))
  }

  /** A post checked at `t` drops out of the cooldown batch until the window has
      passed, and is due again after that, whatever the verdict was. */
  lemma CheckedDueAgainAfterWindow(p: Post, t: Time, now: Time, reachable: string -> bool)
    ensures Due(Checked(p, t, reachable), now) <==> now > t + CooldownWindow
  {
  }

  /** The counters `verify_post_images` returns. */
  datatype BatchSummary = BatchSummary(checked: nat, deactivated: nat, active: nat)

  /** How many of `ids` name a post whose image is unreachable. */
  function CountUnreachable(store: Store, ids: seq<PostId>, reachable: string -> bool): (n: nat)
    requires forall id :: id in ids ==> id in store
    ensures n <= |ids|
  {
    if |ids| == 0 then 0
    else (if reachable(store[ids[0]].imageUrl) then 0 else 1) + CountUnreachable(store, ids[1..], reachable)
  }

  /** The count depends only on the image URLs of the counted posts. */
  lemma {:induction false} CountUnreachableFrame(s1: Store, s2: Store, ids: seq<PostId>, reachable: string -> bool)
    requires forall id :: id in ids ==> id in s1 && id in s2 && s1[id].imageUrl == s2[id].imageUrl
    ensures CountUnreachable(s1, ids, reachable) == CountUnreachable(s2, ids, reachable)
  {
    if |ids| > 0 {
      assert forall id :: id in ids[1..] ==> id in ids;
      CountUnreachableFrame(s1, s2, ids[1..], reachable);
    }
  }

  /** The loop of `verify_post_images` over the selected posts, in order: stamp each,
      deactivate it on a negative verdict, and count. */
  function ApplyChecks(store: Store, ids: seq<PostId>, now: Time, reachable: string -> bool): (r: (Store, BatchSummary))
    requires NoDup(ids)
    requires forall id :: id in ids ==> id in store && store[id].isActive
    ensures r.0.Keys == store.Keys
    ensures forall id :: id in ids ==> r.0[id] == Checked(store[id], now, reachable)
    ensures forall id :: id in store && id !in ids ==> r.0[id] == store[id]
    ensures r.1.checked == |ids|
    ensures r.1.checked == r.1.deactivated + r.1.active
    ensures r.1.deactivated == CountUnreachable(store, ids, reachable)
    decreases |ids|
  {
    if |ids| == 0 then (store, BatchSummary(0, 0, 0))
    else
      var id := ids[0];
      var post := store[id];
      var isAccessible := reachable(post.imageUrl);
      var stamped := post.(lastImageCheck := Some(now));
      var updated := if !isAccessible then stamped.(isActive := false) else stamped;
      var next := store[id := updated];
      assert id !in ids[1..];
      assert forall x :: x in ids[1..] ==> x in ids && x != id;
      var rest := ApplyChecks(next, ids[1..], now, reachable);
      CountUnreachableFrame(next, store, ids[1..], reachable);
      (rest.0, BatchSummary(rest.1.checked + 1,
                            rest.1.deactivated + (if isAccessible then 0 else 1),
                            rest.1.active + (if isAccessible then 1 else 0)))
  }

  /** `verify_post_images`: select a batch, check it, and report the counters. Every
      selected post is stamped and takes the verdict as its `is_active`; every other
      post is untouched; at most 50 posts are checked, and fewer only when no
      further post was in scope. */
  function VerifyPostImages(store: Store, order: seq<PostId>, postIds: seq<PostId>, now: Time,
                            reachable: string -> bool): (r: (Store, BatchSummary))
    requires WellFormed(store)
    requires IsRowOrder(store, order)
    ensures WellFormed(r.0)
    ensures r.0.Keys == store.Keys
    ensures var sel := SelectBatch(store, order, postIds, now);
      && (forall id :: id in store ==> r.0[id] == if id in sel then Checked(store[id], now, reachable) else store[id])
      && r.1.checked == |sel|
      && r.1.deactivated == CountUnreachable(store, sel, reachable)
    ensures forall id :: id in store && !InBatchScope(store[id], postIds, now) ==> r.0[id] == store[id]
    ensures r.1.checked <= BatchLimit
    ensures r.1.checked == r.1.deactivated + r.1.active
    ensures r.1.checked < BatchLimit ==>
      forall id :: id in store && InBatchScope(store[id], postIds, now) ==> r.0[id] == Checked(store[id], now, reachable)
  {
    var sel := SelectBatch(store, order, postIds, now);
    ApplyChecks(store, sel, now, reachable)
  }

  /** With at most 50 listed ids, every listed active post is checked, however
      recently it was checked before. */
  lemma ListedBatchChecksAll(store: Store, order: seq<PostId>, postIds: seq<PostId>, now: Time,
                             reachable: string -> bool, id: PostId)
    requires WellFormed(store)
    requires IsRowOrder(store, order)
    requires 0 < |postIds| <= BatchLimit
    requires id in postIds && id in store && store[id].isActive
    ensures VerifyPostImages(store, order, postIds, now, reachable).0[id] == Checked(store[id], now, reachable)
  {
    var sel := SelectBatch(store, order, postIds, now);
    if id !in sel {
      assert Elements(sel) <= Elements(postIds);
      assert id in Elements(postIds) - Elements(sel);
      SubsetCard(Elements(sel), Elements(postIds));
      ElementsCard(sel);
      ElementsCard(postIds);
      assert false;
    }
  }

  // ---------------------------------------------------------------------------
  // Triggering a batch

  datatype Scope = UserScope | GlobalScope

  /** The immediate answer of `POST /image-health/check`. */
  datatype CheckAck = CheckAck(message: string, scope: Scope)

  /** Ids of the user's active posts, in row order. */
  function UserActivePostIds(store: Store, order: seq<PostId>, user: string): (ids: seq<PostId>)
    ensures forall id :: id in ids <==> id in order && id in store && store[id].userId == user && store[id].isActive
  {
    if |order| == 0 then []
    else
      var rest := UserActivePostIds(store, order[1..], user);
      assert forall id :: id in order[1..] ==> id in order;
      if order[0] in store && store[order[0]].userId == user && store[order[0]].isActive then
        [order[0]] + rest
      else
        rest
  }

  /** `check_images`: acknowledge at once, and run the batch in the background. With
      a (non-empty) user header the batch is given the user's active post ids; a user
      with no active post gives an empty list, which runs the global cooldown batch. */
  function CheckImages(store: Store, order: seq<PostId>, currentUser: Option<string>, now: Time,
                       reachable: string -> bool): (r: (CheckAck, Store, BatchSummary))
    requires WellFormed(store)
    requires IsRowOrder(store, order)
    ensures r.0.scope == UserScope <==> Truthy(currentUser)
    ensures r.0.message == CheckStarted
    ensures WellFormed(r.1) && r.1.Keys == store.Keys
    ensures !Truthy(currentUser) ==> (r.1, r.2) == VerifyPostImages(store, order, [], now, reachable)
    ensures Truthy(currentUser) ==>
      (r.1, r.2) == VerifyPostImages(store, order, UserActivePostIds(store, order, currentUser.value), now, reachable)
    ensures Truthy(currentUser) && (forall id :: id in store && store[id].userId == currentUser.value ==> !store[id].isActive) ==>
      (r.1, r.2) == VerifyPostImages(store, order, [], now, reachable)
    ensures Truthy(currentUser) && (exists id :: id in store && store[id].userId == currentUser.value && store[id].isActive) ==>
      forall id :: id in store && r.1[id] != store[id] ==> store[id].userId == currentUser.value
    ensures Truthy(currentUser) && r.2.checked < BatchLimit ==>
      forall id :: id in store && store[id].userId == currentUser.value && store[id].isActive ==>
        r.1[id] == Checked(store[id], now, reachable)
  {
    var postIds := if Truthy(currentUser) then UserActivePostIds(store, order, currentUser.value) else [];
    assert Truthy(currentUser) && (exists id :: id in store && store[id].userId == currentUser.value && store[id].isActive) ==> |postIds| > 0 by {
      if Truthy(currentUser) && (exists id :: id in store && store[id].userId == currentUser.value && store[id].isActive) {
        var id :| id in store && store[id].userId == currentUser.value && store[id].isActive;
        assert id in postIds;
      }
    }
    assert |postIds| > 0 ==> postIds[0] in store && store[postIds[0]].isActive && store[postIds[0]].userId == currentUser.value by {
      if |postIds| > 0 {
        assert postIds[0] in postIds;
      }
    }
    var result := VerifyPostImages(store, order, postIds, now, reachable);
    var scope := if Truthy(currentUser) then UserScope else GlobalScope;
    (CheckAck(CheckStarted, scope), result.0, result.1)
  }

  /** As written, a user-scoped check can deactivate another user's post: the user
      below has no active post, so the batch runs globally while the answer says
      `user`. */
  lemma UserScopeCanTouchOtherUsers()
    ensures var bobs := Post(1, "t", None, "http://example.com/a.png", "bob", [], true, None, 0);
      var r := CheckImages(map[1 := bobs], [1], Some("alice"), 0, (url: string) => false);
      && r.0.scope == UserScope
      && !r.1[1].isActive
  {
    var bobs := Post(1, "t", None, "http://example.com/a.png", "bob", [], true, None, 0);
    var store := map[1 := bobs];
    var never := (url: string) => false;
    assert UserActivePostIds(store, [1], "alice") == [];
    assert Candidates(store, [1], [], 0) == [1];
    assert SelectBatch(store, [1], [], 0) == [1];
    BatchPointwise(store, [1], [], 0, never, 1);
  }

  /** `check_images` as its documentation describes it: with a (non-empty) user
      header only that user's posts are checked, and a user with no active post
      checks nothing. */
  function CheckImagesUserOnly(store: Store, order: seq<PostId>, currentUser: Option<string>, now: Time,
                               reachable: string -> bool): (r: (CheckAck, Store, BatchSummary))
    requires WellFormed(store)
    requires IsRowOrder(store, order)
    ensures r.0.scope == UserScope <==> Truthy(currentUser)
    ensures r.0.message == CheckStarted
    ensures WellFormed(r.1) && r.1.Keys == store.Keys
    ensures !Truthy(currentUser) ==> (r.1, r.2) == VerifyPostImages(store, order, [], now, reachable)
    ensures Truthy(currentUser) ==>
      forall id :: id in store && r.1[id] != store[id] ==> store[id].userId == currentUser.value
    ensures Truthy(currentUser) && |UserActivePostIds(store, order, currentUser.value)| > 0 ==>
      (r.1, r.2) == VerifyPostImages(store, order, UserActivePostIds(store, order, currentUser.value), now, reachable)
    ensures Truthy(currentUser) && |UserActivePostIds(store, order, currentUser.value)| == 0 ==>
      r.1 == store && r.2 == BatchSummary(0, 0, 0)
    ensures Truthy(currentUser) && r.2.checked < BatchLimit ==>
      forall id :: id in store && store[id].userId == currentUser.value && store[id].isActive ==>
        r.1[id] == Checked(store[id], now, reachable)
  {
    if Truthy(currentUser) && |UserActivePostIds(store, order, currentUser.value)| == 0 then
      (CheckAck(CheckStarted, UserScope), store, BatchSummary(0, 0, 0))
    else
      CheckImages(store, order, currentUser, now, reachable)
  }

  // ---------------------------------------------------------------------------
  // Health statistics

  /** The answer of `GET /image-health/status`; the percentage is given in hundredths. */
  datatype HealthStatus = HealthStatus(totalPosts: nat, activePosts: nat, inactivePosts: nat,
                                       uncheckedPosts: nat, healthHundredths: nat)

  function ActiveIds(store: Store): set<PostId> {
    set id | id in store && store[id].isActive
  }

  function InactiveIds(store: Store): set<PostId> {
    set id | id in store && !store[id].isActive
  }

  /** Due posts, whatever their `is_active`. */
  function UncheckedIds(store: Store, now: Time): set<PostId> {
    set id | id in store && Due(store[id], now)
  }

  /** Division by `t` cannot exceed a bound the dividend stays under. */
  lemma DivAtMost(n: nat, t: nat, bound: nat)
    requires t > 0
    requires n <= bound * t
    ensures n / t <= bound
    ensures n / t == bound ==> n % t == 0
  {
    var q := n / t;
    DivMod(n, t);
    if q > bound {
      MulSucc(bound, t);
    }
  }

  /** The arithmetic behind `RoundHalfEven`, on the quotient and remainder. */
  lemma RoundingFacts(n: nat, t: nat, q: nat, rem: nat, h: nat)
    requires t > 0 && rem < t
    requires n == q * t + rem
    requires h == if 2 * rem > t || (2 * rem == t && q % 2 == 1) then q + 1 else q
    ensures -(t as int) <= 2 * (h * t) - 2 * n <= t
    ensures (2 * (h * t) - 2 * n == t || 2 * (h * t) - 2 * n == -(t as int)) ==> h % 2 == 0
  {
    if h == q + 1 {
      MulSucc(q, t);
      assert h * t == q * t + t;
    } else {
      assert h * t == q * t;
    }
  }

  /** The rounding step on a quotient and remainder: up past the half, and on the
      half only from an odd quotient. */
  function RoundQuotient(q: nat, rem: nat, t: nat): nat {
    if 2 * rem > t || (2 * rem == t && q % 2 == 1) then q + 1 else q
  }

  lemma RoundHalfEvenFacts(n: nat, t: nat)
    requires t > 0
    ensures var h := RoundQuotient(n / t, n % t, t);
      && -(t as int) <= 2 * (h * t) - 2 * n <= t
      && ((2 * (h * t) - 2 * n == t || 2 * (h * t) - 2 * n == -(t as int)) ==> h % 2 == 0)
      && (n % t == 0 ==> h == n / t)
  {
    var q := n / t;
    var rem := n % t;
    DivMod(n, t);
    RoundingFacts(n, t, q, rem, RoundQuotient(q, rem, t));
  }

  /** Rounding `n / t` to the nearest integer, ties to even. */
  function RoundHalfEven(n: nat, t: nat): (h: nat)
    requires t > 0
    ensures -(t as int) <= 2 * (h * t) - 2 * n <= t
    ensures (2 * (h * t) - 2 * n == t || 2 * (h * t) - 2 * n == -(t as int)) ==> h % 2 == 0
    ensures n % t == 0 ==> h == n / t
  {
    RoundHalfEvenFacts(n, t);
    RoundQuotient(n / t, n % t, t)
  }

  /** `round(active / total * 100, 2)` as hundredths of a percent, computed on the
      exact ratio (nearest, ties to even), and 100 % for an empty table. */
  function HealthHundredths(active: nat, total: nat): (h: nat)
    requires active <= total
    ensures total == 0 ==> h == 10000
    ensures h <= 10000
    ensures total > 0 ==> -(total as int) <= 2 * (h * total) - 20000 * active <= total
    ensures total > 0 && (2 * (h * total) - 20000 * active == total || 2 * (h * total) - 20000 * active == -(total as int)) ==> h % 2 == 0
  {
    if total == 0 then 10000
    else
      DivAtMost(10000 * active, total, 10000);
      RoundHalfEven(10000 * active, total)
  }

  /** `get_health_status`: every post is active or inactive, so the two counts add
      up to the total; the unchecked count ignores `is_active`. */
  function GetHealthStatus(store: Store, now: Time): (s: HealthStatus)
    ensures s.totalPosts == |store|
    ensures s.activePosts == |ActiveIds(store)| && s.inactivePosts == |InactiveIds(store)|
    ensures s.uncheckedPosts == |UncheckedIds(store, now)|
    ensures s.totalPosts == s.activePosts + s.inactivePosts
    ensures s.healthHundredths == HealthHundredths(s.activePosts, s.totalPosts)
    ensures s.uncheckedPosts <= s.totalPosts
    ensures s.totalPosts == 0 ==> s.healthHundredths == 10000
    ensures s.healthHundredths <= 10000
    ensures s.totalPosts > 0 ==>
      -(s.totalPosts as int) <= 2 * (s.healthHundredths * s.totalPosts) - 20000 * s.activePosts <= s.totalPosts
  {
    CountsAddUp(store, now);
    HealthStatus(|store|, |ActiveIds(store)|, |InactiveIds(store)|, |UncheckedIds(store, now)|,
                 HealthHundredths(|ActiveIds(store)|, |store|))
  }

  /** Every post is active or inactive and not both; the due posts are some of them. */
  lemma CountsAddUp(store: Store, now: Time)
    ensures |ActiveIds(store)| + |InactiveIds(store)| == |store|
    ensures |UncheckedIds(store, now)| <= |store|
  {
    var active := ActiveIds(store);
    var inactive := InactiveIds(store);
    assert active + inactive == store.Keys;
    assert active !! inactive;
    assert |store| == |store.Keys|;
    SubsetCard(UncheckedIds(store, now), store.Keys);
  }

  /** Two active posts out of three read as 66.67 %. */
  lemma HealthOfTwoOutOfThree()
    ensures HealthHundredths(2, 3) == 6667
  {
  }

  // ---------------------------------------------------------------------------
  // Single-post check

  /** The answer of `POST /image-health/check-single/{post_id}`. */
  datatype SingleCheck = SingleCheck(postId: PostId, imageUrl: string, isAccessible: bool, isActive: bool)

  /** `check_single_image`: an unknown id is 404 and changes nothing; otherwise the
      post is stamped and takes the verdict as `is_active`, in either direction. */
  function CheckSingleImage(store: Store, postId: PostId, now: Time, reachable: string -> bool): (r: Reply<SingleCheck>)
    ensures postId !in store ==> r == Reply(store, Err(NotFound, PostNotFound))
    ensures postId in store ==> r.result.Ok? && r.store == store[postId := Checked(store[postId], now, reachable)]
    ensures r.result.Ok? ==>
      && r.result.value.postId == postId
      && r.result.value.imageUrl == store[postId].imageUrl
      && r.result.value.isAccessible == reachable(store[postId].imageUrl)
      && r.result.value.isActive == r.result.value.isAccessible
    ensures WellFormed(store) ==> WellFormed(r.store)
  {
    if postId !in store then Reply(store, Err(NotFound, PostNotFound))
    else
      var post := store[postId];
      var isAccessible := reachable(post.imageUrl);
      var stamped := post.(lastImageCheck := Some(now));
      var updated := if !isAccessible then stamped.(isActive := false) else stamped.(isActive := true);
      Reply(store[postId := updated], Ok(SingleCheck(postId, updated.imageUrl, isAccessible, updated.isActive)))
  }

  /** On an active post the single check does exactly what a batch of that one post does. */
  lemma SingleCheckAgreesWithBatch(store: Store, postId: PostId, now: Time, reachable: string -> bool)
    requires postId in store && store[postId].isActive
    ensures CheckSingleImage(store, postId, now, reachable).store == ApplyChecks(store, [postId], now, reachable).0
  {
    var batch := ApplyChecks(store, [postId], now, reachable).0;
    var single := CheckSingleImage(store, postId, now, reachable).store;
    assert batch.Keys == single.Keys;
    forall id | id in batch ensures batch[id] == single[id] {
      if id == postId {
        assert id in [postId];
      }
    }
  }

  // ---------------------------------------------------------------------------
  // Reactivation

  /** The answer of `POST /image-health/reactivate/{post_id}`. */
  datatype Reactivation = Reactivation(postId: PostId, isActive: bool, message: string)

  /** A (non-empty) user header that is not the post's owner. */
  predicate ForeignRequester(p: Post, currentUser: Option<string>) {
    Truthy(currentUser) && p.userId != currentUser.value
  }

  /** A (non-empty) replacement URL that the prober rejects. */
  predicate RejectedReplacement(newImageUrl: Option<string>, reachable: string -> bool) {
    Truthy(newImageUrl) && !reachable(newImageUrl.value)
  }

  /** The row a successful reactivation leaves behind. */
  function Reactivate(p: Post, newImageUrl: Option<string>, now: Time): (q: Post)
    ensures q.isActive && q.lastImageCheck == Some(now)
    ensures q.imageUrl == if Truthy(newImageUrl) then newImageUrl.value else p.imageUrl
    ensures q.(isActive := p.isActive, lastImageCheck := p.lastImageCheck, imageUrl := p.imageUrl) == p
  {
    var withUrl := if Truthy(newImageUrl) then p.(imageUrl := newImageUrl.value) else p;
    withUrl.(isActive := true, lastImageCheck := Some(now))
  }

  /** `reactivate_post`: 404 for an unknown id, then 403 for a foreign requester (no
      header skips the ownership test), then 400 for an unreachable replacement URL;
      every error leaves the table as it was. Success activates and stamps the post,
      and replaces its URL exactly when a replacement was given. */
  function ReactivatePost(store: Store, postId: PostId, currentUser: Option<string>, newImageUrl: Option<string>,
                          now: Time, reachable: string -> bool): (r: Reply<Reactivation>)
    ensures r.result.Err? ==> r.store == store
    ensures postId !in store ==> r.result == Err(NotFound, PostNotFound)
    ensures postId in store && ForeignRequester(store[postId], currentUser) ==>
      r.result == Err(Forbidden, NotAuthorizedToReactivate)
    ensures postId in store && !ForeignRequester(store[postId], currentUser) && RejectedReplacement(newImageUrl, reachable) ==>
      r.result == Err(BadRequest, NewUrlNotAccessible)
    ensures r.result.Ok? <==>
      postId in store && !ForeignRequester(store[postId], currentUser) && !RejectedReplacement(newImageUrl, reachable)
    ensures r.result.Ok? ==>
      && r.store == store[postId := Reactivate(store[postId], newImageUrl, now)]
      && r.result.value == Reactivation(postId, true, Reactivated)
    ensures WellFormed(store) ==> WellFormed(r.store)
  {
    if postId !in store then Reply(store, Err(NotFound, PostNotFound))
    else
      var post := store[postId];
      if Truthy(currentUser) && post.userId != currentUser.value then
        Reply(store, Err(Forbidden, NotAuthorizedToReactivate))
      else if Truthy(newImageUrl) && !reachable(newImageUrl.value) then
        Reply(store, Err(BadRequest, NewUrlNotAccessible))
      else
        var withUrl := if Truthy(newImageUrl) then post.(imageUrl := newImageUrl.value) else post;
        var updated := withUrl.(isActive := true, lastImageCheck := Some(now));
        Reply(store[postId := updated], Ok(Reactivation(postId, true, Reactivated)))
  }

  /** Reactivating again without a URL succeeds and only moves the check time;
      at the same time it changes nothing. */
  lemma ReactivateIdempotent(store: Store, postId: PostId, currentUser: Option<string>, now: Time, later: Time,
                             reachable: string -> bool)
    requires ReactivatePost(store, postId, currentUser, None, now, reachable).result.Ok?
    ensures var first := ReactivatePost(store, postId, currentUser, None, now, reachable);
      var second := ReactivatePost(first.store, postId, currentUser, None, later, reachable);
      && second.result.Ok?
      && second.store == first.store[postId := first.store[postId].(lastImageCheck := Some(later))]
      && (later == now ==> second.store == first.store)
  {
  }

  /** Without a replacement URL the verdict oracle is never consulted. */
  lemma ReactivateWithoutUrlIgnoresProber(store: Store, postId: PostId, currentUser: Option<string>, now: Time,
                                          reachable1: string -> bool, reachable2: string -> bool)
    ensures ReactivatePost(store, postId, currentUser, None, now, reachable1)
         == ReactivatePost(store, postId, currentUser, None, now, reachable2)
  {
  }

  // ---------------------------------------------------------------------------
  // How a batch moves the statistics

  /** The ids among `ids` whose image is unreachable, as a set. */
  function UnreachableIds(store: Store, ids: seq<PostId>, reachable: string -> bool): set<PostId>
    requires forall id :: id in ids ==> id in store
  {
    set id | id in ids && !reachable(store[id].imageUrl)
  }

  /** Over distinct ids the counter and the set agree. */
  lemma {:induction false} CountUnreachableIsCard(store: Store, ids: seq<PostId>, reachable: string -> bool)
    requires forall id :: id in ids ==> id in store
    requires NoDup(ids)
    ensures CountUnreachable(store, ids, reachable) == |UnreachableIds(store, ids, reachable)|
  {
    if |ids| > 0 {
      var tail := ids[1..];
      assert forall id :: id in tail ==> id in ids;
      assert NoDup(tail);
      CountUnreachableIsCard(store, tail, reachable);
      assert ids == [ids[0]] + tail;
      assert ids[0] !in tail;
      if reachable(store[ids[0]].imageUrl) {
        assert UnreachableIds(store, ids, reachable) == UnreachableIds(store, tail, reachable);
      } else {
        assert UnreachableIds(store, ids, reachable) == UnreachableIds(store, tail, reachable) + {ids[0]};
      }
    }
  }

  /** What a batch leaves of one post. */
  lemma BatchPointwise(store: Store, order: seq<PostId>, postIds: seq<PostId>, now: Time,
                       reachable: string -> bool, id: PostId)
    requires WellFormed(store)
    requires IsRowOrder(store, order)
    requires id in store
    ensures var sel := SelectBatch(store, order, postIds, now);
      VerifyPostImages(store, order, postIds, now, reachable).0[id] ==
        if id in sel then Checked(store[id], now, reachable) else store[id]
  {
  }

  /** After any batch the active count has dropped by exactly the number deactivated. */
  lemma BatchActiveAccounting(store: Store, order: seq<PostId>, postIds: seq<PostId>, now: Time, later: Time,
                              reachable: string -> bool)
    requires WellFormed(store)
    requires IsRowOrder(store, order)
    ensures var r := VerifyPostImages(store, order, postIds, now, reachable);
      GetHealthStatus(r.0, later).activePosts + r.1.deactivated == GetHealthStatus(store, later).activePosts
  {
    var r := VerifyPostImages(store, order, postIds, now, reachable);
    var sel := SelectBatch(store, order, postIds, now);
    var dead := UnreachableIds(store, sel, reachable);
    CountUnreachableIsCard(store, sel, reachable);
    forall id | id in store ensures r.0[id].isActive <==> id in ActiveIds(store) && id !in dead {
      BatchPointwise(store, order, postIds, now, reachable, id);
    }
    assert ActiveIds(r.0) == ActiveIds(store) - dead;
    SubsetCard(dead, ActiveIds(store));
  }

  /** After a cooldown batch at `now`, the unchecked count has dropped by exactly
      the number checked. */
  lemma CooldownBatchUncheckedAccounting(store: Store, order: seq<PostId>, now: Time, reachable: string -> bool)
    requires WellFormed(store)
    requires IsRowOrder(store, order)
    ensures var r := VerifyPostImages(store, order, [], now, reachable);
      GetHealthStatus(r.0, now).uncheckedPosts + r.1.checked == GetHealthStatus(store, now).uncheckedPosts
  {
    var sel := SelectBatch(store, order, [], now);
    CooldownBatchClearsDue(store, order, now, reachable);
    ElementsCard(sel);
    SubsetCard(Elements(sel), UncheckedIds(store, now));
  }

  /** A global batch takes only due posts, and exactly those it takes stop being due. */
  lemma CooldownBatchClearsDue(store: Store, order: seq<PostId>, now: Time, reachable: string -> bool)
    requires WellFormed(store)
    requires IsRowOrder(store, order)
    ensures var sel := SelectBatch(store, order, [], now);
      && Elements(sel) <= UncheckedIds(store, now)
      && UncheckedIds(VerifyPostImages(store, order, [], now, reachable).0, now) == UncheckedIds(store, now) - Elements(sel)
  {
    var r := VerifyPostImages(store, order, [], now, reachable);
    var sel := SelectBatch(store, order, [], now);
    var before := UncheckedIds(store, now);
    var done := Elements(sel);
    assert done <= before by {
      forall id | id in done ensures id in before {
        assert id in sel;
      }
    }
    forall id | id in store ensures Due(r.0[id], now) <==> id in before && id !in done {
      BatchPointwise(store, order, [], now, reachable, id);
    }
  }

}
