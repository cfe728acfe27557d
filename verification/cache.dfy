/** The browser-side post cache (frontend/src/utils/cache.js): two `localStorage`
    slots holding the post list and the time it was saved, the merge of cached and
    fresh posts, and the expiry rule. */
module Cache {
  import opened Common
  import Sorting

  /** Browser time, in milliseconds since the epoch (`Date.now()`). */
  type Millis = int

  /** Five minutes. */
  const CacheDuration := 5 * 60 * 1000

  const PostsCacheKey := "visual_board_posts"
  const TimestampKey := "visual_board_timestamp"

  /** A post as the frontend holds it. `isActive` is `None` for posts cached before
      the backend reported the flag; `createdAt` is the parsed `created_at`. */
  datatype CachedPost = CachedPost(id: int, createdAt: Millis, isActive: Option<bool>, title: string, imageUrl: string)

  /** The two slots the cache owns. The list is kept as the value `JSON.stringify`
      wrote, and the time as the instant its ISO text denotes (the text round-trips
      at millisecond precision). */
  datatype Storage = Storage(posts: Option<seq<CachedPost>>, stamp: Option<Millis>)

  /** `getCachedPosts`' result: both parts present, or both `null`. */
  datatype CacheRead = CacheRead(posts: Option<seq<CachedPost>>, timestamp: Option<Millis>)

  /** `savePosts`: writes both slots and returns the timestamp it wrote. */
  function SavePosts(storage: Storage, posts: seq<CachedPost>, now: Millis): (r: (Storage, Option<Millis>))
    ensures r.1 == Some(now)
    ensures r.0.posts == Some(posts) && r.0.stamp == Some(now)
  {
    (Storage(Some(posts), Some(now)), Some(now))
  }

  /** `getCachedPosts`: the list and its timestamp when both slots are set, two nulls
      otherwise. */
  function GetCachedPosts(storage: Storage): (r: CacheRead)
    ensures r.posts.Some? <==> r.timestamp.Some?
    ensures r.posts.Some? <==> storage.posts.Some? && storage.stamp.Some?
    ensures r.posts.Some? ==> r.posts == storage.posts && r.timestamp == storage.stamp
  {
    if storage.posts.None? || storage.stamp.None? then CacheRead(None, None)
    else CacheRead(storage.posts, storage.stamp)
  }

  /** `isCacheValid`: a timestamp younger than the cache duration. Only the
      timestamp slot is read, so a cache whose posts slot is empty can be valid. */
  predicate IsCacheValid(storage: Storage, now: Millis)
    ensures IsCacheValid(storage, now) ==> storage.stamp.Some?
    ensures storage.stamp.Some? ==> (IsCacheValid(storage, now) <==> now < storage.stamp.value + CacheDuration)
  {
    storage.stamp.Some? && now - storage.stamp.value < CacheDuration
  }

  /** `clear`: empties both slots. */
  function Clear(storage: Storage): (r: Storage)
    ensures r.posts.None? && r.stamp.None?
  {
    Storage(None, None)
  }

  // ---------------------------------------------------------------------------
  // Merging

  /** No two posts share an id. */
  predicate UniqueIds(ps: seq<CachedPost>) {
    forall i, j :: 0 <= i < j < |ps| ==> ps[i].id != ps[j].id
  }

  /** The last post in `ps` with the given id: the one a `Map` keyed by id keeps. */
  function LastWithId(ps: seq<CachedPost>, id: int): (r: Option<CachedPost>)
    ensures r.Some? ==> r.value in ps && r.value.id == id
    ensures r.None? <==> forall k :: 0 <= k < |ps| ==> ps[k].id != id
  {
    if |ps| == 0 then None
    else if ps[|ps| - 1].id == id then Some(ps[|ps| - 1])
    else
      var r := LastWithId(ps[..|ps| - 1], id);
      assert r.Some? ==> r.value in ps[..|ps| - 1];
      r
  }

  /** A later part wins over an earlier one. */
  lemma {:induction false} LastWithIdConcat(a: seq<CachedPost>, b: seq<CachedPost>, id: int)
    ensures LastWithId(a + b, id) == if LastWithId(b, id).Some? then LastWithId(b, id) else LastWithId(a, id)
    decreases |b|
  {
    if |b| == 0 {
      assert a + b == a;
    } else {
      var ab := a + b;
      assert ab[|ab| - 1] == b[|b| - 1];
      assert ab[..|ab| - 1] == a + b[..|b| - 1];
      LastWithIdConcat(a, b[..|b| - 1], id);
    }
  }

  /** Lists that agree on a lookup still agree after the same suffix. */
  lemma LookupCongruence(a: seq<CachedPost>, a': seq<CachedPost>, b: seq<CachedPost>, id: int)
    requires LastWithId(a, id) == LastWithId(a', id)
    ensures LastWithId(a + b, id) == LastWithId(a' + b, id)
  {
    LastWithIdConcat(a, b, id);
    LastWithIdConcat(a', b, id);
  }

  /** In a list with unique ids, the post with a given id is the only one. */
  lemma LastWithIdUnique(ps: seq<CachedPost>, k: int)
    requires UniqueIds(ps)
    requires 0 <= k < |ps|
    ensures LastWithId(ps, ps[k].id) == Some(ps[k])
  {
    var r := LastWithId(ps, ps[k].id);
    var j :| 0 <= j < |ps| && ps[j] == r.value;
  }

  /** Replacing an entry whose id is neither the old nor the new one's changes no
      lookup of that id. */
  lemma {:induction false} LastWithIdUpdateOther(ps: seq<CachedPost>, i: int, x: CachedPost, id: int)
    requires 0 <= i < |ps|
    requires ps[i].id != id && x.id != id
    ensures LastWithId(ps[i := x], id) == LastWithId(ps, id)
    decreases |ps|
  {
    var qs := ps[i := x];
    if i < |ps| - 1 && ps[|ps| - 1].id != id {
      assert qs[..|qs| - 1] == ps[..|ps| - 1][i := x];
      LastWithIdUpdateOther(ps[..|ps| - 1], i, x, id);
    } else if i == |ps| - 1 {
      assert qs[..|qs| - 1] == ps[..|ps| - 1];
    }
  }

  /** `postsMap.set(post.id, post)` over the entries in insertion order: an existing
      key keeps its place and takes the new value, a new key goes last. */
  function MapSet(entries: seq<CachedPost>, p: CachedPost): (r: seq<CachedPost>)
    requires UniqueIds(entries)
    ensures UniqueIds(r)
    ensures forall id :: LastWithId(r, id) == LastWithId(entries + [p], id)
  {
    var i := IndexOfId(entries, p.id);
    if i < |entries| then
      var r := entries[i := p];
      forall id ensures LastWithId(r, id) == LastWithId(entries + [p], id) {
        LastWithIdConcat(entries, [p], id);
        if id == p.id {
          LastWithIdUnique(r, i);
        } else {
          LastWithIdUpdateOther(entries, i, p, id);
        }
      }
      r
    else
      entries + [p]
  }

  /** The position of the entry with the given id, or the length when there is none. */
  function IndexOfId(entries: seq<CachedPost>, id: int): (i: nat)
    ensures i <= |entries|
    ensures i < |entries| ==> entries[i].id == id
    ensures i == |entries| ==> forall k :: 0 <= k < |entries| ==> entries[k].id != id
  {
    if |entries| == 0 then 0
    else if entries[0].id == id then 0
    else IndexOfId(entries[1..], id) + 1
  }

  /** `forEach(post => postsMap.set(post.id, post))`. */
  function SetAll(entries: seq<CachedPost>, ps: seq<CachedPost>): (r: seq<CachedPost>)
    requires UniqueIds(entries)
    ensures UniqueIds(r)
    ensures forall id :: LastWithId(r, id) == LastWithId(entries + ps, id)
    decreases |ps|
  {
    if |ps| == 0 then
      assert entries + ps == entries;
      entries
    else
      var next := MapSet(entries, ps[0]);
      var r := SetAll(next, ps[1..]);
      assert entries + ps == (entries + [ps[0]]) + ps[1..];
      forall id ensures LastWithId(r, id) == LastWithId(entries + ps, id) {
        LookupCongruence(next, entries + [ps[0]], ps[1..], id);
      }
      r
  }

  function CreatedAt(p: CachedPost): int {
    p.createdAt
  }

  /** The ids occurring in a list. */
  function IdsOf(ps: seq<CachedPost>): set<int> {
    set p | p in ps :: p.id
  }

  /** Lists with the same lookups have the same ids. */
  lemma SameLookupsSameIds(a: seq<CachedPost>, b: seq<CachedPost>)
    requires forall id :: LastWithId(a, id) == LastWithId(b, id)
    ensures IdsOf(a) == IdsOf(b)
  {
    forall id | id in IdsOf(a) ensures id in IdsOf(b) {
      var p :| p in a && p.id == id;
      var k :| 0 <= k < |a| && a[k] == p;
      assert LastWithId(b, id).value in b;
    }
    forall id | id in IdsOf(b) ensures id in IdsOf(a) {
      var p :| p in b && p.id == id;
      var k :| 0 <= k < |b| && b[k] == p;
      assert LastWithId(a, id).value in a;
    }
  }

  /** The two `forEach` passes of `mergePosts`, cached posts first. */
  function MergeEntries(cachedPosts: seq<CachedPost>, newPosts: seq<CachedPost>): (merged: seq<CachedPost>)
    ensures UniqueIds(merged)
    ensures forall id :: LastWithId(merged, id) == LastWithId(cachedPosts + newPosts, id)
  {
    var first := SetAll([], cachedPosts);
    var merged := SetAll(first, newPosts);
    assert [] + cachedPosts == cachedPosts;
    forall id ensures LastWithId(merged, id) == LastWithId(cachedPosts + newPosts, id) {
      LookupCongruence(first, cachedPosts, newPosts, id);
    }
    merged
  }

  /** `mergePosts`: one post per id, the fresh list winning over the cache and a later
      duplicate over an earlier one, newest first. */
  function MergePosts(cachedPosts: Option<seq<CachedPost>>, newPosts: Option<seq<CachedPost>>): (r: seq<CachedPost>)
    ensures Sorting.SortedDesc(r, CreatedAt)
    ensures UniqueIds(r)
    ensures IdsOf(r) == IdsOf(OrEmpty(cachedPosts)) + IdsOf(OrEmpty(newPosts))
    ensures forall id :: LastWithId(r, id) == LastWithId(OrEmpty(cachedPosts) + OrEmpty(newPosts), id)
    ensures forall k :: 0 <= k < |r| ==> Some(r[k]) == LastWithId(OrEmpty(cachedPosts) + OrEmpty(newPosts), r[k].id)
  {
    var all := OrEmpty(cachedPosts) + OrEmpty(newPosts);
    var merged := MergeEntries(OrEmpty(cachedPosts), OrEmpty(newPosts));
    var r := Sorting.SortDesc(merged, CreatedAt);
    SortedKeepsLookup(merged, r);
    SameLookupsSameIds(r, all);
    assert IdsOf(all) == IdsOf(OrEmpty(cachedPosts)) + IdsOf(OrEmpty(newPosts)) by {
      assert forall p :: p in all <==> p in OrEmpty(cachedPosts) || p in OrEmpty(newPosts);
    }
    r
  }

  /** Reordering a list with unique ids keeps the ids unique and keeps every lookup. */
  lemma SortedKeepsLookup(merged: seq<CachedPost>, r: seq<CachedPost>)
    requires UniqueIds(merged)
    requires multiset(r) == multiset(merged)
    ensures UniqueIds(r)
    ensures forall id :: LastWithId(r, id) == LastWithId(merged, id)
    ensures forall k :: 0 <= k < |r| ==> Some(r[k]) == LastWithId(merged, r[k].id)
  {
    SameMembers(r, merged);
    assert NoDup(merged) by {
      forall i, j | 0 <= i < j < |merged| ensures merged[i] != merged[j] {
      }
    }
    PermutationKeepsNoDup(merged, r);
    forall i, j | 0 <= i < j < |r| ensures r[i].id != r[j].id {
      assert r[i] in merged && r[j] in merged;
      var a :| 0 <= a < |merged| && merged[a] == r[i];
      var b :| 0 <= b < |merged| && merged[b] == r[j];
    }
    forall k | 0 <= k < |r| ensures Some(r[k]) == LastWithId(merged, r[k].id) {
      assert r[k] in merged;
      var a :| 0 <= a < |merged| && merged[a] == r[k];
      LastWithIdUnique(merged, a);
    }
    forall id ensures LastWithId(r, id) == LastWithId(merged, id) {
      var x := LastWithId(r, id);
      var y := LastWithId(merged, id);
      if x.Some? {
        var k :| 0 <= k < |r| && r[k] == x.value;
        LastWithIdUnique(r, k);
      }
    }
  }

  /** Every fresh post survives the merge as it was fetched. */
  lemma FreshPostsWin(cachedPosts: seq<CachedPost>, newPosts: seq<CachedPost>, k: int)
    requires 0 <= k < |newPosts|
    requires UniqueIds(newPosts)
    ensures newPosts[k] in MergePosts(Some(cachedPosts), Some(newPosts))
  {
    LastWithIdUnique(newPosts, k);
    LastWithIdConcat(cachedPosts, newPosts, newPosts[k].id);
  }

  // ---------------------------------------------------------------------------
  // Dropping inactive posts

  /** Keeps the posts not explicitly marked inactive (`is_active !== false`). */
  function KeepActive(ps: seq<CachedPost>): (r: seq<CachedPost>)
    ensures |r| <= |ps|
    ensures forall p :: p in r <==> p in ps && p.isActive != Some(false)
  {
    if |ps| == 0 then []
    else
      var rest := KeepActive(ps[1..]);
      assert ps == [ps[0]] + ps[1..];
      if ps[0].isActive != Some(false) then [ps[0]] + rest else rest
  }

  /** Filtering distributes over concatenation and filtering twice changes nothing. */
  lemma {:induction false} KeepActiveConcat(a: seq<CachedPost>, b: seq<CachedPost>)
    ensures KeepActive(a + b) == KeepActive(a) + KeepActive(b)
  {
    if |a| == 0 {
      assert a + b == b;
    } else {
      assert (a + b)[1..] == a[1..] + b;
      KeepActiveConcat(a[1..], b);
    }
  }

  lemma {:induction false} KeepActiveIdempotent(ps: seq<CachedPost>)
    ensures KeepActive(KeepActive(ps)) == KeepActive(ps)
  {
    if |ps| > 0 {
      KeepActiveIdempotent(ps[1..]);
      var rest := KeepActive(ps[1..]);
      if ps[0].isActive != Some(false) {
        assert KeepActive(ps) == [ps[0]] + rest;
        assert ([ps[0]] + rest)[1..] == rest;
      }
    }
  }

  /** `filterInactivePosts`: with a non-empty cached list, saves and returns its active
      part (which also renews the timestamp); otherwise returns `[]` and writes nothing. */
  function FilterInactivePosts(storage: Storage, now: Millis): (r: (Storage, seq<CachedPost>))
    ensures var read := GetCachedPosts(storage);
      read.posts.Some? && |read.posts.value| > 0 ==>
        r.1 == KeepActive(read.posts.value) && r.0 == Storage(Some(r.1), Some(now))
    ensures var read := GetCachedPosts(storage);
      !(read.posts.Some? && |read.posts.value| > 0) ==> r == (storage, [])
    ensures forall p :: p in r.1 ==> p.isActive != Some(false)
  {
    var read := GetCachedPosts(storage);
    if read.posts.Some? && |read.posts.value| > 0 then
      var active := KeepActive(read.posts.value);
      (SavePosts(storage, active, now).0, active)
    else
      (storage, [])
  }

  // ---------------------------------------------------------------------------
  // How the operations relate

  /** Saved posts are read back unchanged with the timestamp that was returned. */
  lemma SaveThenRead(storage: Storage, posts: seq<CachedPost>, now: Millis)
    ensures var saved := SavePosts(storage, posts, now);
      GetCachedPosts(saved.0) == CacheRead(Some(posts), saved.1)
  {
  }

  /** A save is valid for exactly the cache duration after it. */
  lemma SaveThenValidity(storage: Storage, posts: seq<CachedPost>, now: Millis, later: Millis)
    ensures IsCacheValid(SavePosts(storage, posts, now).0, later) <==> later - now < CacheDuration
  {
  }

  /** After `clear` nothing is read back and the cache is never valid. */
  lemma ClearThenRead(storage: Storage, now: Millis)
    ensures GetCachedPosts(Clear(storage)) == CacheRead(None, None)
    ensures !IsCacheValid(Clear(storage), now)
  {
  }

  /** Filtering a second time returns the same list. */
  lemma FilterTwiceSameList(storage: Storage, now: Millis, later: Millis)
    ensures var once := FilterInactivePosts(storage, now);
      FilterInactivePosts(once.0, later).1 == once.1
  {
    var read := GetCachedPosts(storage);
    if read.posts.Some? && |read.posts.value| > 0 {
      KeepActiveIdempotent(read.posts.value);
    }
  }

  /** Filtering a non-empty cache renews it, even when it had expired. */
  lemma FilterRenewsCache(storage: Storage, now: Millis)
    requires GetCachedPosts(storage).posts.Some? && |GetCachedPosts(storage).posts.value| > 0
    ensures IsCacheValid(FilterInactivePosts(storage, now).0, now)
  {
  }
}
