# VisualBoard image health, posts, uploads, accounts and cache — a Dafny model

VisualBoard is a Pinterest-style board. Users post images by URL or by upload, and a
health mechanism deactivates posts whose image no longer loads. This project models
that mechanism and the endpoints around it as pure functions over immutable data.

- **The `posts` table** is a map from id to an immutable `Post` record (`PostModel`).
  Every query without `ORDER BY` enumerates the rows in a row order. The model takes
  that order as a parameter and fixes nothing about it beyond "each row exactly once".
- **The image prober** (`ImageHealth.CheckImageUrl`) covers both kinds of URL:
  - A local upload URL is answered by whether the joined path exists.
  - An external URL is answered by the outcome of a HEAD request. That outcome is a
    parameter.
- **A batch** (`ImageHealth.VerifyPostImages`) does three things:
  - selects at most 50 active posts, either the listed ids or the posts due after the
    24-hour cooldown;
  - stamps each selected post with the check time;
  - deactivates the selected posts whose verdict is negative, and returns the counters.
- **The other image-health endpoints**:
  - `check_images` picks the scope from the optional user header.
  - `get_health_status` reports the counts and a percentage, modelled in hundredths.
  - `check_single_image` sets `is_active` from the verdict, either way.
  - `reactivate_post` checks in order: 404, then ownership, then the replacement URL.
- **The other modules** cover:
  - the post CRUD endpoints: the paginated, filtered listing, and the 422/404/403 error
    order (`PostsApi`);
  - upload validation, stored names and file serving (`Upload`, over `FileStore`);
  - registration and login (`Users`);
  - the browser cache of posts (`Cache`).
- **Time** is a parameter:
  - backend time is whole seconds (`Common.Time`);
  - browser time is milliseconds (`Cache.Millis`).
- **Other parameters**:
  - the prober's verdicts, `string -> bool`;
  - SHA-256, `string -> string`;
  - `os.path.abspath`;
  - ISO date parsing;
  - the day stamp and uuid of an upload.

Where the behaviour is surprising, the model states the code's behaviour, not the
intent:

- **The batch has no ordering.** `query.limit(50)` has no `ORDER BY`, so the batch is
  the first 50 candidates in row order. It is not oldest first.
- **An empty id list means a global batch.** An empty or missing `post_ids` list runs
  the global cooldown batch. A non-empty list bypasses the cooldown.
- **A user with no active posts triggers a global batch.** That user's `check_images`
  still answers `scope: "user"`. See "## Findings".
- **Reactivation may skip the ownership test.** It does so when no `X-User-Id` header
  is sent, or when the header is empty.
- **A single check can reactivate.** `check_single_image` can flip an inactive post
  back to active.
- **The prober uses `os.path.exists`, not `isfile`.** An upload URL whose last segment
  is empty probes the path `uploads/`. It counts as reachable whenever that path
  exists. The model does not normalise paths, so `uploads/` and `uploads` are
  separate entries of the file system.
- **Register error messages follow the first matching row.** Registration's 400
  message is chosen by the first row that shares the username or the email. A taken
  username can therefore be reported as a taken email
  (`Users.RegisterReportsFirstMatchingRow`).
- **Filtering renews the cache.** `filterInactivePosts` re-saves the list, and so
  renews the cache timestamp.

## Model

| member | source | states |
|---|---|---|
| PostModel.NewPost | backend/app/models/post.py:6-18 | a new row is active, has never been checked, is stamped with its creation time, and keeps the given columns |
| PostModel.InsertFresh | backend/app/models/post.py:9 | inserting under a fresh primary key adds exactly that key, grows the table by one, and keeps every row filed under its own id |
| ImageHealth.CheckImageUrl | backend/app/api/image_health.py:17-35 | a local upload URL is reachable iff `uploads/` joined with its last path segment exists; an external URL is reachable iff the HEAD answer is 200 and its content type names an image |
| ImageHealth.IsImageContentType | backend/app/api/image_health.py:31-32 | an image iff the header is present and its lower-cased text contains `image/` or `img/` somewhere; a missing header is never an image |
| ImageHealth.Due | backend/app/api/image_health.py:46-50 | a never-checked post is due; a checked one is due iff its last check is more than 24 hours old |
| ImageHealth.CheckedDueAgainAfterWindow | backend/app/api/image_health.py:46-58 | a post checked at `t` is due again exactly once more than 24 hours have passed, whatever the verdict |
| ImageHealth.Candidates | backend/app/api/image_health.py:40-50 | the filtered query holds exactly the active posts that are listed (non-empty list) or due (empty list), each once |
| ImageHealth.SelectBatch | backend/app/api/image_health.py:52 | at most 50 distinct in-scope posts, and an in-scope post is left out only when 50 were taken |
| ImageHealth.Checked | backend/app/api/image_health.py:57-64 | a checked post carries the check time and is active exactly when its image is reachable; nothing else changes |
| ImageHealth.ApplyChecks | backend/app/api/image_health.py:54-69 | each listed post is checked and the others are untouched; checked = number listed = deactivated + active; deactivated = number unreachable |
| ImageHealth.VerifyPostImages | backend/app/api/image_health.py:38-69 | the selected posts are checked and every other post is kept; posts out of scope never change; at most 50 are checked, and fewer than 50 means every in-scope post was checked |
| ImageHealth.ListedBatchChecksAll | backend/app/api/image_health.py:42-43 | with 1 to 50 listed ids, every listed active post is checked, however recently it was last checked |
| ImageHealth.UserActivePostIds | backend/app/api/image_health.py:85-88 | exactly the user's active posts |
| ImageHealth.CheckImages | backend/app/api/image_health.py:72-99 | the scope is `user` iff the header is non-empty; with no header it is the global cooldown batch; with one it is the batch over exactly the user's active ids, which for a user without active posts is again the global batch; when the user has an active post only the user's posts change, and all of them are checked when fewer than 50 were |
| ImageHealth.UserScopeCanTouchOtherUsers | backend/app/api/image_health.py:83-89 | a user-scoped check by a user without active posts deactivates another user's post |
| ImageHealth.CheckImagesUserOnly | backend/app/api/image_health.py:78-80 | corrected scope: with a user header, no post of another user ever changes; a user with active posts gets the batch over exactly those ids, and a user without any gets an empty batch that changes nothing |
| ImageHealth.RoundHalfEven | backend/app/api/image_health.py:121 | the result is within half a unit of `n / t`, is even on an exact tie, and is exact when `t` divides `n` |
| ImageHealth.HealthHundredths | backend/app/api/image_health.py:121 | 100 % for an empty table; otherwise the nearest hundredth of a percent to `active / total` (ties to even), never above 100 % |
| ImageHealth.HealthOfTwoOutOfThree | backend/app/api/image_health.py:121 | two active posts out of three give 66.67 % |
| ImageHealth.GetHealthStatus | backend/app/api/image_health.py:102-122 | total is the table size; active and inactive are the numbers of posts with `is_active` true and false, and add up to the total; unchecked is the number of due posts whatever their `is_active`; the percentage is `HealthHundredths` of active over total |
| ImageHealth.CountUnreachableIsCard | backend/app/api/image_health.py:60-62 | over distinct ids, the deactivation counter is the number of distinct unreachable posts |
| ImageHealth.BatchActiveAccounting | backend/app/api/image_health.py:106 | after any batch, the reported active count has fallen by exactly the batch's `deactivated` |
| ImageHealth.CooldownBatchUncheckedAccounting | backend/app/api/image_health.py:45-50 | after a global batch, the reported unchecked count at the same time has fallen by exactly the batch's `checked` |
| ImageHealth.CooldownBatchClearsDue | backend/app/api/image_health.py:45-58 | a global batch takes only due posts, and afterwards exactly the posts it took have stopped being due |
| ImageHealth.CheckSingleImage | backend/app/api/image_health.py:125-151 | an unknown id is 404 and changes nothing; otherwise the post is stamped and its `is_active` becomes the verdict, including false to true |
| ImageHealth.SingleCheckAgreesWithBatch | backend/app/api/image_health.py:136-142 | on an active post, the single check leaves the same table as a batch of that one post |
| ImageHealth.Reactivate | backend/app/api/image_health.py:176-179 | the reactivated row is active and stamped; its URL is replaced iff a replacement was given; nothing else changes |
| ImageHealth.ReactivatePost | backend/app/api/image_health.py:154-187 | errors come in order 404, then 403 (only when a non-empty header names someone else), then 400 for an unreachable replacement, and leave the table unchanged; success iff none applies |
| ImageHealth.ReactivateIdempotent | backend/app/api/image_health.py:178-179 | reactivating again without a URL succeeds and only moves the check time |
| ImageHealth.ReactivateWithoutUrlIgnoresProber | backend/app/api/image_health.py:171-176 | without a replacement URL the result does not depend on the prober |
| PostsApi.ReplaceZ | backend/app/api/posts.py:46 | leaves no `Z` behind and changes a text with no `Z` not at all |
| PostsApi.ReplaceZConcat | backend/app/api/posts.py:46 | the replacement distributes over concatenation, so it works character by character |
| PostsApi.ReplaceZOfChar | backend/app/api/posts.py:46 | a `Z` becomes `+00:00` and any other character stays; with the previous row this fixes the result |
| PostsApi.Listed | backend/app/api/posts.py:37-47 | listed iff active, owned by the requested owner when one is given, and created strictly after the bound when one is given; with neither filter every active post is listed |
| PostsApi.ListedIds | backend/app/api/posts.py:34-47 | exactly the active rows matching the owner and date filters, each once |
| PostsApi.Listing | backend/app/api/posts.py:51-55 | newest first; its length is the number of listed rows; it holds only listed rows, as stored, and every listed row |
| PostsApi.CeilDiv | backend/app/api/posts.py:52 | the smallest page count whose pages hold `total` rows |
| PostsApi.PageSlice | backend/app/api/posts.py:55 | the page is the run of `per_page` rows starting at `(page - 1) * per_page`, shorter at the end, empty past it |
| PostsApi.ListPage | backend/app/api/posts.py:51-72 | the total counts every listed row; total_pages is its ceiling over per_page; the items are that page of the listing, each with `author` equal to `user_id` |
| PostsApi.GetPosts | backend/app/api/posts.py:25-72 | out-of-range paging is 422; an unparseable non-empty `min_date` is 400; success iff neither; an empty `user_id` or `min_date` filters nothing; the page properties above |
| PostsApi.PagePosition | backend/app/api/posts.py:55 | the row at listing position `i` is row `i mod per_page` of page `i div per_page + 1` |
| PostsApi.PagesPastTheEndAreEmpty | backend/app/api/posts.py:52-55 | pages beyond total_pages are empty |
| PostsApi.FifteenPostsTwoPages | backend/app/api/posts.py:52-55 | 15 rows at 10 per page make two pages, of 10 and 5, which together are the listing |
| PostsApi.GetPost | backend/app/api/posts.py:75-91 | 404 iff the id is unknown; inactive posts are returned too; `author` is `user_id` |
| Common.OrEmpty | backend/app/api/posts.py:106 | an absent list reads as `[]`, a present one as itself: absent tags and `[]` store the same value; a non-array `cachedPosts`/`newPosts` adds nothing to a merge (frontend/src/utils/cache.js:54, :61) |
| PostsApi.CreatePost | backend/app/api/posts.py:94-116 | 422 without the header; otherwise exactly one new row under the fresh id, owned by the header's user, active and unchecked, so the table gains exactly that key |
| PostsApi.Authorize | backend/app/api/posts.py:127-133 | a missing header gives 422, then an unknown id 404, then a non-owner 403; it succeeds iff the requester owns the post |
| PostsApi.UpdatePost | backend/app/api/posts.py:119-146 | errors as Authorize, with the table unchanged; success replaces title, description, URL and tags, and keeps `is_active` and `last_image_check` |
| PostsApi.PartialUpdatePost | backend/app/api/posts.py:149-181 | errors as Authorize, with the table unchanged; each field given with a value replaces the stored one, and each absent or null field keeps it |
| PostsApi.DeletePost | backend/app/api/posts.py:184-202 | errors as Authorize, with the table unchanged; success removes exactly that row |
| PostsApi.FullPatchIsPut | backend/app/api/posts.py:135-138 | a PATCH giving every field equals the PUT with the same values |
| PostsApi.EmptyPatchChangesNothing | backend/app/api/posts.py:165-173 | a PATCH giving no field leaves the table unchanged |
| PostsApi.CreateGetDelete | backend/app/api/posts.py:75-116 | a created post is fetched back as created; its owner can delete it; afterwards it is 404 |
| FileStore.JoinUploadDir | backend/app/api/upload.py:54 | an absolute name replaces the upload directory; any other name is appended after one slash |
| FileStore.WriteFile | backend/app/api/upload.py:57-58 | the path becomes an existing regular file; no other path changes |
| FileStore.RemoveFile | backend/app/api/upload.py:112 | the path no longer exists; no other path changes |
| Upload.DecimalText | backend/app/api/upload.py:38 | the decimal digits of `n`, most significant first, whose value is `n`; a single digit iff `n` is below ten, and a leading zero only for zero itself |
| Upload.TooLargeMessageFigure | backend/app/api/upload.py:35-39 | the size message, built from `MAX_FILE_SIZE // (1024*1024)`, reads "Máximo 10MB" |
| Upload.SplitExt | backend/app/api/upload.py:23 | the two parts rejoin to the name; there is an extension iff the last dot comes after the last slash and a non-dot precedes it in the last component, and the extension then starts at that dot; it is one dot followed by neither dots nor slashes |
| Upload.Extension | backend/app/api/upload.py:23 | the part `splitext` splits off, character by character lower-cased |
| Upload.ExtensionOfStem | backend/app/api/upload.py:23-24 | an allowed extension appended to a slash-free stem with a non-dot character is read back exactly |
| Upload.DotfileHasNoExtension | backend/app/api/upload.py:23-28 | `.png` has no extension, so it is rejected |
| Upload.UpperCaseExtensionAccepted | backend/app/api/upload.py:23-24 | `photo.PNG` is accepted as `.png` |
| Upload.ValidateFile | backend/app/api/upload.py:20-39 | the extension is checked before the size; valid iff the extension is allowed and the size is at most 10 MiB |
| Upload.UniqueFilename | backend/app/api/upload.py:52-53 | the stored name is the day stamp, `_`, the uuid and the extension; it has no slash and keeps the extension |
| Upload.UploadImage | backend/app/api/upload.py:42-75 | validation errors are the 400 of `ValidateFile`; a valid file with an unwritable target is a 500 with the files unchanged, and with a writable one a success; success writes exactly `uploads/<name>` and returns the public URL of that name and the size |
| Upload.Locate | backend/app/api/upload.py:83-91 | 404 iff the joined path does not exist; 403 when it is not a regular file or normalises outside the upload directory; otherwise that path |
| Upload.GetImage | backend/app/api/upload.py:78-93 | what is served is a regular file at the joined path that normalises inside the upload directory; 404 iff the path does not exist; 403 iff it exists but is not such a file |
| Upload.DeleteImage | backend/app/api/upload.py:96-115 | errors as Locate, with the files unchanged; success removes exactly the joined path |
| Upload.UploadThenGet | backend/app/api/upload.py:61-93 | an uploaded image is served back under its returned name |
| Upload.DeleteThenGetNotFound | backend/app/api/upload.py:83-112 | a deleted image is 404 afterwards |
| Users.FirstWhere | backend/app/api/users.py:27-29 | the position of the first row satisfying the filter, or none when no row does |
| Users.Register | backend/app/api/users.py:20-62 | 400 iff some row shares the username or the email, with the message chosen by the first such row; an error leaves the table unchanged; success appends one account storing only the password's hash; the unique columns stay unique |
| Users.Login | backend/app/api/users.py:65-94 | an unknown account and a wrong password give the same 401 and change nothing; success iff the first matching row's hash matches, and then only its `last_login` changes |
| Users.GetProfile | backend/app/api/users.py:97-111 | 404 iff no row has the username; otherwise that row without its hash |
| Users.CheckAvailability | backend/app/api/users.py:114-125 | available iff no row has the username |
| Users.RegisterTakesUsername | backend/app/api/users.py:26-62 | a registration succeeds only for an available username; afterwards the username is unavailable and its profile is the new account |
| Users.RegisterThenLogin | backend/app/api/users.py:44-94 | a new account logs in by username with its password, and is stamped with the login time |
| Users.RegisterReportsFirstMatchingRow | backend/app/api/users.py:31-41 | a username taken by a later row is reported as a taken email when an earlier row has the email |
| Cache.SavePosts | frontend/src/utils/cache.js:7-18 | both slots are written, and the timestamp written is returned |
| Cache.GetCachedPosts | frontend/src/utils/cache.js:21-40 | both parts are present iff both slots are set, and then they are the stored values |
| Cache.IsCacheValid | frontend/src/utils/cache.js:80-91 | valid only with a timestamp, and then iff it is less than five minutes old; the posts slot is not consulted |
| Cache.Clear | frontend/src/utils/cache.js:94-98 | both slots are emptied |
| Cache.MapSet | frontend/src/utils/cache.js:55-57 | setting a key keeps the ids unique, and every lookup afterwards is as if the post had been appended last |
| Cache.SetAll | frontend/src/utils/cache.js:61-65 | after setting a whole list, every lookup is the last occurrence in entries followed by the list |
| Cache.MergePosts | frontend/src/utils/cache.js:50-77 | newest first; one post per id; the ids are those of both inputs; each post is the last one with its id in the cached list followed by the new list |
| Cache.FreshPostsWin | frontend/src/utils/cache.js:61-65 | every post of a fresh list with distinct ids survives the merge unchanged |
| Cache.KeepActive | frontend/src/utils/cache.js:105 | keeps exactly the posts not marked `is_active: false` |
| Cache.KeepActiveConcat | frontend/src/utils/cache.js:105 | filtering distributes over concatenation |
| Cache.KeepActiveIdempotent | frontend/src/utils/cache.js:105 | filtering twice equals filtering once |
| Cache.FilterInactivePosts | frontend/src/utils/cache.js:101-111 | a non-empty cached list is replaced by its active part and saved at `now`; otherwise nothing is written and `[]` is returned |
| Cache.SaveThenRead | frontend/src/utils/cache.js:7-40 | saved posts are read back unchanged, with the returned timestamp |
| Cache.SaveThenValidity | frontend/src/utils/cache.js:80-91 | a save is valid exactly while less than five minutes old |
| Cache.ClearThenRead | frontend/src/utils/cache.js:94-98 | after clearing, nothing is read back and the cache is never valid |
| Cache.FilterTwiceSameList | frontend/src/utils/cache.js:101-111 | filtering a second time returns the same list |
| Cache.FilterRenewsCache | frontend/src/utils/cache.js:101-111 | filtering a non-empty cache makes it valid again |
| Scenarios.UploadedImageIsReachable | backend/app/api/upload.py:61-65 | a valid upload to a writable target succeeds, and the URL it returns is local to the prober, which finds the file just written |
| Scenarios.DeletedImageIsUnreachable | backend/app/api/image_health.py:20-23 | after deleting a stored image, the prober reports its URL unreachable |
| Scenarios.BrokenUploadLifecycle | backend/app/api/image_health.py:136-179 | a post whose upload is missing is deactivated by a single check and leaves the listing; reactivating without a URL restores it without probing |
| Sorting.InsertDesc | frontend/src/utils/cache.js:68-70 | inserting into a newest-first list keeps it newest first and adds exactly that element |
| Sorting.SortDesc | backend/app/api/posts.py:55 | the result is newest first and a permutation of the input |
| Common.Lower | backend/app/api/upload.py:23 | same length; each character is lower-cased |
| Common.LastSegment | backend/app/api/image_health.py:21 | a slash-free suffix of the text that is either all of it or preceded by a slash |
| Common.Contains | backend/app/api/image_health.py:32 | holds iff the text occurs at some position |

## Left out

- **HTTP, the event loop and background tasks.** None of them is modelled. `check_images`
  returns its acknowledgement and the batch's outcome together. The batch itself runs
  later in a background task, and the periodic checker in
  backend/app/tasks/image_checker.py is not part of this model.
- **HEAD requests.** The 5-second timeout and redirects are folded into the
  `HeadOutcome` parameter.
- **Clocks and time zones.**
  - `utcnow()` is one `now` for a whole batch.
  - `updated_at` (an `onupdate` column) is not modelled.
  - Comparisons between naive and aware datetimes are not modelled.
- **Floating point and Unicode.**
  - `ImageHealth.HealthHundredths`: computes on the exact ratio. Python rounds the
    float `active / total * 100`, and that float can sit just off a tie.
  - `Common.Lower`: lower-cases ASCII letters only, not all of Unicode.
- **Pydantic validation beyond the required header and the paging ranges.**
  - `HttpUrl` normalisation of `image_url`: the URL string is taken as given.
  - `EmailStr`.
  - Non-integer query values.
  - Column lengths (`String(200)` and the like).
- **JSON.** Encoding and decoding of tags, and of the cached post list, are taken to
  round-trip.
- **`PostsApi.CeilDiv`**: exact integer ceiling. `math.ceil(total / per_page)` divides
  floats, which agrees only for totals below 2^53.
- **`PostsApi.Listing`**: breaks ties in `created_at` by row order. The database may
  order ties in any way, and the listing's contract claims only the newest-first order.
- **Errors the model does not produce:**
  - the `IntegrityError` branch of registration, which needs a concurrent insert;
  - the 500 on other exceptions in `upload_image` and `delete_image`. Only the
    unwritable-target 500 is modelled, and it carries the fixed message prefix without
    the exception text.
- **`Upload.ValidateFile`**: the listing of allowed extensions in the 400 message is a
  parameter. It follows the process's set iteration order.
- **`ImageHealth.VerifyPostImages`**: the prober's verdicts are one function of the URL for a
  whole batch. The source sends one HEAD request per post, so two posts with the same
  external URL could get different verdicts within one batch. No property here depends
  on that.
- **`Upload.UploadImage`**: the size is the uploaded byte count. Streaming and
  `file.close()` are not modelled.
- **`getTimestamp`** (frontend/src/utils/cache.js:43-47) only reads the timestamp slot.
  It is not modelled separately from `GetCachedPosts`.
- **Cache storage failures.** A failed `localStorage` write (quota), a `JSON.parse`
  failure, another writer of the two keys, and unparseable dates are not modelled.
  Console logging is not modelled either.
- **Everything outside this core:**
  - the discover and Unsplash endpoints;
  - the health endpoint;
  - the React pages and hooks.

## Findings

| source | as written | input that shows it | evidently intended | confidence | as-written member | corrected member |
|---|---|---|---|---|---|---|
| backend/app/api/image_health.py:83-89 | a user header whose user has no active posts builds an empty id list, and the batch treats an empty list as "check everything due" | header `alice`; one active, never-checked post owned by `bob` whose image is unreachable: bob's post is deactivated while the answer says `scope: "user"` | with a user header, check only that user's posts, so a user without active posts checks nothing (the endpoint's own docstring, line 80) | high, not executed | ImageHealth.UserScopeCanTouchOtherUsers | ImageHealth.CheckImagesUserOnly |
