/** How the upload store, the prober and the post endpoints fit together. */
module Scenarios {
  import opened Common
  import opened PostModel
  import opened FileStore
  import Upload
  import ImageHealth
  import PostsApi

  /** A valid upload to a writable target succeeds; the URL it returns is one the
      prober treats as local, and the prober finds the file the upload wrote: a
      fresh upload is reachable. */
  lemma UploadedImageIsReachable(fs: FileSystem, filename: string, size: nat, allowedListing: string,
                                 day: string, token: string, head: string -> ImageHealth.HeadOutcome)
    requires Valid(fs)
    requires Upload.IsDayStamp(day) && Upload.IsUuidText(token)
    requires Upload.ValidateFile(filename, size, allowedListing).Ok?
    requires Upload.WritableTarget(fs, UploadDir + "/" + Upload.UniqueFilename(day, token, Upload.Extension(filename)))
    ensures var up := Upload.UploadImage(fs, filename, size, allowedListing, day, token);
      && up.1.Ok?
      && StartsWith(up.1.value.imageUrl, ImageHealth.LocalImagePrefix)
      && ImageHealth.CheckImageUrl(up.1.value.imageUrl, up.0, head)
  {
    var up := Upload.UploadImage(fs, filename, size, allowedListing, day, token);
    var name := up.1.value.filename;
    var url := up.1.value.imageUrl;
    assert url == ImageHealth.LocalImagePrefix + name;
    StartsWithConcat(ImageHealth.LocalImagePrefix, name);
    assert url[|ImageHealth.LocalImagePrefix|..] == name;
    LastSegmentOfSegment(name);
  }

  /** Once a stored image is deleted, the prober reports its URL unreachable. */
  lemma DeletedImageIsUnreachable(fs: FileSystem, name: string, absPath: string -> string,
                                  head: string -> ImageHealth.HeadOutcome)
    requires Valid(fs)
    requires '/' !in name
    requires Upload.DeleteImage(fs, name, absPath).1.Ok?
    ensures !ImageHealth.CheckImageUrl(ImageHealth.LocalImagePrefix + name, Upload.DeleteImage(fs, name, absPath).0, head)
  {
    var url := ImageHealth.LocalImagePrefix + name;
    StartsWithConcat(ImageHealth.LocalImagePrefix, name);
    assert url[|ImageHealth.LocalImagePrefix|..] == name;
    LastSegmentOfSegment(name);
    assert |name| == 0 || name[0] != '/' by {
      if |name| > 0 {
        assert name[0] in name;
      }
    }
  }

  /** A post whose uploaded image has gone missing is deactivated by a single check
      and so drops out of the listing; reactivating it without a new URL makes it
      active again without looking at the image. */
  lemma BrokenUploadLifecycle(store: Store, freshId: PostId, input: PostsApi.PostInput, user: string, now: Time,
                              later: Time, fs: FileSystem, name: string, head: string -> ImageHealth.HeadOutcome)
    requires freshId !in store
    requires '/' !in name
    requires input.imageUrl == ImageHealth.LocalImagePrefix + name
    requires !Exists(fs, UploadDir + "/" + name)
    ensures var created := PostsApi.CreatePost(store, freshId, input, Some(user), now).store;
      var probe := (url: string) => ImageHealth.CheckImageUrl(url, fs, head);
      var checked := ImageHealth.CheckSingleImage(created, freshId, later, probe).store;
      var restored := ImageHealth.ReactivatePost(checked, freshId, Some(user), None, later, probe).store;
      && created[freshId].isActive
      && !checked[freshId].isActive
      && !PostsApi.Listed(checked[freshId], None, None)
      && restored[freshId].isActive
      && restored[freshId].imageUrl == input.imageUrl
  {
    var url := input.imageUrl;
    StartsWithConcat(ImageHealth.LocalImagePrefix, name);
    assert url[|ImageHealth.LocalImagePrefix|..] == name;
    LastSegmentOfSegment(name);
  }
}
