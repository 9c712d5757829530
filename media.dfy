/** media.go: which local media files to upload, the upload driver and the manifest
    merge for media. */
module MediaSync {
  import opened Wrappers

  /** A media item: the remote id, the source and page links the server reports, and
      the name of its file (the join key with the manifest). */
  datatype Media = Media(id: int, url: string, link: string, localFile: string)

  /** Some record of `remote` has the file name of `m`. */
  predicate Known(m: Media, remote: seq<Media>) {
    exists r :: r in remote && r.localFile == m.localFile
  }

  // ---------------------------------------------------------------------------
  // Classifier (compareMedia)

  /** The local items no record of `remote` knows, in local order. */
  function NewMedia(local: seq<Media>, remote: seq<Media>): seq<Media> {
    if local == [] then []
    else
      var m := local[|local| - 1];
      NewMedia(local[..|local| - 1], remote) + (if Known(m, remote) then [] else [m])
  }

  /** compareMedia: for each local item, scan every remote record with a flag; any
      record of the same file name skips the item, and an item no record knows is
      kept. */
  method CompareMedia(local: seq<Media>, remote: seq<Media>) returns (media: seq<Media>)
    ensures media == NewMedia(local, remote)
  {
    media := [];
    var i := 0;
    while i < |local|
      invariant 0 <= i <= |local|
      invariant media == NewMedia(local[..i], remote)
    {
      var m := local[i];
      var known := false;
      var j := 0;
      while j < |remote|
        invariant 0 <= j <= |remote|
        invariant known <==> Known(m, remote[..j])
      {
        KnownSnoc(m, remote, j);
        if m.localFile == remote[j].localFile {
          known := true;
        }
        j := j + 1;
      }
      assert remote[..j] == remote;
      if !known {
        media := media + [m];
      }
      assert local[..i + 1][..i] == local[..i];
      i := i + 1;
    }
    assert local[..i] == local;
  }

  /** One more record scanned: the item is known to the longer prefix exactly when it
      was known before or the new record has its file name. */
  lemma KnownSnoc(m: Media, remote: seq<Media>, j: int)
    requires 0 <= j < |remote|
    ensures Known(m, remote[..j + 1]) <==> Known(m, remote[..j]) || remote[j].localFile == m.localFile
  {
    assert remote[..j + 1] == remote[..j] + [remote[j]];
  }

  // Classifier properties

  /** An item is kept exactly when it is local and no record has its file name; the
      records' ids and links play no part. */
  lemma {:induction false} NewMediaMembers(local: seq<Media>, remote: seq<Media>)
    ensures forall x :: x in NewMedia(local, remote) <==> x in local && !Known(x, remote)
  {
    if local != [] {
      var init := local[..|local| - 1];
      NewMediaMembers(init, remote);
      assert local == init + [local[|local| - 1]];
    }
  }

  /** The items kept from `a + b` are those kept from `a` followed by those kept from
      `b`: the filter keeps local order. */
  lemma {:induction false} NewMediaConcat(a: seq<Media>, b: seq<Media>, remote: seq<Media>)
    ensures NewMedia(a + b, remote) == NewMedia(a, remote) + NewMedia(b, remote)
  {
    if b == [] {
      assert a + b == a;
    } else {
      var init, last := b[..|b| - 1], b[|b| - 1];
      NewMediaConcat(a, init, remote);
      assert (a + b)[..|a + b| - 1] == a + init && (a + b)[|a + b| - 1] == last;
    }
  }

  /** With no manifest yet (a first run), every local item is new, in order. */
  lemma {:induction false} FirstMediaRun(local: seq<Media>)
    ensures NewMedia(local, []) == local
  {
    if local != [] {
      FirstMediaRun(local[..|local| - 1]);
      assert local == local[..|local| - 1] + [local[|local| - 1]];
    }
  }

  /** Nothing is new against a manifest that has a record for every local file. */
  lemma {:induction false} NoNewMedia(local: seq<Media>, manifest: seq<Media>)
    requires forall i :: 0 <= i < |local| ==> Known(local[i], manifest)
    ensures NewMedia(local, manifest) == []
  {
    if local != [] {
      var init := local[..|local| - 1];
      assert forall i :: 0 <= i < |init| ==> init[i] == local[i];
      NoNewMedia(init, manifest);
      assert Known(local[|local| - 1], manifest);
    }
  }

  // ---------------------------------------------------------------------------
  // Upload driver (uploadMediaItems)

  /** What uploadMediaItems keeps of one item: the server's answer with the item's file
      name, when the prompt is confirmed. In this revision the upload call has no
      failure result. */
  function UploadedItem(m: Media, confirm: Media -> bool, upload: Media -> Media): seq<Media> {
    if confirm(m) then [upload(m).(localFile := m.localFile)] else []
  }

  function Uploaded(media: seq<Media>, confirm: Media -> bool, upload: Media -> Media): seq<Media> {
    if media == [] then []
    else Uploaded(media[..|media| - 1], confirm, upload) + UploadedItem(media[|media| - 1], confirm, upload)
  }

  /** uploadMediaItems: ask for each item, upload the confirmed ones and keep the
      answers, each with the file name of its item. `confirm` is the prompt's answer and
      `upload` the API call. */
  method UploadMediaItems(media: seq<Media>, confirm: Media -> bool, upload: Media -> Media)
    returns (uploadedMedia: seq<Media>)
    ensures uploadedMedia == Uploaded(media, confirm, upload)
  {
    uploadedMedia := [];
    var i := 0;
    while i < |media|
      invariant 0 <= i <= |media|
      invariant uploadedMedia == Uploaded(media[..i], confirm, upload)
    {
      var m := media[i];
      if confirm(m) {
        var upm := upload(m);
        upm := upm.(localFile := m.localFile);
        uploadedMedia := uploadedMedia + [upm];
      }
      assert media[..i + 1][..i] == media[..i];
      i := i + 1;
    }
    assert media[..i] == media;
  }

  // Upload properties

  /** Every uploaded record is the server's answer for a confirmed item, with that item's
      file name, and every confirmed item yields one. */
  lemma {:induction false} UploadedMembers(media: seq<Media>, confirm: Media -> bool, upload: Media -> Media)
    ensures forall u :: u in Uploaded(media, confirm, upload) <==>
      exists m :: m in media && confirm(m) && u == upload(m).(localFile := m.localFile)
  {
    if media != [] {
      var init := media[..|media| - 1];
      UploadedMembers(init, confirm, upload);
      assert media == init + [media[|media| - 1]];
    }
  }

  /** The uploads of `a + b` are those of `a` followed by those of `b`: results keep
      input order. */
  lemma {:induction false} UploadedConcat(a: seq<Media>, b: seq<Media>, confirm: Media -> bool, upload: Media -> Media)
    ensures Uploaded(a + b, confirm, upload) == Uploaded(a, confirm, upload) + Uploaded(b, confirm, upload)
  {
    if b == [] {
      assert a + b == a;
    } else {
      var init, last := b[..|b| - 1], b[|b| - 1];
      UploadedConcat(a, init, confirm, upload);
      assert (a + b)[..|a + b| - 1] == a + init && (a + b)[|a + b| - 1] == last;
      assert Uploaded(a + b, confirm, upload) == Uploaded(a + init, confirm, upload) + UploadedItem(last, confirm, upload);
    }
  }

  /** When every item is confirmed, position k of the result is the answer for item k,
      with item k's file name. */
  lemma {:induction false} UploadedAllConfirmed(media: seq<Media>, confirm: Media -> bool, upload: Media -> Media)
    requires forall k :: 0 <= k < |media| ==> confirm(media[k])
    ensures |Uploaded(media, confirm, upload)| == |media|
    ensures forall k :: 0 <= k < |media| ==>
      Uploaded(media, confirm, upload)[k] == upload(media[k]).(localFile := media[k].localFile)
  {
    if media != [] {
      UploadedAllConfirmed(media[..|media| - 1], confirm, upload);
    }
  }

  /** A declined item is not uploaded: nothing in the result carries its file name
      unless another confirmed item has the same one. */
  lemma DeclinedNotUploaded(media: seq<Media>, confirm: Media -> bool, upload: Media -> Media, f: string)
    requires forall m :: m in media && m.localFile == f ==> !confirm(m)
    ensures forall u :: u in Uploaded(media, confirm, upload) ==> u.localFile != f
  {
    UploadedMembers(media, confirm, upload);
  }

  // ---------------------------------------------------------------------------
  // Manifest merge (writeRemoteMedia)

  /** The manifest to write, or None when there is nothing to write: the existing
      records, unchanged, followed by the new ones. */
  function MediaManifest(media: seq<Media>, existing: seq<Media>): Option<seq<Media>> {
    if |media| == 0 then None else Some(existing + media)
  }

  /** writeRemoteMedia, without the JSON encoding and the file write: nothing for an
      empty list; otherwise the new records are appended to the manifest read back at
      this point, `existing`. */
  method WriteRemoteMedia(media: seq<Media>, existing: seq<Media>) returns (written: Option<seq<Media>>)
    ensures written == MediaManifest(media, existing)
    ensures written.None? <==> media == []
    ensures written.Some? ==> |written.value| == |existing| + |media|
    ensures written.Some? ==> written.value[..|existing|] == existing && written.value[|existing|..] == media
  {
    if |media| == 0 {
      return None;
    }
    var existingMedia := existing;
    existingMedia := existingMedia + media;
    written := Some(existingMedia);
  }

  /** A file known before the merge stays known after it. */
  lemma ManifestKeepsKnown(m: Media, media: seq<Media>, existing: seq<Media>)
    requires Known(m, existing)
    ensures Known(m, MediaManifest(media, existing).GetOr(existing))
  {
    var r :| r in existing && r.localFile == m.localFile;
    if media != [] {
      assert r in existing + media;
    }
  }

  /** One run over the media directory: the new items, uploaded, merged into the
      manifest; the result is the manifest the next run reads. */
  function RunMedia(local: seq<Media>, remote: seq<Media>, confirm: Media -> bool, upload: Media -> Media): seq<Media> {
    MediaManifest(Uploaded(NewMedia(local, remote), confirm, upload), remote).GetOr(remote)
  }

  /** When every prompt is confirmed, a second run over the same files uploads nothing:
      the first run's manifest knows every local file. */
  lemma SecondMediaRunIsQuiet(local: seq<Media>, remote: seq<Media>, confirm: Media -> bool, upload: Media -> Media)
    requires forall m :: confirm(m)
    ensures NewMedia(local, RunMedia(local, remote, confirm, upload)) == []
  {
    var n := NewMedia(local, remote);
    var u := Uploaded(n, confirm, upload);
    var manifest := RunMedia(local, remote, confirm, upload);
    NewMediaMembers(local, remote);
    UploadedAllConfirmed(n, confirm, upload);
    forall i | 0 <= i < |local| ensures Known(local[i], manifest) {
      if Known(local[i], remote) {
        ManifestKeepsKnown(local[i], u, remote);
      } else {
        assert local[i] in n;
        var k :| 0 <= k < |n| && n[k] == local[i];
        assert u[k].localFile == local[i].localFile;
        assert u != [] && manifest == remote + u;
        assert manifest[|remote| + k] == u[k];
      }
    }
    NoNewMedia(local, manifest);
  }
}
