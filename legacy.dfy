/** io.go: an older revision of the reconciliation, kept beside the current one. It
    only ever creates (no update list), uploads without asking and without a failure
    result, overwrites the uploaded fields in place, writes a manifest holding only the
    new records, and parses front matter into a page with a time-valued date and an
    unrendered body. */
module Legacy {
  import opened Wrappers
  import opened GoStrings
  import opened GoTime
  import opened FrontMatter
  import Posts
  import MediaSync

  type Post = Posts.Post
  type Media = MediaSync.Media

  // ---------------------------------------------------------------------------
  // Classifiers (comparePosts, compareMedia)

  /** comparePosts of this revision: for each local post, scan every remote record with
      a flag; a post whose file name some record has is skipped, whatever its times, and
      the others are kept, in local order. */
  method ComparePosts(local: seq<Post>, remote: seq<Post>) returns (posts: seq<Post>)
    ensures posts == Posts.NewPosts(local, remote)
  {
    posts := [];
    var i := 0;
    while i < |local|
      invariant 0 <= i <= |local|
      invariant posts == Posts.NewPosts(local[..i], remote)
    {
      var p := local[i];
      var known := false;
      var j := 0;
      while j < |remote|
        invariant 0 <= j <= |remote|
        invariant known <==> Posts.HasRecord(p, remote[..j])
      {
        Posts.ScanSnoc(p, remote, j);
        if p.localFile == remote[j].localFile {
          known := true;
        }
        j := j + 1;
      }
      assert remote[..j] == remote;
      if !known {
        posts := posts + [p];
      }
      assert local[..i + 1][..i] == local[..i];
      i := i + 1;
    }
    assert local[..i] == local;
  }

  /** A post that has a record is never sent again, however recently its file changed:
      this revision has no path for updates. */
  lemma ChangedPostsNotResent(local: seq<Post>, remote: seq<Post>, i: int)
    requires 0 <= i < |local| && Posts.HasRecord(local[i], remote)
    ensures local[i] !in Posts.NewPosts(local, remote)
  {
    Posts.NewPostsMembers(local, remote);
  }

  /** compareMedia of this revision: the same flag loop as the current one, which it
      calls; only the logging differs. */
  method CompareMedia(local: seq<Media>, remote: seq<Media>) returns (media: seq<Media>)
    ensures media == MediaSync.NewMedia(local, remote)
  {
    media := MediaSync.CompareMedia(local, remote);
  }

  // ---------------------------------------------------------------------------
  // Upload drivers (uploadPosts, uploadMediaItems): in place, no prompt, no failure

  /** One post after its upload: the id and link of the server's answer for its file
      name, every other field as before. */
  function UploadedPost(p: Post, upload: string -> Post): Post {
    p.(id := upload(p.localFile).id, url := upload(p.localFile).url)
  }

  function UploadedPosts(ps: seq<Post>, upload: string -> Post): seq<Post> {
    if ps == [] then []
    else UploadedPosts(ps[..|ps| - 1], upload) + [UploadedPost(ps[|ps| - 1], upload)]
  }

  /** The uploaded list has the same length as its input; position k is post k with
      the id and link of the answer for post k's file, and nothing else changed. */
  lemma {:induction false} UploadedPostsSpec(ps: seq<Post>, upload: string -> Post)
    ensures |UploadedPosts(ps, upload)| == |ps|
    ensures forall k :: 0 <= k < |ps| ==>
      var q := UploadedPosts(ps, upload)[k];
      && q.id == upload(ps[k].localFile).id && q.url == upload(ps[k].localFile).url
      && q == ps[k].(id := q.id, url := q.url)
  {
    if ps != [] {
      UploadedPostsSpec(ps[..|ps| - 1], upload);
    }
  }

  /** uploadPosts: upload every post by its file name and overwrite its id and link in
      the caller's slice. `upload` is the API call of this revision, which takes the
      file name and cannot fail. */
  method UploadPosts(posts: array<Post>, upload: string -> Post)
    modifies posts
    ensures posts[..] == UploadedPosts(old(posts[..]), upload)
  {
    ghost var before := posts[..];
    var i := 0;
    while i < posts.Length
      invariant 0 <= i <= posts.Length
      invariant forall k :: 0 <= k < i ==> posts[k] == UploadedPost(before[k], upload)
      invariant forall k :: i <= k < posts.Length ==> posts[k] == before[k]
    {
      var p := upload(posts[i].localFile);
      posts[i] := posts[i].(id := p.id);
      posts[i] := posts[i].(url := p.url);
      i := i + 1;
    }
    UploadedPostsSpec(before, upload);
    assert posts[..] == UploadedPosts(before, upload);
  }

  /** One item after its upload: the id and page link of the server's answer, every
      other field, the source link included, as before. */
  function UploadedItem(m: Media, upload: Media -> Media): Media {
    m.(id := upload(m).id, link := upload(m).link)
  }

  function UploadedItems(ms: seq<Media>, upload: Media -> Media): seq<Media> {
    if ms == [] then []
    else UploadedItems(ms[..|ms| - 1], upload) + [UploadedItem(ms[|ms| - 1], upload)]
  }

  /** The uploaded list has the same length as its input; position k is item k with
      the id and page link of the answer for item k, and nothing else changed. */
  lemma {:induction false} UploadedItemsSpec(ms: seq<Media>, upload: Media -> Media)
    ensures |UploadedItems(ms, upload)| == |ms|
    ensures forall k :: 0 <= k < |ms| ==>
      var q := UploadedItems(ms, upload)[k];
      && q.id == upload(ms[k]).id && q.link == upload(ms[k]).link
      && q == ms[k].(id := q.id, link := q.link)
  {
    if ms != [] {
      UploadedItemsSpec(ms[..|ms| - 1], upload);
    }
  }

  /** uploadMediaItems of this revision: upload every item and overwrite its id and
      page link in the caller's slice. */
  method UploadMediaItems(media: array<Media>, upload: Media -> Media)
    modifies media
    ensures media[..] == UploadedItems(old(media[..]), upload)
  {
    ghost var before := media[..];
    var i := 0;
    while i < media.Length
      invariant 0 <= i <= media.Length
      invariant forall k :: 0 <= k < i ==> media[k] == UploadedItem(before[k], upload)
      invariant forall k :: i <= k < media.Length ==> media[k] == before[k]
    {
      var m := upload(media[i]);
      media[i] := media[i].(id := m.id);
      media[i] := media[i].(link := m.link);
      i := i + 1;
    }
    UploadedItemsSpec(before, upload);
    assert media[..] == UploadedItems(before, upload);
  }

  // ---------------------------------------------------------------------------
  // Manifest writes (writeRemotePosts, writeRemoteMedia)

  /** The posts manifest this revision writes: nothing for an empty list, and
      otherwise the new records alone; the existing records it reads and appends to
      are dropped. */
  function WrittenPostsAsWritten(posts: seq<Post>, existing: seq<Post>): Option<seq<Post>> {
    if |posts| == 0 then None else Some(posts)
  }

  /** writeRemotePosts as written, without the JSON encoding and the file write. */
  method WriteRemotePostsAsWritten(posts: seq<Post>, existing: seq<Post>) returns (written: Option<seq<Post>>)
    ensures written == WrittenPostsAsWritten(posts, existing)
    ensures written.None? <==> posts == []
    ensures written.Some? ==> written.value == posts
  {
    if |posts| == 0 {
      return None;
    }
    var existingPosts := existing;
    existingPosts := existingPosts + posts;
    written := Some(posts);
  }

  /** The posts manifest the appending step evidently intends: the existing records,
      unchanged, followed by the new ones. */
  function PostsManifest(posts: seq<Post>, existing: seq<Post>): Option<seq<Post>> {
    if |posts| == 0 then None else Some(existing + posts)
  }

  /** writeRemotePosts corrected to write what it appends. */
  method WriteRemotePosts(posts: seq<Post>, existing: seq<Post>) returns (written: Option<seq<Post>>)
    ensures written == PostsManifest(posts, existing)
    ensures written.None? <==> posts == []
    ensures written.Some? ==> |written.value| == |existing| + |posts|
    ensures written.Some? ==> written.value[..|existing|] == existing && written.value[|existing|..] == posts
  {
    if |posts| == 0 {
      return None;
    }
    var existingPosts := existing;
    existingPosts := existingPosts + posts;
    written := Some(existingPosts);
  }

  /** The media manifest this revision writes: the new records alone. The current
      revision's writeRemoteMedia (MediaSync.WriteRemoteMedia) writes the existing
      records followed by the new ones. */
  function WrittenMediaAsWritten(media: seq<Media>, existing: seq<Media>): Option<seq<Media>> {
    if |media| == 0 then None else Some(media)
  }

  /** writeRemoteMedia as written, without the JSON encoding and the file write. */
  method WriteRemoteMediaAsWritten(media: seq<Media>, existing: seq<Media>) returns (written: Option<seq<Media>>)
    ensures written == WrittenMediaAsWritten(media, existing)
    ensures written.None? <==> media == []
    ensures written.Some? ==> written.value == media
  {
    if |media| == 0 {
      return None;
    }
    var existingMedia := existing;
    existingMedia := existingMedia + media;
    written := Some(media);
  }

  // Runs of this revision

  /** One run over the posts directory: the new posts uploaded and the manifest
      written with the corrected merge. */
  function RunPosts(local: seq<Post>, remote: seq<Post>, upload: string -> Post): seq<Post> {
    PostsManifest(UploadedPosts(Posts.NewPosts(local, remote), upload), remote).GetOr(remote)
  }

  /** The same run with the merge as written. */
  function RunPostsAsWritten(local: seq<Post>, remote: seq<Post>, upload: string -> Post): seq<Post> {
    WrittenPostsAsWritten(UploadedPosts(Posts.NewPosts(local, remote), upload), remote).GetOr(remote)
  }

  /** With the corrected merge a second run over the same files sends nothing: upload
      keeps every file name, and the merge keeps every earlier record. */
  lemma SecondRunIsQuiet(local: seq<Post>, remote: seq<Post>, upload: string -> Post)
    ensures Posts.NewPosts(local, RunPosts(local, remote, upload)) == []
  {
    var n := Posts.NewPosts(local, remote);
    var u := UploadedPosts(n, upload);
    var manifest := RunPosts(local, remote, upload);
    Posts.NewPostsMembers(local, remote);
    UploadedPostsSpec(n, upload);
    forall i | 0 <= i < |local| ensures Posts.HasRecord(local[i], manifest) {
      if Posts.HasRecord(local[i], remote) {
        var r :| r in remote && r.localFile == local[i].localFile;
        if n != [] {
          assert manifest == remote + u;
          assert r in manifest;
        }
      } else {
        assert local[i] in n;
        var k :| 0 <= k < |n| && n[k] == local[i];
        assert u[k].localFile == local[i].localFile;
        assert manifest == remote + u;
        assert manifest[|remote| + k] == u[k];
      }
    }
    Posts.NoNewPosts(local, manifest);
  }

  function FilePost(name: string): Post {
    Posts.Post(0, "", "", "", "", "", "", "", name, ZeroTime, ZeroTime)
  }

  /** With the merge as written the record of an earlier post is lost as soon as another
      post is created: `a.md` has a record and `b.md` is new, so the first run writes
      only `b.md`'s record, and the second run sends `a.md` again. */
  lemma SecondRunResendsAsWritten(upload: string -> Post)
    ensures var a, b := FilePost("a.md"), FilePost("b.md");
            Posts.NewPosts([a, b], RunPostsAsWritten([a, b], [a], upload)) == [a]
  {
    var a, b := FilePost("a.md"), FilePost("b.md");
    assert a.localFile != b.localFile by { assert "a.md"[0] != "b.md"[0]; }
    assert a in [a];
    NewPostsPair(a, b, [a]);
    var ub := UploadedPost(b, upload);
    UploadedPostsSpec([b], upload);
    var m := RunPostsAsWritten([a, b], [a], upload);
    assert m == [ub];
    assert ub in m;
    NewPostsPair(a, b, m);
  }

  /** The classifier on two posts, spelled out. */
  lemma NewPostsPair(a: Post, b: Post, remote: seq<Post>)
    ensures Posts.NewPosts([a, b], remote)
            == (if Posts.HasRecord(a, remote) then [] else [a]) + (if Posts.HasRecord(b, remote) then [] else [b])
  {
    var sa := if Posts.HasRecord(a, remote) then [] else [a];
    assert [a, b][..1] == [a] && [a][..0] == [];
    assert Posts.NewPosts([a], remote) == [] + sa == sa;
  }

  /** The current media merge keeps an earlier record that the as-written one drops. */
  lemma MediaWriteDropsRecords(e: Media, m: Media)
    requires e.localFile != m.localFile
    ensures WrittenMediaAsWritten([m], [e]) == Some([m]) && !MediaSync.Known(e, [m])
    ensures MediaSync.MediaManifest([m], [e]) == Some([e, m]) && MediaSync.Known(e, [e, m])
  {
    assert [e] + [m] == [e, m];
    assert e in [e, m];
  }

  // ---------------------------------------------------------------------------
  // Front-matter parser of this revision (readParseFile)

  /** The page this revision parses into: the date is a time, not text. */
  datatype Page = Page(title: string, content: string, category: string, date: Time, tags: string, status: string)

  /** The page before any key is read: published, dated `now`, every other field
      empty. */
  function DefaultPage(now: Time): Page {
    Page("", "", "", now, "", "publish")
  }

  /** The effect of one recognised key; the error of the date parse is discarded, so a
      `date` that is not a calendar date sets Go's zero time. */
  function ApplyParam(p: Page, param: Param): Page {
    var v := param.value;
    if param.key == "title" then p.(title := v)
    else if param.key == "date" then p.(date := if IsCalendarDate(v) then DateUnix(v) else ZeroTime)
    else if param.key == "category" then p.(category := v)
    else if param.key == "tags" then p.(tags := v)
    else if param.key == "status" then p.(status := v)
    else p
  }

  function ApplyLine(p: Page, line: string): Page {
    var param := LineParam(line);
    if param.None? then p else ApplyParam(p, param.value)
  }

  /** The date the header lines leave: from the last `date` line if there is one,
      whether or not its value parses, and `default` otherwise. */
  function DateOf(header: seq<string>, default: Time): Time {
    var v := LastValue(header, "date");
    if v.None? then default else if IsCalendarDate(v.value) then DateUnix(v.value) else ZeroTime
  }

  /** The page a file's text denotes: the defaults overridden by its header, and the
      body lines joined back, unrendered. */
  function ParsedPage(text: string, now: Time): Page {
    var lines := Split(text, '\n');
    ApplyLines(ApplyLine, DefaultPage(now), Header(lines)).(content := Join(BodyLines(lines), '\n'))
  }

  /** readParseFile of this revision: the same counter-driven walk over the lines as
      the current parsers, with the current time `now` as the default date. */
  method ReadParseFile(data: string, now: Time) returns (page: Page)
    ensures page == ParsedPage(data, now)
  {
    page := DefaultPage(now);
    var lines := Split(data, '\n');
    ghost var all := lines;
    var found := 0;
    var i := 0;
    while i < |lines|
      invariant lines == all && 0 <= i <= |all|
      invariant found == Found(all, i) && (found == 2 ==> i == Closing(all) + 1)
      invariant page == Scanned(ApplyLine, DefaultPage(now), all, i)
    {
      var line := TrimSpace(lines[i]);
      ScannedNext(DefaultPage(now), all, i, page, line);
      if found == 1 {
        var param := ParamOf(line);
        if param.Some? {
          page := ApplyParam(page, param.value);
        }
      } else if found >= 2 {
        lines := lines[i..];
        break;
      }
      ScanCount(all, i);
      if line == "---" {
        found := found + 1;
      }
      i := i + 1;
    }
    ScannedResult(data, now, all, i, lines);
    page := page.(content := Join(lines, '\n'));
  }

  /** One step of the loop: a line read while the count is one applies its pair, if it
      has one, and any other line changes nothing. */
  lemma ScannedNext(d: Page, lines: seq<string>, i: nat, p: Page, line: string)
    requires i < |lines| && p == Scanned(ApplyLine, d, lines, i) && line == TrimSpace(lines[i])
    ensures Scanned(ApplyLine, d, lines, i + 1) ==
              if Found(lines, i) == 1 && ParamOf(line).Some? then ApplyParam(p, ParamOf(line).value) else p
  {
    if IsDelimiter(lines[i]) {
      DelimiterHasNoPair(lines[i]);
    }
  }

  /** Where the loop ends, what it holds with the remaining lines joined as the content
      is the parsed page. */
  lemma ScannedResult(data: string, now: Time, all: seq<string>, i: nat, rest: seq<string>)
    requires all == Split(data, '\n') && i <= |all|
    requires i == Closing(all) + 1 || (i == |all| && Found(all, i) < 2)
    requires rest == if i < |all| then all[i..] else all
    ensures Scanned(ApplyLine, DefaultPage(now), all, i).(content := Join(rest, '\n')) == ParsedPage(data, now)
  {
    ScannedHeader(ApplyLine, DefaultPage(now), all, i);
    ScanEnd(all, i);
  }

  // Parser properties

  /** The header lines set each recognised field to the value of its last line, the
      date from the last `date` line whether or not it parses, and touch nothing
      else. */
  lemma {:induction false} HeaderFields(p: Page, header: seq<string>)
    ensures var q := ApplyLines(ApplyLine, p, header);
            && q.title == LastValue(header, "title").GetOr(p.title)
            && q.category == LastValue(header, "category").GetOr(p.category)
            && q.tags == LastValue(header, "tags").GetOr(p.tags)
            && q.status == LastValue(header, "status").GetOr(p.status)
            && q.date == DateOf(header, p.date)
            && q.content == p.content
  {
    if header != [] {
      var init, line := header[..|header| - 1], header[|header| - 1];
      assert header == init + [line];
      HeaderFields(p, init);
      ApplyLinesSnoc(ApplyLine, p, init, line);
      LineFields(ApplyLines(ApplyLine, p, init), line);
      LastValueSnoc(init, line, "title");
      LastValueSnoc(init, line, "category");
      LastValueSnoc(init, line, "tags");
      LastValueSnoc(init, line, "status");
      DateOfSnoc(init, line, p.date);
    }
  }

  lemma DateOfSnoc(init: seq<string>, line: string, default: Time)
    ensures var v := LineParam(line).GetOr(Param("", "")).value;
            DateOf(init + [line], default) ==
              if HasKey(line, "date") then (if IsCalendarDate(v) then DateUnix(v) else ZeroTime) else DateOf(init, default)
  {
    LastValueSnoc(init, line, "date");
  }

  /** One line sets the field of its key, if recognised, and nothing else. */
  lemma LineFields(q: Page, line: string)
    ensures var r, v := ApplyLine(q, line), LineParam(line).GetOr(Param("", "")).value;
            && r.title == (if HasKey(line, "title") then v else q.title)
            && r.category == (if HasKey(line, "category") then v else q.category)
            && r.tags == (if HasKey(line, "tags") then v else q.tags)
            && r.status == (if HasKey(line, "status") then v else q.status)
            && r.date == (if HasKey(line, "date") then (if IsCalendarDate(v) then DateUnix(v) else ZeroTime) else q.date)
            && r.content == q.content
  {
  }

  /** A last `date` line whose value is not a calendar date leaves Go's zero time, not
      the default: the current parsers keep the default instead. */
  lemma InvalidDateIsZero(text: string, now: Time)
    requires var v := LastValue(Header(Split(text, '\n')), "date"); v.Some? && !IsCalendarDate(v.value)
    ensures ParsedPage(text, now).date == ZeroTime
  {
    HeaderFields(DefaultPage(now), Header(Split(text, '\n')));
  }

  /** A text without a delimiter line is all body: the page has the default fields and
      exactly the text as its content, since nothing is rendered. */
  lemma PageWithoutFrontMatter(text: string, now: Time)
    requires forall k :: 0 <= k < |Split(text, '\n')| ==> !IsDelimiter(Split(text, '\n')[k])
    ensures ParsedPage(text, now) == DefaultPage(now).(content := text)
  {
    NoBlockLayout(Split(text, '\n'));
    JoinSplit(text, '\n');
  }

  /** With front matter laid out as a block followed by a body, the page is the
      defaults overridden by the block's lines, with the body lines joined back. */
  lemma ParsedPageLayout(pre: seq<string>, open: string, header: seq<string>, close: string, body: seq<string>, now: Time)
    requires forall k :: 0 <= k < |pre| ==> !IsDelimiter(pre[k]) && '\n' !in pre[k]
    requires forall k :: 0 <= k < |header| ==> !IsDelimiter(header[k]) && '\n' !in header[k]
    requires IsDelimiter(open) && IsDelimiter(close) && '\n' !in open && '\n' !in close
    requires |body| >= 1 && forall k :: 0 <= k < |body| ==> '\n' !in body[k]
    ensures ParsedPage(Join(pre + [open] + header + [close] + body, '\n'), now)
            == ApplyLines(ApplyLine, DefaultPage(now), header).(content := Join(body, '\n'))
  {
    BlockText(pre, open, header, close, body);
  }
}
