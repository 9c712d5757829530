/** posts.go: which local posts to create or update, the create and update drivers,
    the manifest merge, and the front-matter parser for posts. */
module Posts {
  import opened Wrappers
  import opened GoStrings
  import opened GoTime
  import opened FrontMatter

  /** A post: the fields parsed from its file, the remote id and link, the name of its
      file (the join key with the manifest), the file's modification time and the time
      it was last synced. */
  datatype Post = Post(
    id: int,
    title: string,
    date: string,
    url: string,
    content: string,
    category: string,
    status: string,
    tags: string,
    localFile: string,
    modDate: Time,
    syncDate: Time)

  /** No two posts of `ps` share a file name. */
  predicate UniqueFiles(ps: seq<Post>) {
    forall i, j :: 0 <= i < j < |ps| ==> ps[i].localFile != ps[j].localFile
  }

  /** Some record of `remote` has the file name of `lp`. */
  predicate HasRecord(lp: Post, remote: seq<Post>) {
    exists r :: r in remote && r.localFile == lp.localFile
  }

  /** Some record of `remote` for the file of `lp` was synced before `lp` last changed. */
  predicate IsStale(lp: Post, remote: seq<Post>) {
    exists r :: r in remote && r.localFile == lp.localFile && After(lp.modDate, r.syncDate)
  }

  // ---------------------------------------------------------------------------
  // Change classifier (comparePosts)

  /** The local posts no record of `remote` knows, in local order. */
  function NewPosts(local: seq<Post>, remote: seq<Post>): seq<Post> {
    if local == [] then []
    else
      var lp := local[|local| - 1];
      NewPosts(local[..|local| - 1], remote) + (if HasRecord(lp, remote) then [] else [lp])
  }

  /** What the inner loop over `remote` appends for `lp`: one copy of `lp`, carrying the
      record's id, for each record of its file synced before `lp` changed. */
  function StaleFor(lp: Post, remote: seq<Post>): seq<Post> {
    if remote == [] then []
    else
      var rp := remote[|remote| - 1];
      StaleFor(lp, remote[..|remote| - 1])
      + (if rp.localFile == lp.localFile && After(lp.modDate, rp.syncDate) then [lp.(id := rp.id)] else [])
  }

  /** The local posts to update, in local order, each with the id of its record. */
  function StalePosts(local: seq<Post>, remote: seq<Post>): seq<Post> {
    if local == [] then []
    else StalePosts(local[..|local| - 1], remote) + StaleFor(local[|local| - 1], remote)
  }

  /** The local posts neither created nor updated: known, and not changed since. */
  function UnchangedPosts(local: seq<Post>, remote: seq<Post>): seq<Post> {
    if local == [] then []
    else
      var lp := local[|local| - 1];
      UnchangedPosts(local[..|local| - 1], remote)
      + (if HasRecord(lp, remote) && !IsStale(lp, remote) then [lp] else [])
  }

  /** comparePosts: for each local post, scan every remote record with a flag; a record
      of the same file copies its id onto the post, and the post joins the update list
      when it changed after that record's sync; a post no record knows is new. */
  method ComparePosts(local: seq<Post>, remote: seq<Post>) returns (newPosts: seq<Post>, updatePosts: seq<Post>)
    ensures newPosts == NewPosts(local, remote)
    ensures updatePosts == StalePosts(local, remote)
  {
    newPosts, updatePosts := [], [];
    var i := 0;
    while i < |local|
      invariant 0 <= i <= |local|
      invariant newPosts == NewPosts(local[..i], remote)
      invariant updatePosts == StalePosts(local[..i], remote)
    {
      var lp := local[i];
      var found := false;
      ghost var before := updatePosts;
      var j := 0;
      while j < |remote|
        invariant 0 <= j <= |remote|
        invariant found <==> HasRecord(local[i], remote[..j])
        invariant lp == local[i].(id := lp.id)
        invariant !found ==> lp == local[i]
        invariant updatePosts == before + StaleFor(local[i], remote[..j])
      {
        var rp := remote[j];
        ScanSnoc(local[i], remote, j);
        ghost var seen := StaleFor(local[i], remote[..j]);
        if lp.localFile == rp.localFile {
          found := true;
          lp := lp.(id := rp.id);
          if After(lp.modDate, rp.syncDate) {
            assert lp == local[i].(id := rp.id);
            updatePosts := updatePosts + [lp];
            AppendAssoc(before, seen, [lp]);
            assert updatePosts == before + StaleFor(local[i], remote[..j + 1]);
          } else {
            assert seen + [] == seen;
            assert updatePosts == before + StaleFor(local[i], remote[..j + 1]);
          }
        } else {
          assert seen + [] == seen;
          assert updatePosts == before + StaleFor(local[i], remote[..j + 1]);
        }
        j := j + 1;
      }
      assert remote[..j] == remote;
      if !found {
        newPosts := newPosts + [lp];
      }
      assert local[..i + 1][..i] == local[..i];
      i := i + 1;
    }
    assert local[..i] == local;
  }

  /** One more record scanned: it is a record of the file, and an update candidate
      for it, exactly when the inner loop's test says so. */
  lemma ScanSnoc(lp: Post, remote: seq<Post>, j: int)
    requires 0 <= j < |remote|
    ensures HasRecord(lp, remote[..j + 1]) <==> HasRecord(lp, remote[..j]) || remote[j].localFile == lp.localFile
    ensures StaleFor(lp, remote[..j + 1]) == StaleFor(lp, remote[..j])
      + (if remote[j].localFile == lp.localFile && After(lp.modDate, remote[j].syncDate) then [lp.(id := remote[j].id)] else [])
  {
    assert remote[..j + 1][..j] == remote[..j];
    assert remote[..j + 1] == remote[..j] + [remote[j]];
  }

  // Classifier properties

  /** A post is new exactly when it is local and no record has its file name. */
  lemma {:induction false} NewPostsMembers(local: seq<Post>, remote: seq<Post>)
    ensures forall x :: x in NewPosts(local, remote) <==> x in local && !HasRecord(x, remote)
  {
    if local != [] {
      var init := local[..|local| - 1];
      NewPostsMembers(init, remote);
      assert local == init + [local[|local| - 1]];
    }
  }

  /** An update candidate is a local post carrying the id of a record of its file that
      was synced before the post changed, and every such pair yields one. */
  lemma {:induction false} StaleForMembers(lp: Post, remote: seq<Post>)
    ensures forall x :: x in StaleFor(lp, remote) <==>
      exists r :: r in remote && r.localFile == lp.localFile && After(lp.modDate, r.syncDate) && x == lp.(id := r.id)
  {
    if remote != [] {
      var init := remote[..|remote| - 1];
      StaleForMembers(lp, init);
      assert remote == init + [remote[|remote| - 1]];
    }
  }

  /** A post no record knows yields no update candidate. */
  lemma {:induction false} StaleForUnknown(lp: Post, remote: seq<Post>)
    requires !HasRecord(lp, remote)
    ensures StaleFor(lp, remote) == []
  {
    if remote != [] {
      var init := remote[..|remote| - 1];
      assert remote == init + [remote[|remote| - 1]];
      assert !HasRecord(lp, init) by {
        forall r | r in init ensures r.localFile != lp.localFile {
          assert r in remote;
        }
      }
      StaleForUnknown(lp, init);
    }
  }

  /** With one record per file, a known post is an update candidate exactly when it
      changed strictly after that record's sync (equal times leave it alone), and it
      then carries the record's id. */
  lemma {:induction false} StaleForUnique(lp: Post, remote: seq<Post>, k: int)
    requires UniqueFiles(remote)
    requires 0 <= k < |remote| && remote[k].localFile == lp.localFile
    ensures StaleFor(lp, remote) == if After(lp.modDate, remote[k].syncDate) then [lp.(id := remote[k].id)] else []
  {
    var init := remote[..|remote| - 1];
    assert UniqueFiles(init);
    if k == |remote| - 1 {
      assert !HasRecord(lp, init) by {
        forall r | r in init ensures r.localFile != lp.localFile {
          var j :| 0 <= j < |init| && init[j] == r;
          assert remote[j] == r;
        }
      }
      StaleForUnknown(lp, init);
    } else {
      StaleForUnique(lp, init, k);
      assert remote[|remote| - 1].localFile != lp.localFile;
    }
  }

  /** Every update candidate is a local post with the id of a stale record of its file,
      and every such pair yields one. */
  lemma {:induction false} StalePostsMembers(local: seq<Post>, remote: seq<Post>)
    ensures forall x :: x in StalePosts(local, remote) <==>
      exists lp, r :: lp in local && r in remote && r.localFile == lp.localFile
        && After(lp.modDate, r.syncDate) && x == lp.(id := r.id)
  {
    if local != [] {
      var init := local[..|local| - 1];
      var last := local[|local| - 1];
      StalePostsMembers(init, remote);
      StaleForMembers(last, remote);
      assert local == init + [last];
      forall x | (exists lp, r :: lp in local && r in remote && r.localFile == lp.localFile
                   && After(lp.modDate, r.syncDate) && x == lp.(id := r.id))
        ensures x in StalePosts(local, remote)
      {
        var lp, r :| lp in local && r in remote && r.localFile == lp.localFile
          && After(lp.modDate, r.syncDate) && x == lp.(id := r.id);
        if lp != last {
          assert lp in init;
        }
      }
    }
  }

  /** An unchanged post is a local post that is known and not stale. */
  lemma {:induction false} UnchangedPostsMembers(local: seq<Post>, remote: seq<Post>)
    ensures forall x :: x in UnchangedPosts(local, remote) <==> x in local && HasRecord(x, remote) && !IsStale(x, remote)
  {
    if local != [] {
      var init := local[..|local| - 1];
      UnchangedPostsMembers(init, remote);
      assert local == init + [local[|local| - 1]];
    }
  }

  /** No file is both created and updated in one run. */
  lemma NewAndStaleDisjoint(local: seq<Post>, remote: seq<Post>, x: Post, y: Post)
    requires x in NewPosts(local, remote) && y in StalePosts(local, remote)
    ensures x.localFile != y.localFile
  {
    NewPostsMembers(local, remote);
    StalePostsMembers(local, remote);
  }

  /** With one record per file, every local post is exactly one of new, updated or
      unchanged. */
  lemma {:induction false} ClassifierPartition(local: seq<Post>, remote: seq<Post>)
    requires UniqueFiles(remote)
    ensures |NewPosts(local, remote)| + |StalePosts(local, remote)| + |UnchangedPosts(local, remote)| == |local|
  {
    if local != [] {
      var init := local[..|local| - 1];
      var lp := local[|local| - 1];
      ClassifierPartition(init, remote);
      if HasRecord(lp, remote) {
        var r :| r in remote && r.localFile == lp.localFile;
        var k :| 0 <= k < |remote| && remote[k] == r;
        StaleForUnique(lp, remote, k);
        if IsStale(lp, remote) {
          var r' :| r' in remote && r'.localFile == lp.localFile && After(lp.modDate, r'.syncDate);
          var k' :| 0 <= k' < |remote| && remote[k'] == r';
          assert k' == k;
        }
      } else {
        StaleForUnknown(lp, remote);
      }
    }
  }

  /** The classifier works post by post: the lists for `a + b` are those for `a`
      followed by those for `b`, so both keep local order. */
  lemma {:induction false} ClassifierConcat(a: seq<Post>, b: seq<Post>, remote: seq<Post>)
    ensures NewPosts(a + b, remote) == NewPosts(a, remote) + NewPosts(b, remote)
    ensures StalePosts(a + b, remote) == StalePosts(a, remote) + StalePosts(b, remote)
  {
    if b != [] {
      var init := b[..|b| - 1];
      ClassifierConcat(a, init, remote);
      assert (a + b)[..|a + b| - 1] == a + init;
      assert (a + b)[|a + b| - 1] == b[|b| - 1];
    } else {
      assert a + b == a;
    }
  }

  /** Against an empty manifest every local post is new and none is updated. */
  lemma {:induction false} FirstRun(local: seq<Post>)
    ensures NewPosts(local, []) == local
    ensures StalePosts(local, []) == []
  {
    if local != [] {
      FirstRun(local[..|local| - 1]);
      assert local == local[..|local| - 1] + [local[|local| - 1]];
    }
  }

  // ---------------------------------------------------------------------------
  // Front-matter parser (readParseFile) and loading (loadPostFromFile)

  /** The post before any key is read: published, dated now, every other field empty. */
  function DefaultPost(nowText: string): Post {
    Post(0, "", nowText, "", "", "", "publish", "", "", ZeroTime, ZeroTime)
  }

  /** The effect of one recognised key; a `date` that is not a calendar date, and any
      other key, leave the post as it is. */
  function ApplyParam(p: Post, param: Param): Post {
    var v := param.value;
    if param.key == "title" then p.(title := v)
    else if param.key == "date" then (if IsCalendarDate(v) then p.(date := DateRFC3339(v)) else p)
    else if param.key == "category" then p.(category := v)
    else if param.key == "tags" then p.(tags := v)
    else if param.key == "status" then p.(status := v)
    else p
  }

  /** The effect of one raw header line. */
  function ApplyLine(p: Post, line: string): Post {
    var param := LineParam(line);
    if param.None? then p else ApplyParam(p, param.value)
  }

  /** The header lines applied in file order. */
  function ApplyHeader(p: Post, header: seq<string>): Post {
    ApplyLines(ApplyLine, p, header)
  }

  /** The post a file's text denotes: the defaults overridden by its header, and the
      rendered body. */
  function ParsedPost(text: string, nowText: string, render: string -> string): Post {
    var lines := Split(text, '\n');
    ApplyHeader(DefaultPost(nowText), Header(lines)).(content := render(Join(BodyLines(lines), '\n')))
  }

  /** readParseFile: walk the lines with a counter of delimiters seen; while it is one,
      trimmed lines with a colon set fields; at the first line after the second
      delimiter the remaining lines become the body. `nowText` is the RFC 3339 text of
      the current time and `render` the markdown renderer. */
  method ReadParseFile(data: string, nowText: string, render: string -> string) returns (post: Post)
    ensures post == ParsedPost(data, nowText, render)
  {
    post := DefaultPost(nowText);
    var lines := Split(data, '\n');
    ghost var all := lines;
    var found := 0;
    var i := 0;
    while i < |lines|
      invariant lines == all && 0 <= i <= |all|
      invariant found == Found(all, i) && (found == 2 ==> i == Closing(all) + 1)
      invariant post == Scanned(ApplyLine, DefaultPost(nowText), all, i)
    {
      var line := TrimSpace(lines[i]);
      ScannedPostNext(DefaultPost(nowText), all, i, post, line);
      if found == 1 {
        var param := ParamOf(line);
        if param.Some? {
          post := ApplyParam(post, param.value);
        }
      } else if found >= 2 {
        lines := lines[i..];
        break;
      }
      ScanCount(all, i);
      if line == "---" {
        found := found + 1;
      }
      i := i + 1;
    }
    ScannedPostResult(data, nowText, render, all, i, lines);
    var content := Join(lines, '\n');
    post := post.(content := render(content));
  }

  /** One step of the loop: a line read while the count is one applies its pair, if it
      has one, and any other line changes nothing. */
  lemma ScannedPostNext(d: Post, lines: seq<string>, i: nat, p: Post, line: string)
    requires i < |lines| && p == Scanned(ApplyLine, d, lines, i) && line == TrimSpace(lines[i])
    ensures Scanned(ApplyLine, d, lines, i + 1) ==
              if Found(lines, i) == 1 && ParamOf(line).Some? then ApplyParam(p, ParamOf(line).value) else p
  {
    if IsDelimiter(lines[i]) {
      DelimiterHasNoPair(lines[i]);
    }
  }

  /** Where the loop ends, what it holds with the remaining lines rendered as the
      content is the parsed post. */
  lemma ScannedPostResult(data: string, nowText: string, render: string -> string, all: seq<string>, i: nat, rest: seq<string>)
    requires all == Split(data, '\n') && i <= |all|
    requires i == Closing(all) + 1 || (i == |all| && Found(all, i) < 2)
    requires rest == if i < |all| then all[i..] else all
    ensures Scanned(ApplyLine, DefaultPost(nowText), all, i).(content := render(Join(rest, '\n'))) == ParsedPost(data, nowText, render)
  {
    ScannedHeader(ApplyLine, DefaultPost(nowText), all, i);
    ScanEnd(all, i);
  }

  /** mergo.Merge(&dst, src): every field of `dst` still at its zero value is taken
      from `src`. That the two times are filled too is assumed: it depends on how the
      library version treats `time.Time`. */
  function MergeZero(dst: Post, src: Post): Post {
    Post(
      if dst.id == 0 then src.id else dst.id,
      if dst.title == "" then src.title else dst.title,
      if dst.date == "" then src.date else dst.date,
      if dst.url == "" then src.url else dst.url,
      if dst.content == "" then src.content else dst.content,
      if dst.category == "" then src.category else dst.category,
      if dst.status == "" then src.status else dst.status,
      if dst.tags == "" then src.tags else dst.tags,
      if dst.localFile == "" then src.localFile else dst.localFile,
      if dst.modDate == ZeroTime then src.modDate else dst.modDate,
      if dst.syncDate == ZeroTime then src.syncDate else dst.syncDate)
  }

  /** The post loadPostFromFile builds for classified post `p` whose file holds `text`. */
  function LoadedPost(p: Post, text: string, nowText: string, render: string -> string): Post {
    MergeZero(ParsedPost(text, nowText, render), p)
  }

  /** loadPostFromFile: parse the file, then fill the parsed post's empty fields from the
      classified post, so it keeps its file name, remote id, link and times. */
  method LoadPostFromFile(p: Post, text: string, nowText: string, render: string -> string) returns (post: Post)
    ensures post == LoadedPost(p, text, nowText, render)
  {
    post := ReadParseFile(text, nowText, render);
    post := MergeZero(post, p);
  }

  /** The loaded form of each post, in order; `files` gives the text of each file by name
      (the empty text when it cannot be read). */
  function LoadedPosts(posts: seq<Post>, files: string -> string, nowText: string, render: string -> string): seq<Post> {
    if posts == [] then []
    else
      var p := posts[|posts| - 1];
      LoadedPosts(posts[..|posts| - 1], files, nowText, render) + [LoadedPost(p, files(p.localFile), nowText, render)]
  }

  /** loadPostsFromFiles: load every post, in order. */
  method LoadPostsFromFiles(posts: seq<Post>, files: string -> string, nowText: string, render: string -> string)
    returns (loadedPosts: seq<Post>)
    ensures loadedPosts == LoadedPosts(posts, files, nowText, render)
  {
    loadedPosts := [];
    var i := 0;
    while i < |posts|
      invariant 0 <= i <= |posts|
      invariant loadedPosts == LoadedPosts(posts[..i], files, nowText, render)
    {
      var lp := LoadPostFromFile(posts[i], files(posts[i].localFile), nowText, render);
      LoadedPostsNext(posts, i, files, nowText, render);
      loadedPosts := loadedPosts + [lp];
      i := i + 1;
    }
    assert posts[..i] == posts;
  }

  lemma LoadedPostsNext(posts: seq<Post>, i: int, files: string -> string, nowText: string, render: string -> string)
    requires 0 <= i < |posts|
    ensures LoadedPosts(posts[..i + 1], files, nowText, render)
            == LoadedPosts(posts[..i], files, nowText, render) + [LoadedPost(posts[i], files(posts[i].localFile), nowText, render)]
  {
    assert posts[..i + 1][..i] == posts[..i];
  }

  // Parser properties

  /** The header lines set each recognised field to the value of its last line, a date
      only from the last line whose value is a calendar date, and touch nothing else. */
  lemma {:induction false} HeaderFields(p: Post, header: seq<string>)
    ensures var q := ApplyHeader(p, header);
            && q.title == LastValue(header, "title").GetOr(p.title)
            && q.category == LastValue(header, "category").GetOr(p.category)
            && q.tags == LastValue(header, "tags").GetOr(p.tags)
            && q.status == LastValue(header, "status").GetOr(p.status)
            && q.date == (if LastCalendarDate(header).Some? then DateRFC3339(LastCalendarDate(header).value) else p.date)
            && q == p.(title := q.title, date := q.date, category := q.category, tags := q.tags, status := q.status)
  {
    if header != [] {
      var init, line := header[..|header| - 1], header[|header| - 1];
      assert header == init + [line];
      HeaderFields(p, init);
      LastValueSnoc(init, line, "title");
      LastValueSnoc(init, line, "category");
      LastValueSnoc(init, line, "tags");
      LastValueSnoc(init, line, "status");
      LastCalendarDateSnoc(init, line);
    }
  }

  /** A loaded post keeps the file name, remote id, link and times of the classified
      post, and takes its other fields from the file unless the file left them empty. */
  lemma LoadedPostIdentity(p: Post, text: string, nowText: string, render: string -> string)
    ensures var q, parsed := LoadedPost(p, text, nowText, render), ParsedPost(text, nowText, render);
            && q.localFile == p.localFile && q.id == p.id && q.url == p.url
            && q.modDate == p.modDate && q.syncDate == p.syncDate
            && q.title == (if parsed.title == "" then p.title else parsed.title)
            && q.content == (if parsed.content == "" then p.content else parsed.content)
  {
    ParsedPostIdentity(text, nowText, render);
  }

  /** Parsing never sets the id, link, file name or times. */
  lemma ParsedPostIdentity(text: string, nowText: string, render: string -> string)
    ensures var q := ParsedPost(text, nowText, render);
            q.id == 0 && q.url == "" && q.localFile == "" && q.modDate == ZeroTime && q.syncDate == ZeroTime
  {
    HeaderFields(DefaultPost(nowText), Header(Split(text, '\n')));
  }

  /** With front matter laid out as a block followed by a body, the parsed post is the
      defaults overridden by the block's lines, with the rendered body lines; lines
      before the block are dropped and key lines outside it are ignored. */
  lemma ParsedPostLayout(pre: seq<string>, open: string, header: seq<string>, close: string, body: seq<string>,
                         nowText: string, render: string -> string)
    requires forall k :: 0 <= k < |pre| ==> !IsDelimiter(pre[k]) && '\n' !in pre[k]
    requires forall k :: 0 <= k < |header| ==> !IsDelimiter(header[k]) && '\n' !in header[k]
    requires IsDelimiter(open) && IsDelimiter(close) && '\n' !in open && '\n' !in close
    requires |body| >= 1 && forall k :: 0 <= k < |body| ==> '\n' !in body[k]
    ensures ParsedPost(Join(pre + [open] + header + [close] + body, '\n'), nowText, render)
            == ApplyHeader(DefaultPost(nowText), header).(content := render(Join(body, '\n')))
  {
    BlockText(pre, open, header, close, body);
  }

  /** A text without a delimiter line is all body, with every field at its default. */
  lemma ParsedPostWithoutFrontMatter(text: string, nowText: string, render: string -> string)
    requires forall k :: 0 <= k < |Split(text, '\n')| ==> !IsDelimiter(Split(text, '\n')[k])
    ensures ParsedPost(text, nowText, render) == DefaultPost(nowText).(content := render(text))
  {
    NoBlockLayout(Split(text, '\n'));
    JoinSplit(text, '\n');
  }

  /** The defaults survive every field no header line sets: status `publish`, the
      current date, and empty title, category and tags. */
  lemma ParsedPostDefaults(text: string, nowText: string, render: string -> string)
    ensures var q, h := ParsedPost(text, nowText, render), Header(Split(text, '\n'));
            && (LastValue(h, "title").None? ==> q.title == "")
            && (LastValue(h, "category").None? ==> q.category == "")
            && (LastValue(h, "tags").None? ==> q.tags == "")
            && (LastValue(h, "status").None? ==> q.status == "publish")
            && (LastCalendarDate(h).None? ==> q.date == nowText)
  {
    HeaderFields(DefaultPost(nowText), Header(Split(text, '\n')));
  }

  /** A file written as a block with a quoted title line and a bare status line,
      followed by body lines, parses back to that title and status, with the default
      date, category and tags and the rendered body. */
  lemma TitleStatusRoundTrip(t: string, s: string, body: seq<string>, nowText: string, render: string -> string)
    requires '\n' !in t && (t == [] || (t[0] != '"' && t[|t| - 1] != '"'))
    requires '\n' !in s && s != [] && !IsSpace(s[0]) && !IsSpace(s[|s| - 1]) && s[0] != '"' && s[|s| - 1] != '"'
    requires |body| >= 1 && forall k :: 0 <= k < |body| ==> '\n' !in body[k]
    ensures var lines := ["---", QuotedLine("title", t), BareLine("status", s), "---"] + body;
            var q := ParsedPost(Join(lines, '\n'), nowText, render);
            && q.title == t && q.status == s && q.date == nowText && q.category == "" && q.tags == ""
            && q.content == render(Join(body, '\n'))
  {
    var tl, sl := QuotedLine("title", t), BareLine("status", s);
    TitleStatusLines(t, s);
    FourLines([], "---", tl, sl, "---", body);
    ParsedPostLayout([], "---", [tl, sl], "---", body, nowText, render);
    TitleStatusHeader(DefaultPost(nowText), t, s);
  }

  lemma TitleStatusLines(t: string, s: string)
    requires '\n' !in t && (t == [] || (t[0] != '"' && t[|t| - 1] != '"'))
    requires '\n' !in s && s != [] && !IsSpace(s[0]) && !IsSpace(s[|s| - 1]) && s[0] != '"' && s[|s| - 1] != '"'
    ensures var header := [QuotedLine("title", t), BareLine("status", s)];
            && (forall k :: 0 <= k < |header| ==> !IsDelimiter(header[k]) && '\n' !in header[k])
            && LineParam(header[0]) == Some(Param("title", t)) && LineParam(header[1]) == Some(Param("status", s))
    ensures IsDelimiter("---") && '\n' !in "---"
  {
    TitleLine(t);
    StatusLine(s);
    DashLine();
    LinePair(QuotedLine("title", t), BareLine("status", s));
  }

  lemma TitleLine(t: string)
    requires '\n' !in t && (t == [] || (t[0] != '"' && t[|t| - 1] != '"'))
    ensures var line := QuotedLine("title", t);
            !IsDelimiter(line) && '\n' !in line && LineParam(line) == Some(Param("title", t))
  {
    ParamOfQuoted("title", t);
    QuotedLineShape("title", t);
  }

  lemma StatusLine(s: string)
    requires '\n' !in s && s != [] && !IsSpace(s[0]) && !IsSpace(s[|s| - 1]) && s[0] != '"' && s[|s| - 1] != '"'
    ensures var line := BareLine("status", s);
            !IsDelimiter(line) && '\n' !in line && LineParam(line) == Some(Param("status", s))
  {
    ParamOfBare("status", s);
    BareLineShape("status", s);
  }

  lemma LinePair(a: string, b: string)
    requires !IsDelimiter(a) && '\n' !in a && !IsDelimiter(b) && '\n' !in b
    ensures forall k :: 0 <= k < |[a, b]| ==> !IsDelimiter([a, b][k]) && '\n' !in [a, b][k]
  {
  }

  lemma TitleStatusHeader(d: Post, t: string, s: string)
    requires LineParam(QuotedLine("title", t)) == Some(Param("title", t))
    requires LineParam(BareLine("status", s)) == Some(Param("status", s))
    ensures ApplyHeader(d, [QuotedLine("title", t), BareLine("status", s)]) == d.(title := t, status := s)
  {
    var tl, sl := QuotedLine("title", t), BareLine("status", s);
    ApplyLinesPair(ApplyLine, d, tl, sl);
    assert ApplyLine(d, tl) == d.(title := t);
    StatusParam(d.(title := t), s);
  }

  /** A `status` pair sets the status and nothing else. */
  lemma StatusParam(p: Post, v: string)
    ensures ApplyParam(p, Param("status", v)) == p.(status := v)
  {
    assert "status" != "title" && "status" != "date" && "status" != "category" && "status" != "tags";
  }

  lemma FourLines<T>(pre: seq<T>, a: T, b: T, c: T, d: T, rest: seq<T>)
    requires pre == []
    ensures pre + [a] + [b, c] + [d] + rest == [a, b, c, d] + rest
  {
  }

  // ---------------------------------------------------------------------------
  // Create and update drivers (createPosts, updatePosts)

  /** What createPosts keeps of one new post: the server's record, with the post's file
      name and the sync time, when the post is confirmed and the create call succeeds. */
  function CreatedItem(p: Post, confirm: Post -> bool, create: Post -> Option<Post>, now: Time): seq<Post> {
    if confirm(p) && create(p).Some? then [create(p).value.(localFile := p.localFile, syncDate := now)] else []
  }

  function Created(posts: seq<Post>, confirm: Post -> bool, create: Post -> Option<Post>, now: Time): seq<Post> {
    if posts == [] then []
    else Created(posts[..|posts| - 1], confirm, create, now) + CreatedItem(posts[|posts| - 1], confirm, create, now)
  }

  /** createPosts: ask for each new post, call the create API for the confirmed ones and
      keep the successful results, stamped. `confirm` is the prompt's answer, `create`
      the API call (None on a transport error or a status above 299), `now` the clock. */
  method CreatePosts(newPosts: seq<Post>, confirm: Post -> bool, create: Post -> Option<Post>, now: Time)
    returns (createdPosts: seq<Post>)
    ensures createdPosts == Created(newPosts, confirm, create, now)
  {
    createdPosts := [];
    var i := 0;
    while i < |newPosts|
      invariant 0 <= i <= |newPosts|
      invariant createdPosts == Created(newPosts[..i], confirm, create, now)
    {
      var p := newPosts[i];
      if confirm(p) {
        var result := create(p);
        if result.Some? {
          var rp := result.value;
          rp := rp.(localFile := p.localFile);
          rp := rp.(syncDate := now);
          createdPosts := createdPosts + [rp];
        }
      }
      assert newPosts[..i + 1][..i] == newPosts[..i];
      i := i + 1;
    }
    assert newPosts[..i] == newPosts;
  }

  /** What updatePosts keeps of one post: the server's record stamped with the sync
      time, when the post is confirmed and the update call succeeds. */
  function UpdatedItem(p: Post, confirm: Post -> bool, update: Post -> Option<Post>, now: Time): seq<Post> {
    if confirm(p) && update(p).Some? then [update(p).value.(syncDate := now)] else []
  }

  function Updated(posts: seq<Post>, confirm: Post -> bool, update: Post -> Option<Post>, now: Time): seq<Post> {
    if posts == [] then []
    else Updated(posts[..|posts| - 1], confirm, update, now) + UpdatedItem(posts[|posts| - 1], confirm, update, now)
  }

  /** updatePosts: ask for each stale post, call the update API for the confirmed ones
      and keep the successful results, stamped with the sync time. */
  method UpdatePosts(posts: seq<Post>, confirm: Post -> bool, update: Post -> Option<Post>, now: Time)
    returns (updatedPosts: seq<Post>)
    ensures updatedPosts == Updated(posts, confirm, update, now)
  {
    updatedPosts := [];
    var i := 0;
    while i < |posts|
      invariant 0 <= i <= |posts|
      invariant updatedPosts == Updated(posts[..i], confirm, update, now)
    {
      var p := posts[i];
      if confirm(p) {
        var result := update(p);
        if result.Some? {
          var rp := result.value;
          rp := rp.(syncDate := now);
          updatedPosts := updatedPosts + [rp];
        }
      }
      assert posts[..i + 1][..i] == posts[..i];
      i := i + 1;
    }
    assert posts[..i] == posts;
  }

  // Driver properties

  /** Every created record is the server's answer for a confirmed post whose call
      succeeded, carrying that post's file name and the sync time, and every such post
      yields one. */
  lemma {:induction false} CreatedMembers(posts: seq<Post>, confirm: Post -> bool, create: Post -> Option<Post>, now: Time)
    ensures forall c :: c in Created(posts, confirm, create, now) <==>
      exists p :: p in posts && confirm(p) && create(p).Some? && c == create(p).value.(localFile := p.localFile, syncDate := now)
  {
    if posts != [] {
      var init := posts[..|posts| - 1];
      CreatedMembers(init, confirm, create, now);
      assert posts == init + [posts[|posts| - 1]];
    }
  }

  /** The created records of `a + b` are those of `a` followed by those of `b`: results
      keep input order. */
  lemma {:induction false} CreatedConcat(a: seq<Post>, b: seq<Post>, confirm: Post -> bool, create: Post -> Option<Post>, now: Time)
    ensures Created(a + b, confirm, create, now) == Created(a, confirm, create, now) + Created(b, confirm, create, now)
  {
    if b == [] {
      assert a + b == a;
    } else {
      var init, last := b[..|b| - 1], b[|b| - 1];
      CreatedConcat(a, init, confirm, create, now);
      assert (a + b)[..|a + b| - 1] == a + init && (a + b)[|a + b| - 1] == last;
      assert Created(a + b, confirm, create, now) == Created(a + init, confirm, create, now) + CreatedItem(last, confirm, create, now);
    }
  }

  /** When every post is confirmed and every call succeeds, position k of the result is
      the server's record for post k, with its file name and the sync time; so the
      status the server answered is kept. */
  lemma {:induction false} CreatedAllSucceed(posts: seq<Post>, confirm: Post -> bool, create: Post -> Option<Post>, now: Time)
    requires forall k :: 0 <= k < |posts| ==> confirm(posts[k]) && create(posts[k]).Some?
    ensures |Created(posts, confirm, create, now)| == |posts|
    ensures forall k :: 0 <= k < |posts| ==>
      Created(posts, confirm, create, now)[k] == create(posts[k]).value.(localFile := posts[k].localFile, syncDate := now)
    ensures forall k :: 0 <= k < |posts| ==>
      Created(posts, confirm, create, now)[k].localFile == posts[k].localFile
      && Created(posts, confirm, create, now)[k].syncDate == now
  {
    if posts != [] {
      CreatedAllSucceed(posts[..|posts| - 1], confirm, create, now);
    }
  }

  /** With distinct file names, a post that was declined or whose create call failed
      leaves no record for its file. */
  lemma CreatedDropsFailure(posts: seq<Post>, confirm: Post -> bool, create: Post -> Option<Post>, now: Time, j: int)
    requires UniqueFiles(posts) && 0 <= j < |posts|
    requires !confirm(posts[j]) || create(posts[j]).None?
    ensures forall c :: c in Created(posts, confirm, create, now) ==> c.localFile != posts[j].localFile
  {
    CreatedMembers(posts, confirm, create, now);
    forall c | c in Created(posts, confirm, create, now) ensures c.localFile != posts[j].localFile {
      var p :| p in posts && confirm(p) && create(p).Some? && c == create(p).value.(localFile := p.localFile, syncDate := now);
      var i :| 0 <= i < |posts| && posts[i] == p;
      assert i != j;
    }
  }

  /** Every updated record is the server's answer for a confirmed post whose call
      succeeded, stamped with the sync time, and every such post yields one. */
  lemma {:induction false} UpdatedMembers(posts: seq<Post>, confirm: Post -> bool, update: Post -> Option<Post>, now: Time)
    ensures forall u :: u in Updated(posts, confirm, update, now) <==>
      exists p :: p in posts && confirm(p) && update(p).Some? && u == update(p).value.(syncDate := now)
  {
    if posts != [] {
      var init := posts[..|posts| - 1];
      UpdatedMembers(init, confirm, update, now);
      assert posts == init + [posts[|posts| - 1]];
    }
  }

  /** The updated records of `a + b` are those of `a` followed by those of `b`. */
  lemma {:induction false} UpdatedConcat(a: seq<Post>, b: seq<Post>, confirm: Post -> bool, update: Post -> Option<Post>, now: Time)
    ensures Updated(a + b, confirm, update, now) == Updated(a, confirm, update, now) + Updated(b, confirm, update, now)
  {
    if b == [] {
      assert a + b == a;
    } else {
      var init, last := b[..|b| - 1], b[|b| - 1];
      UpdatedConcat(a, init, confirm, update, now);
      assert (a + b)[..|a + b| - 1] == a + init && (a + b)[|a + b| - 1] == last;
      assert Updated(a + b, confirm, update, now) == Updated(a + init, confirm, update, now) + UpdatedItem(last, confirm, update, now);
    }
  }

  /** When every post is confirmed and every call succeeds, position k of the result is
      the server's record for post k with the sync time. The last clause only spells out
      the test's check that this sync time is not before the post's earlier one, under
      the assumption that the clock has not gone backwards. */
  lemma {:induction false} UpdatedAllSucceed(posts: seq<Post>, confirm: Post -> bool, update: Post -> Option<Post>, now: Time)
    requires forall k :: 0 <= k < |posts| ==> confirm(posts[k]) && update(posts[k]).Some?
    ensures |Updated(posts, confirm, update, now)| == |posts|
    ensures forall k :: 0 <= k < |posts| ==> Updated(posts, confirm, update, now)[k] == update(posts[k]).value.(syncDate := now)
    ensures forall k :: 0 <= k < |posts| ==> Updated(posts, confirm, update, now)[k].syncDate == now
    ensures forall k :: 0 <= k < |posts| && posts[k].syncDate <= now ==>
      !After(posts[k].syncDate, Updated(posts, confirm, update, now)[k].syncDate)
  {
    if posts != [] {
      UpdatedAllSucceed(posts[..|posts| - 1], confirm, update, now);
    }
  }

  // ---------------------------------------------------------------------------
  // Manifest merge (writeRemotePosts)

  /** An existing record after the merge: the sync time of the last updated post with
      its file name, if there is one, and otherwise unchanged. */
  function SyncedRecord(ep: Post, updated: seq<Post>): Post {
    var k := LastIndex(updated, (u: Post) => u.localFile == ep.localFile);
    if k < 0 then ep else ep.(syncDate := updated[k].syncDate)
  }

  /** The manifest to write, or None when there is nothing to write: the existing records
      with their sync times refreshed, followed by the new records. */
  function Manifest(newPosts: seq<Post>, updatedPosts: seq<Post>, existing: seq<Post>): Option<seq<Post>> {
    if |newPosts| == 0 && |updatedPosts| == 0 then None
    else Some(SyncedRecords(existing, updatedPosts) + newPosts)
  }

  function SyncedRecords(existing: seq<Post>, updatedPosts: seq<Post>): seq<Post> {
    seq(|existing|, k requires 0 <= k < |existing| => SyncedRecord(existing[k], updatedPosts))
  }

  /** writeRemotePosts, without the JSON encoding and the file write: nothing when both
      lists are empty; otherwise every updated post copies its sync time onto each
      existing record of its file, and the new posts are appended. `existing` is the
      manifest read back at this point. */
  method WriteRemotePosts(newPosts: seq<Post>, updatedPosts: seq<Post>, existing: seq<Post>)
    returns (written: Option<seq<Post>>)
    ensures written == Manifest(newPosts, updatedPosts, existing)
    ensures written.None? <==> newPosts == [] && updatedPosts == []
    ensures written.Some? ==> |written.value| == |existing| + |newPosts| && written.value[|existing|..] == newPosts
    ensures written.Some? ==> forall k :: 0 <= k < |existing| ==>
      written.value[k] == existing[k].(syncDate := written.value[k].syncDate)
  {
    if |newPosts| == 0 && |updatedPosts| == 0 {
      return None;
    }
    var existingPosts := existing;
    var i := 0;
    while i < |existingPosts|
      invariant 0 <= i <= |existing| && |existingPosts| == |existing|
      invariant forall k :: 0 <= k < i ==> existingPosts[k] == SyncedRecord(existing[k], updatedPosts)
      invariant forall k :: i <= k < |existing| ==> existingPosts[k] == existing[k]
    {
      var ep := existingPosts[i];
      ghost var before := existingPosts;
      var j := 0;
      while j < |updatedPosts|
        invariant 0 <= j <= |updatedPosts|
        invariant existingPosts == before[i := SyncedRecord(existing[i], updatedPosts[..j])]
      {
        var up := updatedPosts[j];
        assert updatedPosts[..j + 1][..j] == updatedPosts[..j];
        if ep.localFile == up.localFile {
          existingPosts := existingPosts[i := existingPosts[i].(syncDate := up.syncDate)];
        }
        j := j + 1;
      }
      assert updatedPosts[..j] == updatedPosts;
      i := i + 1;
    }
    assert existingPosts == SyncedRecords(existing, updatedPosts);
    existingPosts := existingPosts + newPosts;
    written := Some(existingPosts);
  }

  // Merge properties

  /** With distinct file names among the updated posts, an existing record of an updated
      post's file takes exactly that post's sync time and keeps every other field. */
  lemma MergeTakesSyncDate(newPosts: seq<Post>, updatedPosts: seq<Post>, existing: seq<Post>, k: int, j: int)
    requires UniqueFiles(updatedPosts)
    requires 0 <= k < |existing| && 0 <= j < |updatedPosts| && updatedPosts[j].localFile == existing[k].localFile
    ensures Manifest(newPosts, updatedPosts, existing) == Some(Manifest(newPosts, updatedPosts, existing).value)
    ensures Manifest(newPosts, updatedPosts, existing).value[k] == existing[k].(syncDate := updatedPosts[j].syncDate)
  {
    var i := LastIndex(updatedPosts, (u: Post) => u.localFile == existing[k].localFile);
    assert i >= j;
  }

  /** An existing record whose file no updated post has is carried over unchanged. */
  lemma MergeKeepsOthers(newPosts: seq<Post>, updatedPosts: seq<Post>, existing: seq<Post>, k: int)
    requires Manifest(newPosts, updatedPosts, existing).Some? && 0 <= k < |existing|
    requires forall u :: u in updatedPosts ==> u.localFile != existing[k].localFile
    ensures Manifest(newPosts, updatedPosts, existing).value[k] == existing[k]
  {
  }

  // ---------------------------------------------------------------------------
  // A whole run and its idempotence

  /** The manifest after one run of the post steps of main: classify, load and create the
      new posts, load and update the stale ones, and merge; the manifest is left as it was
      when there is nothing to write. */
  function RunPosts(local: seq<Post>, remote: seq<Post>, files: string -> string, nowText: string,
                    render: string -> string, confirm: Post -> bool, create: Post -> Option<Post>,
                    update: Post -> Option<Post>, now: Time): seq<Post>
  {
    var created := Created(LoadedPosts(NewPosts(local, remote), files, nowText, render), confirm, create, now);
    var updated := Updated(LoadedPosts(StalePosts(local, remote), files, nowText, render), confirm, update, now);
    Manifest(created, updated, remote).GetOr(remote)
  }

  /** Loading keeps the number of posts and each post's file name. */
  lemma {:induction false} LoadedPostsFiles(posts: seq<Post>, files: string -> string, nowText: string, render: string -> string)
    ensures |LoadedPosts(posts, files, nowText, render)| == |posts|
    ensures forall k :: 0 <= k < |posts| ==> LoadedPosts(posts, files, nowText, render)[k].localFile == posts[k].localFile
  {
    if posts != [] {
      var init, p := posts[..|posts| - 1], posts[|posts| - 1];
      LoadedPostsFiles(init, files, nowText, render);
      var q := LoadedPost(p, files(p.localFile), nowText, render);
      LoadedPostIdentity(p, files(p.localFile), nowText, render);
      assert q.localFile == p.localFile;
      assert LoadedPosts(posts, files, nowText, render) == LoadedPosts(init, files, nowText, render) + [q];
      forall k | 0 <= k < |posts|
        ensures LoadedPosts(posts, files, nowText, render)[k].localFile == posts[k].localFile
      {
        if k < |init| {
          assert posts[k] == init[k];
          assert LoadedPosts(posts, files, nowText, render)[k] == LoadedPosts(init, files, nowText, render)[k];
        } else {
          assert LoadedPosts(posts, files, nowText, render)[k] == q;
          assert k == |posts| - 1;
          assert posts[k] == p;
        }
      }
    }
  }

  /** No post is new against a manifest that has a record for every local file. */
  lemma {:induction false} NoNewPosts(local: seq<Post>, manifest: seq<Post>)
    requires forall i :: 0 <= i < |local| ==> HasRecord(local[i], manifest)
    ensures NewPosts(local, manifest) == []
  {
    if local != [] {
      var init := local[..|local| - 1];
      assert forall i :: 0 <= i < |init| ==> init[i] == local[i];
      NoNewPosts(init, manifest);
      assert HasRecord(local[|local| - 1], manifest);
    }
  }

  /** A post whose file has no record synced before the file changed is stale against
      no record. */
  lemma {:induction false} NoStaleFor(lp: Post, manifest: seq<Post>)
    requires forall r :: r in manifest && r.localFile == lp.localFile ==> !After(lp.modDate, r.syncDate)
    ensures StaleFor(lp, manifest) == []
  {
    if manifest != [] {
      var init := manifest[..|manifest| - 1];
      assert forall r :: r in init ==> r in manifest;
      NoStaleFor(lp, init);
      assert manifest[|manifest| - 1] in manifest;
    }
  }

  /** No post is stale against a manifest none of whose records for a local file was
      synced before that file changed. */
  lemma {:induction false} NoStalePosts(local: seq<Post>, manifest: seq<Post>)
    requires forall i, r :: 0 <= i < |local| && r in manifest && r.localFile == local[i].localFile ==>
               !After(local[i].modDate, r.syncDate)
    ensures StalePosts(local, manifest) == []
  {
    if local != [] {
      var init := local[..|local| - 1];
      assert forall i :: 0 <= i < |init| ==> init[i] == local[i];
      NoStalePosts(init, manifest);
      NoStaleFor(local[|local| - 1], manifest);
    }
  }

  /** Every file the manifest had no record of gets a created record. */
  lemma NewFilesCreated(local: seq<Post>, remote: seq<Post>, files: string -> string, nowText: string,
                        render: string -> string, confirm: Post -> bool, create: Post -> Option<Post>, now: Time,
                        c: seq<Post>)
    requires forall p :: confirm(p) && create(p).Some?
    requires c == Created(LoadedPosts(NewPosts(local, remote), files, nowText, render), confirm, create, now)
    ensures forall j :: 0 <= j < |c| ==> c[j].syncDate == now
    ensures forall i :: 0 <= i < |local| && !HasRecord(local[i], remote) ==>
              exists j :: 0 <= j < |c| && c[j].localFile == local[i].localFile
  {
    var n := NewPosts(local, remote);
    var ln := LoadedPosts(n, files, nowText, render);
    LoadedPostsFiles(n, files, nowText, render);
    CreatedAllSucceed(ln, confirm, create, now);
    NewPostsMembers(local, remote);
    forall i | 0 <= i < |local| && !HasRecord(local[i], remote)
      ensures exists j :: 0 <= j < |c| && c[j].localFile == local[i].localFile
    {
      assert local[i] in n;
      var j :| 0 <= j < |n| && n[j] == local[i];
      assert c[j].localFile == ln[j].localFile;
    }
  }

  /** Every record that was synced before its file changed gets an updated post of that file. */
  lemma StaleFilesUpdated(local: seq<Post>, remote: seq<Post>, files: string -> string, nowText: string,
                          render: string -> string, confirm: Post -> bool, update: Post -> Option<Post>, now: Time,
                          u: seq<Post>)
    requires forall p :: confirm(p) && update(p).Some? && update(p).value.localFile == p.localFile
    requires u == Updated(LoadedPosts(StalePosts(local, remote), files, nowText, render), confirm, update, now)
    ensures forall j :: 0 <= j < |u| ==> u[j].syncDate == now
    ensures forall i, r :: (0 <= i < |local| && r in remote && r.localFile == local[i].localFile
                            && After(local[i].modDate, r.syncDate)) ==>
              exists j :: 0 <= j < |u| && u[j].localFile == r.localFile
  {
    var s := StalePosts(local, remote);
    var ls := LoadedPosts(s, files, nowText, render);
    LoadedPostsFiles(s, files, nowText, render);
    UpdatedKeepsFiles(ls, confirm, update, now);
    StaleFilesKept(local, remote, s, u);
  }

  /** A list that keeps the update candidates' files one for one holds the file of
      every local post changed since its record. */
  lemma StaleFilesKept(local: seq<Post>, remote: seq<Post>, s: seq<Post>, u: seq<Post>)
    requires s == StalePosts(local, remote)
    requires |u| == |s| && forall k :: 0 <= k < |s| ==> u[k].localFile == s[k].localFile
    ensures forall i, r :: (0 <= i < |local| && r in remote && r.localFile == local[i].localFile
                            && After(local[i].modDate, r.syncDate)) ==>
              exists j :: 0 <= j < |u| && u[j].localFile == r.localFile
  {
    forall i, r | 0 <= i < |local| && r in remote && r.localFile == local[i].localFile
        && After(local[i].modDate, r.syncDate)
      ensures exists j :: 0 <= j < |u| && u[j].localFile == r.localFile
    {
      StaleCandidate(local, remote, i, r);
      var j :| 0 <= j < |s| && s[j] == local[i].(id := r.id);
      assert u[j].localFile == s[j].localFile;
    }
  }

  /** A local post changed since the record of its file is an update candidate, under
      that record's id. */
  lemma StaleCandidate(local: seq<Post>, remote: seq<Post>, i: int, r: Post)
    requires 0 <= i < |local| && r in remote && r.localFile == local[i].localFile
    requires After(local[i].modDate, r.syncDate)
    ensures local[i].(id := r.id) in StalePosts(local, remote)
  {
    StalePostsMembers(local, remote);
    assert local[i] in local;
  }

  /** When every call is confirmed and succeeds without moving the post to another
      file, the updates keep the files, one for one, stamped with the sync time. */
  lemma UpdatedKeepsFiles(posts: seq<Post>, confirm: Post -> bool, update: Post -> Option<Post>, now: Time)
    requires forall p :: confirm(p) && update(p).Some? && update(p).value.localFile == p.localFile
    ensures |Updated(posts, confirm, update, now)| == |posts|
    ensures forall k :: 0 <= k < |posts| ==> Updated(posts, confirm, update, now)[k].localFile == posts[k].localFile
    ensures forall k :: 0 <= k < |posts| ==> Updated(posts, confirm, update, now)[k].syncDate == now
  {
    UpdatedAllSucceed(posts, confirm, update, now);
  }

  /** The merged manifest has a record of every file that had one or was created. */
  lemma ManifestRecordsAll(local: seq<Post>, remote: seq<Post>, c: seq<Post>, u: seq<Post>)
    requires forall i :: 0 <= i < |local| && !HasRecord(local[i], remote) ==>
               exists j :: 0 <= j < |c| && c[j].localFile == local[i].localFile
    ensures forall i :: 0 <= i < |local| ==> HasRecord(local[i], Manifest(c, u, remote).GetOr(remote))
  {
    var manifest := Manifest(c, u, remote).GetOr(remote);
    forall i | 0 <= i < |local| ensures HasRecord(local[i], manifest) {
      if HasRecord(local[i], remote) {
        var r :| r in remote && r.localFile == local[i].localFile;
        var k :| 0 <= k < |remote| && remote[k] == r;
        if Manifest(c, u, remote).Some? {
          assert manifest[k] == SyncedRecord(remote[k], u);
          assert manifest[k] in manifest;
        }
      } else {
        var j :| 0 <= j < |c| && c[j].localFile == local[i].localFile;
        assert manifest == SyncedRecords(remote, u) + c;
        assert manifest[|remote| + j] == c[j];
      }
    }
  }

  /** In the merged manifest no record of a local file that changed by `now` predates it,
      when every record written carries `now` and every out-of-date record was updated. */
  lemma ManifestSynced(local: seq<Post>, remote: seq<Post>, c: seq<Post>, u: seq<Post>, now: Time)
    requires forall j :: 0 <= j < |c| ==> c[j].syncDate == now
    requires forall j :: 0 <= j < |u| ==> u[j].syncDate == now
    requires forall i :: 0 <= i < |local| ==> local[i].modDate <= now
    requires forall i, r :: (0 <= i < |local| && r in remote && r.localFile == local[i].localFile
                             && After(local[i].modDate, r.syncDate)) ==>
               exists j :: 0 <= j < |u| && u[j].localFile == r.localFile
    ensures var manifest := Manifest(c, u, remote).GetOr(remote);
            forall i, r :: 0 <= i < |local| && r in manifest && r.localFile == local[i].localFile ==>
              !After(local[i].modDate, r.syncDate)
  {
    var manifest := Manifest(c, u, remote).GetOr(remote);
    forall i, r | 0 <= i < |local| && r in manifest && r.localFile == local[i].localFile
      ensures !After(local[i].modDate, r.syncDate)
    {
      if Manifest(c, u, remote).Some? {
        var k :| 0 <= k < |manifest| && manifest[k] == r;
        if k < |remote| {
          assert r == SyncedRecord(remote[k], u);
        } else {
          assert r == c[k - |remote|];
        }
      }
    }
  }

  /** After a run where every create succeeded, every local file has a record. */
  lemma RunRecordsEveryFile(local: seq<Post>, remote: seq<Post>, files: string -> string, nowText: string,
                            render: string -> string, confirm: Post -> bool, create: Post -> Option<Post>,
                            update: Post -> Option<Post>, now: Time)
    requires forall p :: confirm(p) && create(p).Some?
    ensures NewPosts(local, RunPosts(local, remote, files, nowText, render, confirm, create, update, now)) == []
  {
    var c := Created(LoadedPosts(NewPosts(local, remote), files, nowText, render), confirm, create, now);
    var u := Updated(LoadedPosts(StalePosts(local, remote), files, nowText, render), confirm, update, now);
    var manifest := RunPosts(local, remote, files, nowText, render, confirm, create, update, now);
    assert manifest == Manifest(c, u, remote).GetOr(remote);
    NewFilesCreated(local, remote, files, nowText, render, confirm, create, now, c);
    ManifestRecordsAll(local, remote, c, u);
    NoNewPosts(local, manifest);
  }

  /** After a run where every call succeeded and kept its file name, no record of a local
      file predates the file, when no file changed after the run's clock reading. */
  lemma RunSyncsEveryFile(local: seq<Post>, remote: seq<Post>, files: string -> string, nowText: string,
                          render: string -> string, confirm: Post -> bool, create: Post -> Option<Post>,
                          update: Post -> Option<Post>, now: Time)
    requires forall p :: confirm(p) && create(p).Some?
    requires forall p :: update(p).Some? && update(p).value.localFile == p.localFile
    requires forall i :: 0 <= i < |local| ==> local[i].modDate <= now
    ensures StalePosts(local, RunPosts(local, remote, files, nowText, render, confirm, create, update, now)) == []
  {
    var c := Created(LoadedPosts(NewPosts(local, remote), files, nowText, render), confirm, create, now);
    var u := Updated(LoadedPosts(StalePosts(local, remote), files, nowText, render), confirm, update, now);
    var manifest := RunPosts(local, remote, files, nowText, render, confirm, create, update, now);
    assert manifest == Manifest(c, u, remote).GetOr(remote);
    NewFilesCreated(local, remote, files, nowText, render, confirm, create, now, c);
    StaleFilesUpdated(local, remote, files, nowText, render, confirm, update, now, u);
    ManifestSynced(local, remote, c, u, now);
    NoStalePosts(local, manifest);
  }

  /** A second run with no file changed in between creates and updates nothing, when
      the first run had every post confirmed and every call succeed, each update answer
      kept its file name, and no file changed after the first run's clock reading. */
  lemma SecondRunIsQuiet(local: seq<Post>, remote: seq<Post>, files: string -> string, nowText: string,
                         render: string -> string, confirm: Post -> bool, create: Post -> Option<Post>,
                         update: Post -> Option<Post>, now: Time)
    requires forall p :: confirm(p) && create(p).Some?
    requires forall p :: update(p).Some? && update(p).value.localFile == p.localFile
    requires forall i :: 0 <= i < |local| ==> local[i].modDate <= now
    ensures var manifest := RunPosts(local, remote, files, nowText, render, confirm, create, update, now);
            NewPosts(local, manifest) == [] && StalePosts(local, manifest) == []
  {
    RunRecordsEveryFile(local, remote, files, nowText, render, confirm, create, update, now);
    RunSyncsEveryFile(local, remote, files, nowText, render, confirm, create, update, now);
  }
}
