/** pages.go: which local pages to create or update, the create and update drivers, the
    manifest merge and the front-matter parser for pages. The logic repeats that of
    posts.go over a record with a template, a parent and a menu order. */
module Pages {
  import opened Wrappers
  import opened GoStrings
  import opened GoTime
  import opened GoStrconv
  import opened FrontMatter

  /** A page: the fields parsed from its file, the remote id and link, the name of its
      file (the join key with the manifest), the file's modification time and the time
      it was last synced. */
  datatype Page = Page(
    id: int,
    title: string,
    content: string,
    template: string,
    parentId: int,
    order: string,
    status: string,
    url: string,
    localFile: string,
    modDate: Time,
    syncDate: Time)

  /** No two pages of `ps` share a file name. */
  predicate UniqueFiles(ps: seq<Page>) {
    forall i, j :: 0 <= i < j < |ps| ==> ps[i].localFile != ps[j].localFile
  }

  /** Some record of `remote` has the file name of `lp`. */
  predicate HasRecord(lp: Page, remote: seq<Page>) {
    exists r :: r in remote && r.localFile == lp.localFile
  }

  // ---------------------------------------------------------------------------
  // Change classifier (comparePages)

  /** The local pages no record of `remote` knows, in local order. */
  function NewPages(local: seq<Page>, remote: seq<Page>): seq<Page> {
    if local == [] then []
    else
      var lp := local[|local| - 1];
      NewPages(local[..|local| - 1], remote) + (if HasRecord(lp, remote) then [] else [lp])
  }

  /** What the inner loop over `remote` appends for `lp`: one copy of `lp`, carrying the
      record's id, for each record of its file synced before `lp` changed. */
  function StaleFor(lp: Page, remote: seq<Page>): seq<Page> {
    if remote == [] then []
    else
      var rp := remote[|remote| - 1];
      StaleFor(lp, remote[..|remote| - 1])
      + (if rp.localFile == lp.localFile && After(lp.modDate, rp.syncDate) then [lp.(id := rp.id)] else [])
  }

  /** The local pages to update, in local order, each with the id of its record. */
  function StalePages(local: seq<Page>, remote: seq<Page>): seq<Page> {
    if local == [] then []
    else StalePages(local[..|local| - 1], remote) + StaleFor(local[|local| - 1], remote)
  }

  /** comparePages: for each local page, scan every remote record with a flag; a record
      of the same file copies its id onto the page, and the page joins the update list
      when it changed after that record's sync; a page no record knows is new. */
  method ComparePages(local: seq<Page>, remote: seq<Page>) returns (newPages: seq<Page>, updatePages: seq<Page>)
    ensures newPages == NewPages(local, remote)
    ensures updatePages == StalePages(local, remote)
  {
    newPages, updatePages := [], [];
    var i := 0;
    while i < |local|
      invariant 0 <= i <= |local|
      invariant newPages == NewPages(local[..i], remote)
      invariant updatePages == StalePages(local[..i], remote)
    {
      var lp := local[i];
      var found := false;
      ghost var before := updatePages;
      var j := 0;
      while j < |remote|
        invariant 0 <= j <= |remote|
        invariant found <==> HasRecord(local[i], remote[..j])
        invariant lp == local[i].(id := lp.id)
        invariant !found ==> lp == local[i]
        invariant updatePages == before + StaleFor(local[i], remote[..j])
      {
        var rp := remote[j];
        ScanSnoc(local[i], remote, j);
        ghost var seen := StaleFor(local[i], remote[..j]);
        if lp.localFile == rp.localFile {
          found := true;
          lp := lp.(id := rp.id);
          if After(lp.modDate, rp.syncDate) {
            assert lp == local[i].(id := rp.id);
            updatePages := updatePages + [lp];
            AppendAssoc(before, seen, [lp]);
            assert updatePages == before + StaleFor(local[i], remote[..j + 1]);
          } else {
            assert seen + [] == seen;
            assert updatePages == before + StaleFor(local[i], remote[..j + 1]);
          }
        } else {
          assert seen + [] == seen;
          assert updatePages == before + StaleFor(local[i], remote[..j + 1]);
        }
        j := j + 1;
      }
      assert remote[..j] == remote;
      if !found {
        newPages := newPages + [lp];
      }
      assert local[..i + 1][..i] == local[..i];
      i := i + 1;
    }
    assert local[..i] == local;
  }

  /** One more record scanned: it is a record of the file, and an update candidate
      for it, exactly when the inner loop's test says so. */
  lemma ScanSnoc(lp: Page, remote: seq<Page>, j: int)
    requires 0 <= j < |remote|
    ensures HasRecord(lp, remote[..j + 1]) <==> HasRecord(lp, remote[..j]) || remote[j].localFile == lp.localFile
    ensures StaleFor(lp, remote[..j + 1]) == StaleFor(lp, remote[..j])
      + (if remote[j].localFile == lp.localFile && After(lp.modDate, remote[j].syncDate) then [lp.(id := remote[j].id)] else [])
  {
    assert remote[..j + 1][..j] == remote[..j];
    assert remote[..j + 1] == remote[..j] + [remote[j]];
  }

  // Classifier properties

  /** A page is new exactly when it is local and no record has its file name. */
  lemma {:induction false} NewPagesMembers(local: seq<Page>, remote: seq<Page>)
    ensures forall x :: x in NewPages(local, remote) <==> x in local && !HasRecord(x, remote)
  {
    if local != [] {
      var init := local[..|local| - 1];
      NewPagesMembers(init, remote);
      assert local == init + [local[|local| - 1]];
    }
  }

  /** An update candidate is a local page carrying the id of a record of its file that
      was synced before the page changed, and every such pair yields one. */
  lemma {:induction false} StaleForMembers(lp: Page, remote: seq<Page>)
    ensures forall x :: x in StaleFor(lp, remote) <==>
      exists r :: r in remote && r.localFile == lp.localFile && After(lp.modDate, r.syncDate) && x == lp.(id := r.id)
  {
    if remote != [] {
      var init := remote[..|remote| - 1];
      StaleForMembers(lp, init);
      assert remote == init + [remote[|remote| - 1]];
    }
  }

  /** A page no record knows yields no update candidate. */
  lemma {:induction false} StaleForUnknown(lp: Page, remote: seq<Page>)
    requires !HasRecord(lp, remote)
    ensures StaleFor(lp, remote) == []
  {
    if remote != [] {
      var init := remote[..|remote| - 1];
      assert remote == init + [remote[|remote| - 1]];
      assert !HasRecord(lp, init) by {
        forall r | r in init ensures r.localFile != lp.localFile {
          assert r in remote;
        }
      }
      StaleForUnknown(lp, init);
    }
  }

  /** With one record per file, a known page is an update candidate exactly when it
      changed strictly after that record's sync, and it then carries the record's id. */
  lemma {:induction false} StaleForUnique(lp: Page, remote: seq<Page>, k: int)
    requires UniqueFiles(remote)
    requires 0 <= k < |remote| && remote[k].localFile == lp.localFile
    ensures StaleFor(lp, remote) == if After(lp.modDate, remote[k].syncDate) then [lp.(id := remote[k].id)] else []
  {
    var init := remote[..|remote| - 1];
    assert UniqueFiles(init);
    if k == |remote| - 1 {
      assert !HasRecord(lp, init) by {
        forall r | r in init ensures r.localFile != lp.localFile {
          var j :| 0 <= j < |init| && init[j] == r;
          assert remote[j] == r;
        }
      }
      StaleForUnknown(lp, init);
    } else {
      StaleForUnique(lp, init, k);
      assert remote[|remote| - 1].localFile != lp.localFile;
    }
  }

  /** Every update candidate is a local page with the id of a stale record of its file,
      and every such pair yields one. */
  lemma {:induction false} StalePagesMembers(local: seq<Page>, remote: seq<Page>)
    ensures forall x :: x in StalePages(local, remote) <==>
      exists lp, r :: lp in local && r in remote && r.localFile == lp.localFile
        && After(lp.modDate, r.syncDate) && x == lp.(id := r.id)
  {
    if local != [] {
      var init := local[..|local| - 1];
      var last := local[|local| - 1];
      StalePagesMembers(init, remote);
      StaleForMembers(last, remote);
      assert local == init + [last];
      forall x | (exists lp, r :: lp in local && r in remote && r.localFile == lp.localFile
                   && After(lp.modDate, r.syncDate) && x == lp.(id := r.id))
        ensures x in StalePages(local, remote)
      {
        var lp, r :| lp in local && r in remote && r.localFile == lp.localFile
          && After(lp.modDate, r.syncDate) && x == lp.(id := r.id);
        if lp != last {
          assert lp in init;
        }
      }
    }
  }

  /** No file is both created and updated in one run. */
  lemma NewAndStaleDisjoint(local: seq<Page>, remote: seq<Page>, x: Page, y: Page)
    requires x in NewPages(local, remote) && y in StalePages(local, remote)
    ensures x.localFile != y.localFile
  {
    NewPagesMembers(local, remote);
    StalePagesMembers(local, remote);
  }

  /** The classifier works page by page: the lists for `a + b` are those for `a`
      followed by those for `b`, so both keep local order. */
  lemma {:induction false} ClassifierConcat(a: seq<Page>, b: seq<Page>, remote: seq<Page>)
    ensures NewPages(a + b, remote) == NewPages(a, remote) + NewPages(b, remote)
    ensures StalePages(a + b, remote) == StalePages(a, remote) + StalePages(b, remote)
  {
    if b != [] {
      var init := b[..|b| - 1];
      ClassifierConcat(a, init, remote);
      assert (a + b)[..|a + b| - 1] == a + init;
      assert (a + b)[|a + b| - 1] == b[|b| - 1];
    } else {
      assert a + b == a;
    }
  }

  // ---------------------------------------------------------------------------
  // Front-matter parser (readParsePageFile) and loading (loadPageFromFile)

  /** The page before any key is read: published, no parent, every other field empty. */
  function DefaultPage(): Page { Page(0, "", "", "", 0, "", "publish", "", "", ZeroTime, ZeroTime) }

  /** The effect of one recognised key; `parent` goes through strconv.Atoi, whose value
      is kept even when it reports an error; any other key leaves the page as it is. */
  function ApplyParam(p: Page, param: Param): Page {
    var v := param.value;
    if param.key == "title" then p.(title := v)
    else if param.key == "template" then p.(template := v)
    else if param.key == "parent" then p.(parentId := Atoi(v))
    else if param.key == "status" then p.(status := v)
    else if param.key == "order" then p.(order := v)
    else p
  }

  /** The effect of one raw header line. */
  function ApplyLine(p: Page, line: string): Page {
    var param := LineParam(line);
    if param.None? then p else ApplyParam(p, param.value)
  }

  /** The header lines applied in file order. */
  function ApplyHeader(p: Page, header: seq<string>): Page {
    ApplyLines(ApplyLine, p, header)
  }

  /** The page a file's text denotes: the defaults overridden by its header, and the
      rendered body. */
  function ParsedPage(text: string, render: string -> string): Page {
    var lines := Split(text, '\n');
    ApplyHeader(DefaultPage(), Header(lines)).(content := render(Join(BodyLines(lines), '\n')))
  }

  /** readParsePageFile: walk the lines with a counter of delimiters seen; while it is
      one, trimmed lines with a colon set fields; at the first line after the second
      delimiter the remaining lines become the body. `render` is the markdown renderer. */
  method ReadParsePageFile(data: string, render: string -> string) returns (page: Page)
    ensures page == ParsedPage(data, render)
  {
    page := DefaultPage();
    var lines := Split(data, '\n');
    ghost var all := lines;
    var found := 0;
    var i := 0;
    while i < |lines|
      invariant lines == all && 0 <= i <= |all|
      invariant found == Found(all, i) && (found == 2 ==> i == Closing(all) + 1)
      invariant page == Scanned(ApplyLine, DefaultPage(), all, i)
    {
      var line := TrimSpace(lines[i]);
      ScannedPageNext(DefaultPage(), all, i, page, line);
      if found == 1 {
        var param := ParamOf(line);
        if param.Some? {
          page := ApplyParam(page, param.value);
        }
      } else if found >= 2 {
        lines := lines[i..];
        break;
      }
      ScanCount(all, i);
      if line == "---" {
        found := found + 1;
      }
      i := i + 1;
    }
    ScannedPageResult(data, render, all, i, lines);
    var content := Join(lines, '\n');
    page := page.(content := render(content));
  }

  /** One step of the loop: a line read while the count is one applies its pair, if it
      has one, and any other line changes nothing. */
  lemma ScannedPageNext(d: Page, lines: seq<string>, i: nat, p: Page, line: string)
    requires i < |lines| && p == Scanned(ApplyLine, d, lines, i) && line == TrimSpace(lines[i])
    ensures Scanned(ApplyLine, d, lines, i + 1) ==
              if Found(lines, i) == 1 && ParamOf(line).Some? then ApplyParam(p, ParamOf(line).value) else p
  {
    if IsDelimiter(lines[i]) {
      DelimiterHasNoPair(lines[i]);
    }
  }

  /** Where the loop ends, what it holds with the remaining lines rendered as the
      content is the parsed page. */
  lemma ScannedPageResult(data: string, render: string -> string, all: seq<string>, i: nat, rest: seq<string>)
    requires all == Split(data, '\n') && i <= |all|
    requires i == Closing(all) + 1 || (i == |all| && Found(all, i) < 2)
    requires rest == if i < |all| then all[i..] else all
    ensures Scanned(ApplyLine, DefaultPage(), all, i).(content := render(Join(rest, '\n'))) == ParsedPage(data, render)
  {
    ScannedHeader(ApplyLine, DefaultPage(), all, i);
    ScanEnd(all, i);
  }

  /** mergo.Merge(&dst, src): every field of `dst` still at its zero value is taken
      from `src`. That the two times are filled too is assumed: it depends on how the
      library version treats `time.Time`. */
  function MergeZero(dst: Page, src: Page): Page {
    Page(
      if dst.id == 0 then src.id else dst.id,
      if dst.title == "" then src.title else dst.title,
      if dst.content == "" then src.content else dst.content,
      if dst.template == "" then src.template else dst.template,
      if dst.parentId == 0 then src.parentId else dst.parentId,
      if dst.order == "" then src.order else dst.order,
      if dst.status == "" then src.status else dst.status,
      if dst.url == "" then src.url else dst.url,
      if dst.localFile == "" then src.localFile else dst.localFile,
      if dst.modDate == ZeroTime then src.modDate else dst.modDate,
      if dst.syncDate == ZeroTime then src.syncDate else dst.syncDate)
  }

  /** The page loadPageFromFile builds for classified page `p` whose file holds `text`. */
  function LoadedPage(p: Page, text: string, render: string -> string): Page {
    MergeZero(ParsedPage(text, render), p)
  }

  /** loadPageFromFile: parse the file, then fill the parsed page's empty fields from the
      classified page, so it keeps its file name, remote id, link and times. */
  method LoadPageFromFile(p: Page, text: string, render: string -> string) returns (page: Page)
    ensures page == LoadedPage(p, text, render)
  {
    page := ReadParsePageFile(text, render);
    page := MergeZero(page, p);
  }

  /** The loaded form of each page, in order; `files` gives the text of each file by
      name (the empty text when it cannot be read). */
  function LoadedPages(pages: seq<Page>, files: string -> string, render: string -> string): seq<Page> {
    if pages == [] then []
    else
      var p := pages[|pages| - 1];
      LoadedPages(pages[..|pages| - 1], files, render) + [LoadedPage(p, files(p.localFile), render)]
  }

  /** loadPagesFromFiles: load every page, in order. */
  method LoadPagesFromFiles(pages: seq<Page>, files: string -> string, render: string -> string)
    returns (loadedPages: seq<Page>)
    ensures loadedPages == LoadedPages(pages, files, render)
  {
    loadedPages := [];
    var i := 0;
    while i < |pages|
      invariant 0 <= i <= |pages|
      invariant loadedPages == LoadedPages(pages[..i], files, render)
    {
      var lp := LoadPageFromFile(pages[i], files(pages[i].localFile), render);
      LoadedPagesNext(pages, i, files, render);
      loadedPages := loadedPages + [lp];
      i := i + 1;
    }
    assert pages[..i] == pages;
  }

  lemma LoadedPagesNext(pages: seq<Page>, i: int, files: string -> string, render: string -> string)
    requires 0 <= i < |pages|
    ensures LoadedPages(pages[..i + 1], files, render)
            == LoadedPages(pages[..i], files, render) + [LoadedPage(pages[i], files(pages[i].localFile), render)]
  {
    assert pages[..i + 1][..i] == pages[..i];
  }

  // Parser properties

  /** The parent id a header sets: that of the last `parent` line, read by Atoi. */
  function ParentOf(header: seq<string>, default: int): int {
    var v := LastValue(header, "parent");
    if v.Some? then Atoi(v.value) else default
  }

  /** The header lines set each recognised field to the value of its last line (the
      parent through Atoi) and touch nothing else: date, category, tags and every other
      key are ignored. */
  lemma {:induction false} HeaderFields(p: Page, header: seq<string>)
    ensures var q := ApplyHeader(p, header);
            && q.title == LastValue(header, "title").GetOr(p.title)
            && q.template == LastValue(header, "template").GetOr(p.template)
            && q.parentId == ParentOf(header, p.parentId)
            && q.status == LastValue(header, "status").GetOr(p.status)
            && q.order == LastValue(header, "order").GetOr(p.order)
            && q == p.(title := q.title, template := q.template, parentId := q.parentId,
                       status := q.status, order := q.order)
  {
    if header != [] {
      var init, line := header[..|header| - 1], header[|header| - 1];
      assert header == init + [line];
      HeaderFields(p, init);
      LastValueSnoc(init, line, "title");
      LastValueSnoc(init, line, "template");
      LastValueSnoc(init, line, "parent");
      LastValueSnoc(init, line, "status");
      LastValueSnoc(init, line, "order");
    }
  }

  /** A header line whose key is none of the five recognised ones changes nothing. */
  lemma OtherKeyIgnored(p: Page, header: seq<string>, line: string)
    requires LineParam(line).Some?
    requires var k := LineParam(line).value.key;
             k != "title" && k != "template" && k != "parent" && k != "status" && k != "order"
    ensures ApplyHeader(p, header + [line]) == ApplyHeader(p, header)
  {
    ApplyLinesSnoc(ApplyLine, p, header, line);
  }

  /** The defaults survive every field no header line sets: status `publish`, parent 0,
      and empty title, template and order; the body is always rendered. */
  lemma ParsedPageDefaults(text: string, render: string -> string)
    ensures var q, lines := ParsedPage(text, render), Split(text, '\n');
            var h := Header(lines);
            && (LastValue(h, "title").None? ==> q.title == "")
            && (LastValue(h, "template").None? ==> q.template == "")
            && (LastValue(h, "parent").None? ==> q.parentId == 0)
            && (LastValue(h, "status").None? ==> q.status == "publish")
            && (LastValue(h, "order").None? ==> q.order == "")
            && q.id == 0 && q.url == "" && q.localFile == "" && q.modDate == ZeroTime && q.syncDate == ZeroTime
            && q.content == render(Join(BodyLines(lines), '\n'))
  {
    HeaderFields(DefaultPage(), Header(Split(text, '\n')));
  }

  /** A `parent` value that is no decimal number gives parent 0. */
  lemma NonNumericParent(header: seq<string>, default: int, k: int)
    requires LastValue(header, "parent").Some?
    requires var m := Magnitude(LastValue(header, "parent").value);
             m == [] || SyntaxErrorAt(m, k)
    ensures ParentOf(header, default) == 0
  {
    AtoiSyntaxError(LastValue(header, "parent").value, k);
  }

  /** A parent id written in decimal is read back. */
  lemma DecimalParent(header: seq<string>, default: int, n: int)
    requires MinInt64 <= n <= MaxInt64
    requires LastValue(header, "parent") == Some(Itoa(n))
    ensures ParentOf(header, default) == n
  {
    AtoiItoa(n);
  }

  /** With front matter laid out as a block followed by a body, the parsed page is the
      defaults overridden by the block's lines, with the rendered body lines. */
  lemma ParsedPageLayout(pre: seq<string>, open: string, header: seq<string>, close: string, body: seq<string>,
                         render: string -> string)
    requires forall k :: 0 <= k < |pre| ==> !IsDelimiter(pre[k]) && '\n' !in pre[k]
    requires forall k :: 0 <= k < |header| ==> !IsDelimiter(header[k]) && '\n' !in header[k]
    requires IsDelimiter(open) && IsDelimiter(close) && '\n' !in open && '\n' !in close
    requires |body| >= 1 && forall k :: 0 <= k < |body| ==> '\n' !in body[k]
    ensures ParsedPage(Join(pre + [open] + header + [close] + body, '\n'), render)
            == ApplyHeader(DefaultPage(), header).(content := render(Join(body, '\n')))
  {
    BlockText(pre, open, header, close, body);
  }

  /** A text without a delimiter line is all body, with every field at its default. */
  lemma ParsedPageWithoutFrontMatter(text: string, render: string -> string)
    requires forall k :: 0 <= k < |Split(text, '\n')| ==> !IsDelimiter(Split(text, '\n')[k])
    ensures ParsedPage(text, render) == DefaultPage().(content := render(text))
  {
    NoBlockLayout(Split(text, '\n'));
    JoinSplit(text, '\n');
  }

  /** A loaded page keeps the file name, remote id, link and times of the classified
      page, and takes its other fields from the file unless the file left them empty. */
  lemma LoadedPageIdentity(p: Page, text: string, render: string -> string)
    ensures var q, parsed := LoadedPage(p, text, render), ParsedPage(text, render);
            && q.localFile == p.localFile && q.id == p.id && q.url == p.url
            && q.modDate == p.modDate && q.syncDate == p.syncDate
            && q.title == (if parsed.title == "" then p.title else parsed.title)
            && q.parentId == (if parsed.parentId == 0 then p.parentId else parsed.parentId)
  {
    ParsedPageDefaults(text, render);
  }

  // ---------------------------------------------------------------------------
  // Create and update drivers (createPages, updatePages)

  /** What createPages keeps of one new page: the server's record, with the page's file
      name and the sync time, when the page is confirmed and the create call succeeds. */
  function CreatedItem(p: Page, confirm: Page -> bool, create: Page -> Option<Page>, now: Time): seq<Page> {
    if confirm(p) && create(p).Some? then [create(p).value.(localFile := p.localFile, syncDate := now)] else []
  }

  function Created(pages: seq<Page>, confirm: Page -> bool, create: Page -> Option<Page>, now: Time): seq<Page> {
    if pages == [] then []
    else Created(pages[..|pages| - 1], confirm, create, now) + CreatedItem(pages[|pages| - 1], confirm, create, now)
  }

  /** createPages: ask for each new page, call the create API for the confirmed ones and
      keep the successful results, stamped. `confirm` is the prompt's answer, `create`
      the API call (None on a transport error or a status above 299), `now` the clock. */
  method CreatePages(newPages: seq<Page>, confirm: Page -> bool, create: Page -> Option<Page>, now: Time)
    returns (createdPages: seq<Page>)
    ensures createdPages == Created(newPages, confirm, create, now)
  {
    createdPages := [];
    var i := 0;
    while i < |newPages|
      invariant 0 <= i <= |newPages|
      invariant createdPages == Created(newPages[..i], confirm, create, now)
    {
      var p := newPages[i];
      if confirm(p) {
        var result := create(p);
        if result.Some? {
          var rp := result.value;
          rp := rp.(localFile := p.localFile);
          rp := rp.(syncDate := now);
          createdPages := createdPages + [rp];
        }
      }
      assert newPages[..i + 1][..i] == newPages[..i];
      i := i + 1;
    }
    assert newPages[..i] == newPages;
  }

  /** What updatePages keeps of one page: the server's record stamped with the sync
      time, when the page is confirmed and the update call succeeds. */
  function UpdatedItem(p: Page, confirm: Page -> bool, update: Page -> Option<Page>, now: Time): seq<Page> {
    if confirm(p) && update(p).Some? then [update(p).value.(syncDate := now)] else []
  }

  function Updated(pages: seq<Page>, confirm: Page -> bool, update: Page -> Option<Page>, now: Time): seq<Page> {
    if pages == [] then []
    else Updated(pages[..|pages| - 1], confirm, update, now) + UpdatedItem(pages[|pages| - 1], confirm, update, now)
  }

  /** updatePages: ask for each stale page, call the update API for the confirmed ones
      and keep the successful results, stamped with the sync time. */
  method UpdatePages(pages: seq<Page>, confirm: Page -> bool, update: Page -> Option<Page>, now: Time)
    returns (updatedPages: seq<Page>)
    ensures updatedPages == Updated(pages, confirm, update, now)
  {
    updatedPages := [];
    var i := 0;
    while i < |pages|
      invariant 0 <= i <= |pages|
      invariant updatedPages == Updated(pages[..i], confirm, update, now)
    {
      var p := pages[i];
      if confirm(p) {
        var result := update(p);
        if result.Some? {
          var rp := result.value;
          rp := rp.(syncDate := now);
          updatedPages := updatedPages + [rp];
        }
      }
      assert pages[..i + 1][..i] == pages[..i];
      i := i + 1;
    }
    assert pages[..i] == pages;
  }

  // Driver properties

  /** Every created record is the server's answer for a confirmed page whose call
      succeeded, carrying that page's file name and the sync time, and every such page
      yields one. */
  lemma {:induction false} CreatedMembers(pages: seq<Page>, confirm: Page -> bool, create: Page -> Option<Page>, now: Time)
    ensures forall c :: c in Created(pages, confirm, create, now) <==>
      exists p :: p in pages && confirm(p) && create(p).Some? && c == create(p).value.(localFile := p.localFile, syncDate := now)
  {
    if pages != [] {
      var init := pages[..|pages| - 1];
      CreatedMembers(init, confirm, create, now);
      assert pages == init + [pages[|pages| - 1]];
    }
  }

  /** The created records of `a + b` are those of `a` followed by those of `b`: results
      keep input order. */
  lemma {:induction false} CreatedConcat(a: seq<Page>, b: seq<Page>, confirm: Page -> bool, create: Page -> Option<Page>, now: Time)
    ensures Created(a + b, confirm, create, now) == Created(a, confirm, create, now) + Created(b, confirm, create, now)
  {
    if b == [] {
      assert a + b == a;
    } else {
      var init, last := b[..|b| - 1], b[|b| - 1];
      CreatedConcat(a, init, confirm, create, now);
      assert (a + b)[..|a + b| - 1] == a + init && (a + b)[|a + b| - 1] == last;
      assert Created(a + b, confirm, create, now) == Created(a + init, confirm, create, now) + CreatedItem(last, confirm, create, now);
    }
  }

  /** With distinct file names, a page that was declined or whose create call failed
      leaves no record for its file. */
  lemma CreatedDropsFailure(pages: seq<Page>, confirm: Page -> bool, create: Page -> Option<Page>, now: Time, j: int)
    requires UniqueFiles(pages) && 0 <= j < |pages|
    requires !confirm(pages[j]) || create(pages[j]).None?
    ensures forall c :: c in Created(pages, confirm, create, now) ==> c.localFile != pages[j].localFile
  {
    CreatedMembers(pages, confirm, create, now);
    forall c | c in Created(pages, confirm, create, now) ensures c.localFile != pages[j].localFile {
      var p :| p in pages && confirm(p) && create(p).Some? && c == create(p).value.(localFile := p.localFile, syncDate := now);
      var i :| 0 <= i < |pages| && pages[i] == p;
      assert i != j;
    }
  }

  /** Every updated record is the server's answer for a confirmed page whose call
      succeeded, stamped with the sync time, and every such page yields one. */
  lemma {:induction false} UpdatedMembers(pages: seq<Page>, confirm: Page -> bool, update: Page -> Option<Page>, now: Time)
    ensures forall u :: u in Updated(pages, confirm, update, now) <==>
      exists p :: p in pages && confirm(p) && update(p).Some? && u == update(p).value.(syncDate := now)
  {
    if pages != [] {
      var init := pages[..|pages| - 1];
      UpdatedMembers(init, confirm, update, now);
      assert pages == init + [pages[|pages| - 1]];
    }
  }

  /** The updated records of `a + b` are those of `a` followed by those of `b`. */
  lemma {:induction false} UpdatedConcat(a: seq<Page>, b: seq<Page>, confirm: Page -> bool, update: Page -> Option<Page>, now: Time)
    ensures Updated(a + b, confirm, update, now) == Updated(a, confirm, update, now) + Updated(b, confirm, update, now)
  {
    if b == [] {
      assert a + b == a;
    } else {
      var init, last := b[..|b| - 1], b[|b| - 1];
      UpdatedConcat(a, init, confirm, update, now);
      assert (a + b)[..|a + b| - 1] == a + init && (a + b)[|a + b| - 1] == last;
      assert Updated(a + b, confirm, update, now) == Updated(a + init, confirm, update, now) + UpdatedItem(last, confirm, update, now);
    }
  }

  // ---------------------------------------------------------------------------
  // Manifest merge (writeRemotePages)

  /** An existing record after the merge: the sync time of the last updated page with
      its file name, if there is one, and otherwise unchanged. */
  function SyncedRecord(ep: Page, updated: seq<Page>): Page {
    var k := LastIndex(updated, (u: Page) => u.localFile == ep.localFile);
    if k < 0 then ep else ep.(syncDate := updated[k].syncDate)
  }

  function SyncedRecords(existing: seq<Page>, updatedPages: seq<Page>): seq<Page> {
    seq(|existing|, k requires 0 <= k < |existing| => SyncedRecord(existing[k], updatedPages))
  }

  /** The manifest to write, or None when there is nothing to write: the existing records
      with their sync times refreshed, followed by the new records. */
  function Manifest(newPages: seq<Page>, updatedPages: seq<Page>, existing: seq<Page>): Option<seq<Page>> {
    if |newPages| == 0 && |updatedPages| == 0 then None
    else Some(SyncedRecords(existing, updatedPages) + newPages)
  }

  /** writeRemotePages, without the JSON encoding and the file write: nothing when both
      lists are empty; otherwise every updated page copies its sync time onto each
      existing record of its file, and the new pages are appended. `existing` is the
      manifest read back at this point. */
  method WriteRemotePages(newPages: seq<Page>, updatedPages: seq<Page>, existing: seq<Page>)
    returns (written: Option<seq<Page>>)
    ensures written == Manifest(newPages, updatedPages, existing)
    ensures written.None? <==> newPages == [] && updatedPages == []
    ensures written.Some? ==> |written.value| == |existing| + |newPages| && written.value[|existing|..] == newPages
    ensures written.Some? ==> forall k :: 0 <= k < |existing| ==>
      written.value[k] == existing[k].(syncDate := written.value[k].syncDate)
  {
    if |newPages| == 0 && |updatedPages| == 0 {
      return None;
    }
    var existingPages := existing;
    var i := 0;
    while i < |existingPages|
      invariant 0 <= i <= |existing| && |existingPages| == |existing|
      invariant forall k :: 0 <= k < i ==> existingPages[k] == SyncedRecord(existing[k], updatedPages)
      invariant forall k :: i <= k < |existing| ==> existingPages[k] == existing[k]
    {
      var ep := existingPages[i];
      ghost var before := existingPages;
      var j := 0;
      while j < |updatedPages|
        invariant 0 <= j <= |updatedPages|
        invariant existingPages == before[i := SyncedRecord(existing[i], updatedPages[..j])]
      {
        var up := updatedPages[j];
        assert updatedPages[..j + 1][..j] == updatedPages[..j];
        if ep.localFile == up.localFile {
          existingPages := existingPages[i := existingPages[i].(syncDate := up.syncDate)];
        }
        j := j + 1;
      }
      assert updatedPages[..j] == updatedPages;
      i := i + 1;
    }
    assert existingPages == SyncedRecords(existing, updatedPages);
    existingPages := existingPages + newPages;
    written := Some(existingPages);
  }

  // Merge properties

  /** With distinct file names among the updated pages, an existing record of an updated
      page's file takes exactly that page's sync time and keeps every other field. */
  lemma MergeTakesSyncDate(newPages: seq<Page>, updatedPages: seq<Page>, existing: seq<Page>, k: int, j: int)
    requires UniqueFiles(updatedPages)
    requires 0 <= k < |existing| && 0 <= j < |updatedPages| && updatedPages[j].localFile == existing[k].localFile
    ensures Manifest(newPages, updatedPages, existing) == Some(Manifest(newPages, updatedPages, existing).value)
    ensures Manifest(newPages, updatedPages, existing).value[k] == existing[k].(syncDate := updatedPages[j].syncDate)
  {
    var i := LastIndex(updatedPages, (u: Page) => u.localFile == existing[k].localFile);
    assert i >= j;
  }
}
