/**
 * `exports.build` (lambda/functions/index.js:146-232): list a folder page by
 * page, turn its sub-folders and objects into table rows accumulated in one
 * `fragments` array, close the table after the last page and upload it as the
 * folder's "index.partial".
 *
 * The rows of a page follow the listing order: the comparators of the two
 * sorts subtract base names and are left out (see the README).
 */
module IndexBuilder {
  import opened Strings
  import opened Paths
  import opened Config
  import opened Runtime
  import Highlighter

  const TableOpen := "<table><thead></thead><tbody>"
  const TableClose := "</tbody><tfoot></tfoot></table>"

  /** A common prefix gets a row unless its base name is excluded. */
  predicate ListsPrefix(prefix: string, cfg: Config) {
    Basename(prefix) !in cfg.excludes
  }

  /**
   * An object gets a row unless its base name is excluded, its key is a folder
   * marker ending in "/", or its base name is a highlight artifact's.
   */
  predicate ListsObject(o: ObjectSummary, cfg: Config) {
    var name := Basename(o.key);
    !(name in cfg.excludes || EndsWith(o.key, "/") || EndsWith(name, Highlighter.HighlightSuffix))
  }

  /** The common prefixes that get a row, in listing order. */
  function ListedPrefixes(ps: seq<string>, cfg: Config): (r: seq<string>)
    ensures forall p :: p in r <==> p in ps && ListsPrefix(p, cfg)
  {
    if ps == [] then []
    else
      var p := ps[|ps| - 1];
      assert ps == ps[..|ps| - 1] + [p];
      if ListsPrefix(p, cfg) then ListedPrefixes(ps[..|ps| - 1], cfg) + [p]
      else ListedPrefixes(ps[..|ps| - 1], cfg)
  }

  /** The objects that get a row, in listing order. */
  function ListedObjects(os: seq<ObjectSummary>, cfg: Config): (r: seq<ObjectSummary>)
    ensures forall o :: o in r <==> o in os && ListsObject(o, cfg)
  {
    if os == [] then []
    else
      var o := os[|os| - 1];
      assert os == os[..|os| - 1] + [o];
      if ListsObject(o, cfg) then ListedObjects(os[..|os| - 1], cfg) + [o]
      else ListedObjects(os[..|os| - 1], cfg)
  }

  /** The row of a sub-folder: a link to it. */
  function PrefixRow(prefix: string): string {
    var name := Basename(prefix);
    "<tr><td colspan=\"3\"><a class=\"prefix\" href=\"" + name + "/\">" + name + "/</a></td></tr>"
  }

  /** The view link of an object row: present exactly when the extension is highlightable. */
  function ViewLink(name: string, cfg: Config): (r: string)
    ensures r != "" <==> Extension(name) in cfg.languages
  {
    if Extension(name) in cfg.languages then "<a class=\"view\" href=\"" + name + "?view\">view</a>" else ""
  }

  /**
   * The nine fragments pushed for an object: its name, a download link, the
   * view link, its size and its modification time.
   */
  function ObjectRow(o: ObjectSummary, cfg: Config, libs: Libraries): (r: seq<string>)
    ensures |r| == 9
  {
    var name := Basename(o.key);
    [ "<tr>",
      "<td>",
      "<a class=\"key\" href=\"javascript:void(0);\">" + name + "</a>",
      "<a class=\"download\" href=\"" + name + "?download\">download</a>",
      ViewLink(name, cfg),
      "</td>",
      "<td class=\"size readable\" data-size=\"" + Decimal(o.size) + "\">" + libs.fileSize(o.size) + "</td>",
      "<td class=\"mtime readable\" data-mtime=\"" + libs.epochMillis(o.lastModified) + "\">"
        + libs.isoTime(o.lastModified) + "</td>",
      "</tr>" ]
  }

  function PrefixRows(ps: seq<string>): (r: seq<string>)
    ensures |r| == |ps|
  {
    if ps == [] then [] else PrefixRows(ps[..|ps| - 1]) + [PrefixRow(ps[|ps| - 1])]
  }

  function ObjectRows(os: seq<ObjectSummary>, cfg: Config, libs: Libraries): (r: seq<string>)
    ensures |r| == 9 * |os|
  {
    if os == [] then [] else ObjectRows(os[..|os| - 1], cfg, libs) + ObjectRow(os[|os| - 1], cfg, libs)
  }

  /** The fragments one page adds: its sub-folder rows, then its object rows. */
  function PageFragments(page: Page, cfg: Config, libs: Libraries): seq<string> {
    PrefixRows(ListedPrefixes(page.commonPrefixes, cfg))
      + ObjectRows(ListedObjects(page.contents, cfg), cfg, libs)
  }

  /** Page rendering as a value, so that the paging logic below does not depend on row contents. */
  function Render(cfg: Config, libs: Libraries): Page -> seq<string> {
    page => PageFragments(page, cfg, libs)
  }

  /** The fragments of several pages, in page order. */
  function PagesFragments(pages: seq<Page>, render: Page -> seq<string>): seq<string> {
    if pages == [] then [] else render(pages[0]) + PagesFragments(pages[1..], render)
  }

  /**
   * The folder's listing as the source walks it, one recursive call per page,
   * with the upload done once, after the last page. `responses` are the
   * listing responses still to come for `folder`.
   */
  function BuildFrom(folder: string, responses: seq<Result<Page>>, fragments: seq<string>,
                     render: Page -> seq<string>, cfg: Config, bucket: Bucket): Run
    decreases |responses|
  {
    if responses == [] then Run([], Fail(ListingExhausted(folder)))
    else
      match responses[0]
      case Err(e) => Run([], Fail(e))
      case Ok(page) =>
        var acc := fragments + render(page);
        if page.isTruncated then BuildFrom(folder, responses[1..], acc, render, cfg, bucket)
        else PutObject(bucket, folder + IndexName, Some(Concat(acc + [TableClose])), None, cfg)
  }

  /** The build of a folder: listing from its first page with the table opened. */
  function BuildSpec(folder: string, cfg: Config, bucket: Bucket, libs: Libraries): Run {
    var prefix := StripLeadingSlash(folder);
    BuildFrom(prefix, bucket.listing(prefix), [TableOpen], Render(cfg, libs), cfg, bucket)
  }

  /**
   * The same walk as the source has it: after a truncated page, the response
   * of the inner call's upload is handed to this call's upload step, which
   * uploads again with that response's (undefined) Body.
   */
  function BuildAsWrittenFrom(folder: string, responses: seq<Result<Page>>, fragments: seq<string>,
                              render: Page -> seq<string>, cfg: Config, bucket: Bucket): Run
    decreases |responses|
  {
    if responses == [] then Run([], Fail(ListingExhausted(folder)))
    else
      match responses[0]
      case Err(e) => Run([], Fail(e))
      case Ok(page) =>
        var acc := fragments + render(page);
        if page.isTruncated then
          Then(BuildAsWrittenFrom(folder, responses[1..], acc, render, cfg, bucket),
               PutObject(bucket, folder + IndexName, None, None, cfg))
        else PutObject(bucket, folder + IndexName, Some(Concat(acc + [TableClose])), None, cfg)
  }

  /** A listing that succeeds: `n` truncated pages, then a last one. */
  predicate CompleteListing(responses: seq<Result<Page>>, n: nat) {
    && n < |responses|
    && (forall i :: 0 <= i <= n ==> responses[i].Ok?)
    && (forall i :: 0 <= i < n ==> responses[i].value.isTruncated)
    && !responses[n].value.isTruncated
  }

  function ListedPages(responses: seq<Result<Page>>, n: nat): (r: seq<Page>)
    requires CompleteListing(responses, n)
    ensures |r| == n + 1
  {
    seq(n + 1, i requires 0 <= i <= n => responses[i].value)
  }

  lemma ListedPagesTail(responses: seq<Result<Page>>, n: nat)
    requires CompleteListing(responses, n) && n > 0
    ensures CompleteListing(responses[1..], n - 1)
    ensures ListedPages(responses, n) == [responses[0].value] + ListedPages(responses[1..], n - 1)
  {
    assert forall i :: 0 <= i <= n - 1 ==> responses[1..][i] == responses[i + 1];
  }

  /**
   * A complete listing is uploaded once, as the fragments so far followed by
   * every page's rows in page order and the closing tags.
   */
  lemma {:induction false} BuildFromComplete(folder: string, responses: seq<Result<Page>>, n: nat,
                                             fragments: seq<string>, render: Page -> seq<string>,
                                             cfg: Config, bucket: Bucket)
    requires CompleteListing(responses, n)
    ensures BuildFrom(folder, responses, fragments, render, cfg, bucket)
         == PutObject(bucket, folder + IndexName,
                      Some(Concat(fragments + PagesFragments(ListedPages(responses, n), render) + [TableClose])),
                      None, cfg)
    decreases n
  {
    var page := responses[0].value;
    var pages := ListedPages(responses, n);
    if n == 0 {
      assert pages == [page];
      assert PagesFragments(pages, render) == render(page) + PagesFragments([], render);
      assert PagesFragments(pages, render) == render(page);
      assert fragments + render(page) == fragments + PagesFragments(pages, render);
    } else {
      ListedPagesTail(responses, n);
      var acc := fragments + render(page);
      BuildFromComplete(folder, responses[1..], n - 1, acc, render, cfg, bucket);
      assert pages[1..] == ListedPages(responses[1..], n - 1);
      assert acc + PagesFragments(pages[1..], render) == fragments + PagesFragments(pages, render);
    }
  }

  /**
   * Building a folder whose listing completes after `n` truncated pages uploads
   * exactly one object: the folder without its leading slash plus
   * "index.partial", holding the opening tags, every page's rows in page order
   * and the closing tags, with the configured storage class.
   */
  lemma BuildWritesIndex(folder: string, n: nat, cfg: Config, bucket: Bucket, libs: Libraries)
    requires CompleteListing(bucket.listing(StripLeadingSlash(folder)), n)
    requires StripLeadingSlash(folder) + IndexName !in bucket.denied
    ensures var key := StripLeadingSlash(folder) + IndexName;
      var pages := ListedPages(bucket.listing(StripLeadingSlash(folder)), n);
      BuildSpec(folder, cfg, bucket, libs)
        == Run([Put(key, Some(TableOpen + Concat(PagesFragments(pages, Render(cfg, libs))) + TableClose),
                    cfg.storageClass)], Pass)
  {
    var prefix := StripLeadingSlash(folder);
    var rows := PagesFragments(ListedPages(bucket.listing(prefix), n), Render(cfg, libs));
    BuildFromComplete(prefix, bucket.listing(prefix), n, [TableOpen], Render(cfg, libs), cfg, bucket);
    ConcatAppend([TableOpen] + rows, [TableClose]);
    ConcatAppend([TableOpen], rows);
    assert Concat([TableClose]) == TableClose;
    assert Concat([TableOpen]) == TableOpen;
  }

  /** An empty folder's index is the opening tags directly followed by the closing ones. */
  lemma EmptyFolderIndex(folder: string, cfg: Config, bucket: Bucket, libs: Libraries)
    requires bucket.listing(StripLeadingSlash(folder)) == [Ok(Page([], [], false))]
    requires StripLeadingSlash(folder) + IndexName !in bucket.denied
    ensures BuildSpec(folder, cfg, bucket, libs).puts
         == [Put(StripLeadingSlash(folder) + IndexName,
                 Some(TableOpen + TableClose), cfg.storageClass)]
  {
    var responses := bucket.listing(StripLeadingSlash(folder));
    var empty := Page([], [], false);
    assert CompleteListing(responses, 0);
    BuildWritesIndex(folder, 0, cfg, bucket, libs);
    assert ListedPages(responses, 0) == [empty];
    assert PagesFragments([empty], Render(cfg, libs)) == [] by {
      assert PageFragments(empty, cfg, libs) == [];
    }
    assert TableOpen + Concat([]) == TableOpen;
  }

  /**
   * A failing listing call before the last page ends the build with that
   * error and no upload; so does a listing that stops on a truncated page.
   */
  lemma {:induction false} BuildFromFails(folder: string, responses: seq<Result<Page>>, k: nat,
                                          fragments: seq<string>, render: Page -> seq<string>,
                                          cfg: Config, bucket: Bucket)
    requires k <= |responses|
    requires forall i :: 0 <= i < k ==> responses[i].Ok? && responses[i].value.isTruncated
    requires k < |responses| ==> responses[k].Err?
    ensures BuildFrom(folder, responses, fragments, render, cfg, bucket)
         == Run([], Fail(if k < |responses| then responses[k].error else ListingExhausted(folder)))
    decreases k
  {
    if k > 0 {
      assert forall i :: 0 <= i < k - 1 ==> responses[1..][i] == responses[i + 1];
      BuildFromFails(folder, responses[1..], k - 1, fragments + render(responses[0].value), render, cfg, bucket);
    }
  }

  /**
   * Whatever the listing, a build uploads once when it succeeds and not at all
   * when it fails, and only to the folder's index key.
   */
  lemma {:induction false} BuildFromPuts(folder: string, responses: seq<Result<Page>>, fragments: seq<string>,
                                         render: Page -> seq<string>, cfg: Config, bucket: Bucket)
    ensures var r := BuildFrom(folder, responses, fragments, render, cfg, bucket);
      && |r.puts| == (if r.outcome.Pass? then 1 else 0)
      && forall p :: p in r.puts ==> p.key == folder + IndexName
    decreases |responses|
  {
    if responses != [] && responses[0].Ok? && responses[0].value.isTruncated {
      BuildFromPuts(folder, responses[1..], fragments + render(responses[0].value), render, cfg, bucket);
    }
  }

  /** The same for the build of a folder, whose index key is the folder without its leading slash. */
  lemma BuildSpecPuts(folder: string, cfg: Config, bucket: Bucket, libs: Libraries)
    ensures var r := BuildSpec(folder, cfg, bucket, libs);
      && |r.puts| == (if r.outcome.Pass? then 1 else 0)
      && forall p :: p in r.puts ==> p.key == StripLeadingSlash(folder) + IndexName
  {
    var prefix := StripLeadingSlash(folder);
    BuildFromPuts(prefix, bucket.listing(prefix), [TableOpen], Render(cfg, libs), cfg, bucket);
  }

  /**
   * As written, a listing that completes after `n` truncated pages uploads the
   * table once and then `n` more times without a body.
   */
  lemma {:induction false} BuildAsWrittenFromComplete(folder: string, responses: seq<Result<Page>>, n: nat,
                                                      fragments: seq<string>, render: Page -> seq<string>,
                                                      cfg: Config, bucket: Bucket)
    requires CompleteListing(responses, n)
    requires folder + IndexName !in bucket.denied
    ensures BuildAsWrittenFrom(folder, responses, fragments, render, cfg, bucket)
         == Run([Put(folder + IndexName,
                     Some(Concat(fragments + PagesFragments(ListedPages(responses, n), render) + [TableClose])),
                     cfg.storageClass)]
                + seq(n, _ => Put(folder + IndexName, None, cfg.storageClass)), Pass)
    decreases n
  {
    var page := responses[0].value;
    var pages := ListedPages(responses, n);
    if n == 0 {
      assert pages == [page];
      assert PagesFragments(pages, render) == render(page) + PagesFragments([], render);
      assert PagesFragments(pages, render) == render(page);
      assert fragments + render(page) == fragments + PagesFragments(pages, render);
    } else {
      ListedPagesTail(responses, n);
      var acc := fragments + render(page);
      BuildAsWrittenFromComplete(folder, responses[1..], n - 1, acc, render, cfg, bucket);
      assert pages[1..] == ListedPages(responses[1..], n - 1);
      assert acc + PagesFragments(pages[1..], render) == fragments + PagesFragments(pages, render);
      var bare := Put(folder + IndexName, None, cfg.storageClass);
      assert seq(n - 1, _ => bare) + [bare] == seq(n, _ => bare);
    }
  }

  /**
   * The discrepancy: as written, the last upload of a listing with more than
   * one page carries no body, while the corrected build uploads the full
   * table exactly once.
   */
  lemma MultiPageIndexLastUploadHasNoBody(folder: string, n: nat, cfg: Config, bucket: Bucket, libs: Libraries)
    requires n >= 1
    requires CompleteListing(bucket.listing(StripLeadingSlash(folder)), n)
    requires StripLeadingSlash(folder) + IndexName !in bucket.denied
    ensures var prefix := StripLeadingSlash(folder);
      var asWritten := BuildAsWrittenFrom(prefix, bucket.listing(prefix), [TableOpen], Render(cfg, libs), cfg, bucket);
      var corrected := BuildSpec(folder, cfg, bucket, libs);
      && |asWritten.puts| == n + 1
      && asWritten.puts[n].body == None
      && |corrected.puts| == 1
      && corrected.puts[0].body.Some?
  {
    var prefix := StripLeadingSlash(folder);
    BuildAsWrittenFromComplete(prefix, bucket.listing(prefix), n, [TableOpen], Render(cfg, libs), cfg, bucket);
    BuildWritesIndex(folder, n, cfg, bucket, libs);
  }

  /** One step of the walk: the response at `i` decides between failing, listing on and uploading. */
  lemma BuildFromStep(folder: string, responses: seq<Result<Page>>, i: nat, fragments: seq<string>,
                      render: Page -> seq<string>, cfg: Config, bucket: Bucket)
    requires i < |responses|
    ensures BuildFrom(folder, responses[i..], fragments, render, cfg, bucket)
         == if responses[i].Err? then Run([], Fail(responses[i].error))
            else if responses[i].value.isTruncated then
              BuildFrom(folder, responses[i + 1..], fragments + render(responses[i].value), render, cfg, bucket)
            else
              PutObject(bucket, folder + IndexName,
                        Some(Concat(fragments + render(responses[i].value) + [TableClose])), None, cfg)
  {
    assert responses[i..][0] == responses[i];
    assert responses[i..][1..] == responses[i + 1..];
  }

  lemma AppendAssociative<T>(a: seq<T>, b: seq<T>, c: seq<T>)
    ensures (a + b) + c == a + (b + c)
  {
  }

  /** One more common prefix adds its row exactly when it is listed. */
  lemma PrefixRowsStep(ps: seq<string>, j: nat, cfg: Config)
    requires j < |ps|
    ensures PrefixRows(ListedPrefixes(ps[..j + 1], cfg))
         == PrefixRows(ListedPrefixes(ps[..j], cfg)) + (if ListsPrefix(ps[j], cfg) then [PrefixRow(ps[j])] else [])
  {
    assert ps[..j + 1][..j] == ps[..j];
    var l := ListedPrefixes(ps[..j], cfg);
    if ListsPrefix(ps[j], cfg) {
      assert (l + [ps[j]])[..|l|] == l;
    }
  }

  /** One more object adds its nine fragments exactly when it is listed. */
  lemma ObjectRowsStep(os: seq<ObjectSummary>, j: nat, cfg: Config, libs: Libraries)
    requires j < |os|
    ensures ObjectRows(ListedObjects(os[..j + 1], cfg), cfg, libs)
         == ObjectRows(ListedObjects(os[..j], cfg), cfg, libs)
            + (if ListsObject(os[j], cfg) then ObjectRow(os[j], cfg, libs) else [])
  {
    assert os[..j + 1][..j] == os[..j];
    var l := ListedObjects(os[..j], cfg);
    if ListsObject(os[j], cfg) {
      assert (l + [os[j]])[..|l|] == l;
    }
  }

  /** The `commonPrefixes.forEach` loop: a row pushed for every sub-folder that is not excluded. */
  method PushPrefixRows(fragments: seq<string>, ps: seq<string>, cfg: Config) returns (r: seq<string>)
    ensures r == fragments + PrefixRows(ListedPrefixes(ps, cfg))
  {
    r := fragments;
    var j := 0;
    while j < |ps|
      invariant 0 <= j <= |ps|
      invariant r == fragments + PrefixRows(ListedPrefixes(ps[..j], cfg))
    {
      PushPrefixStep(fragments, ps, j, cfg);
      if ListsPrefix(ps[j], cfg) {
        r := r + [PrefixRow(ps[j])];
      }
      j := j + 1;
    }
    assert ps[..j] == ps;
  }

  /** One turn of the `commonPrefixes.forEach` loop, on the fragments pushed so far. */
  lemma PushPrefixStep(fragments: seq<string>, ps: seq<string>, j: nat, cfg: Config)
    requires j < |ps|
    ensures var before := fragments + PrefixRows(ListedPrefixes(ps[..j], cfg));
      var after := fragments + PrefixRows(ListedPrefixes(ps[..j + 1], cfg));
      && (ListsPrefix(ps[j], cfg) ==> after == before + [PrefixRow(ps[j])])
      && (!ListsPrefix(ps[j], cfg) ==> after == before)
  {
    var rows := PrefixRows(ListedPrefixes(ps[..j], cfg));
    PrefixRowsStep(ps, j, cfg);
    if ListsPrefix(ps[j], cfg) {
      AppendAssociative(fragments, rows, [PrefixRow(ps[j])]);
    } else {
      assert rows + [] == rows;
    }
  }

  /** One turn of the `contents.forEach` loop, on the fragments pushed so far. */
  lemma PushObjectStep(fragments: seq<string>, os: seq<ObjectSummary>, j: nat, cfg: Config, libs: Libraries)
    requires j < |os|
    ensures var before := fragments + ObjectRows(ListedObjects(os[..j], cfg), cfg, libs);
      var after := fragments + ObjectRows(ListedObjects(os[..j + 1], cfg), cfg, libs);
      && (ListsObject(os[j], cfg) ==> after == before + ObjectRow(os[j], cfg, libs))
      && (!ListsObject(os[j], cfg) ==> after == before)
  {
    var rows := ObjectRows(ListedObjects(os[..j], cfg), cfg, libs);
    ObjectRowsStep(os, j, cfg, libs);
    if ListsObject(os[j], cfg) {
      AppendAssociative(fragments, rows, ObjectRow(os[j], cfg, libs));
    } else {
      assert rows + [] == rows;
    }
  }

  /** The `contents.forEach` loop: the nine fragments of every object that gets a row. */
  method PushObjectRows(fragments: seq<string>, os: seq<ObjectSummary>, cfg: Config, libs: Libraries)
    returns (r: seq<string>)
    ensures r == fragments + ObjectRows(ListedObjects(os, cfg), cfg, libs)
  {
    r := fragments;
    var j := 0;
    while j < |os|
      invariant 0 <= j <= |os|
      invariant r == fragments + ObjectRows(ListedObjects(os[..j], cfg), cfg, libs)
    {
      PushObjectStep(fragments, os, j, cfg, libs);
      if ListsObject(os[j], cfg) {
        r := r + ObjectRow(os[j], cfg, libs);
      }
      j := j + 1;
    }
    assert os[..j] == os;
  }

  /**
   * The build loop: one page after another, each page's sub-folder rows and
   * then object rows pushed onto `fragments`, the table closed and uploaded
   * after the page that is not truncated.
   */
  method Build(folder: string, cfg: Config, bucket: Bucket, libs: Libraries) returns (run: Run)
    ensures run == BuildSpec(folder, cfg, bucket, libs)
  {
    var prefix := StripLeadingSlash(folder);
    var fragments := [TableOpen];
    var responses := bucket.listing(prefix);
    var i := 0;
    while i < |responses|
      invariant 0 <= i <= |responses|
      invariant BuildFrom(prefix, responses[i..], fragments, Render(cfg, libs), cfg, bucket)
             == BuildSpec(folder, cfg, bucket, libs)
    {
      BuildFromStep(prefix, responses, i, fragments, Render(cfg, libs), cfg, bucket);
      match responses[i] {
        case Err(e) =>
          run := Run([], Fail(e));
          return;
        case Ok(page) =>
          var start := fragments;
          fragments := PushPrefixRows(fragments, page.commonPrefixes, cfg);
          fragments := PushObjectRows(fragments, page.contents, cfg, libs);
          AppendAssociative(start, PrefixRows(ListedPrefixes(page.commonPrefixes, cfg)),
                            ObjectRows(ListedObjects(page.contents, cfg), cfg, libs));
          assert fragments == start + Render(cfg, libs)(page);
          if !page.isTruncated {
            fragments := fragments + [TableClose];
            run := PutObject(bucket, prefix + IndexName, Some(Concat(fragments)), None, cfg);
            return;
          }
      }
      i := i + 1;
    }
    run := Run([], Fail(ListingExhausted(prefix)));
  }
}
