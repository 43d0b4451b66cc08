/**
  `compileVibeScript`: parse the components and the pages of a source,
  delete the stale `.html` files of the output directory, then build every
  page in turn. A page's body is split into tokens, one per non-empty line;
  a token that names a component with a prompt, or that is not quoted, is
  resolved as a component (with one memo per page), a quoted token is sent
  to the generator as a prompt of its own, and the markup of the tokens,
  one per line, fills the body of a fixed HTML document that is written to
  `<page>.html`.

  The output directory is a map from file names to contents. A generation
  that fails ends the whole build, as the exception does in the source; the
  pages written before stay written.

  Line numbers in this module refer to `lib/compiler.js`.
*/
module Compiler {
  import opened Text
  import opened Cache
  import opened Parser
  import opened Resolver

  // ---------------------------------------------------------------------
  // Configuration and tokens

  const DefaultModel: string := "gpt-4.1-nano"

  /** `config.model || "gpt-4.1-nano"`: a missing or empty setting gives the
      default, so the model is never empty. */
  function ModelFor(configured: Option<string>): (model: string)
    ensures model != ""
    ensures configured.Some? && configured.value != "" ==> model == configured.value
  {
    if configured.Some? && configured.value != "" then configured.value else DefaultModel
  }

  /** What a token of a page stands for. */
  datatype Part = Reference(name: string) | Inline(text: string)

  /** `part.startsWith('"') && part.endsWith('"')`; a lone `"` is both. */
  predicate Quoted(part: string) {
    |part| > 0 && part[0] == '"' && part[|part| - 1] == '"'
  }

  /** `part.slice(1, -1)`: without its first and last character, and empty
      when there are fewer than two. */
  function Unquote(part: string): (text: string)
    ensures |part| >= 2 ==> part == [part[0]] + text + [part[|part| - 1]]
    ensures |part| < 2 ==> text == ""
  {
    if |part| < 2 then "" else part[1..|part| - 1]
  }

  /** Lines 149-161: a truthy component entry wins; otherwise a quoted token
      is inline text; anything else is a component reference. */
  function Classify(prompts: map<string, string>, part: string): Part {
    if Truthy(prompts, part) then Reference(part)
    else if Quoted(part) then Inline(Unquote(part))
    else Reference(part)
  }

  /** A quoted text is inline text of exactly that text: the parsed table
      never has a component name with a quote in it. */
  lemma QuotedIsInline(t: ComponentTable, text: string)
    requires WellFormed(t)
    ensures Classify(t.prompts, ['"'] + text + ['"']) == Inline(text)
  {
    var part := ['"'] + text + ['"'];
    assert part[0] == '"' && !IsWordChar(part[0]);
    assert !IsWord(part);
    assert part[1..|part| - 1] == text;
  }

  /** Every token that is not of the quoted form names a component. */
  lemma UnquotedIsReference(prompts: map<string, string>, part: string)
    requires !Quoted(part)
    ensures Classify(prompts, part) == Reference(part)
  {
  }

  /** The names of a parsed table are words, as resolution needs. */
  lemma ComponentsParsed(src: string)
    ensures Parsed(ComponentsOf(src))
  {
    ComponentsOfShape(src, "");
  }

  // ---------------------------------------------------------------------
  // One page

  /** The markup of the tokens built so far, with the memo and the cache. */
  datatype Built = Built(result: Result<seq<string>>, memo: map<string, string>, cache: CacheState)

  /** One token: a reference is resolved with the page's memo, inline text
      is fetched as a prompt and leaves the memo alone. */
  function BuildPart(fetch: Fetcher, t: ComponentTable, model: string, fuel: nat, part: string,
                     memo: map<string, string>, st: CacheState): Outcome
    requires Parsed(t)
  {
    match Classify(t.prompts, part)
    case Reference(name) => Resolve(fetch, t, model, fuel, name, memo, st)
    case Inline(text) =>
      var (r, st1) := fetch(st, text, model);
      Outcome(r, memo, st1)
  }

  /** The loop of lines 147-162 over `parts`, stopping at the first error. */
  function BuildParts(fetch: Fetcher, t: ComponentTable, model: string, fuel: nat, parts: seq<string>,
                      memo: map<string, string>, st: CacheState): Built
    requires Parsed(t)
    decreases |parts|
  {
    if parts == [] then Built(Ok([]), memo, st)
    else
      var b := BuildParts(fetch, t, model, fuel, parts[..|parts| - 1], memo, st);
      if b.result.Err? then b
      else
        var o := BuildPart(fetch, t, model, fuel, parts[|parts| - 1], b.memo, b.cache);
        if o.result.Err? then Built(Err(o.result.error), o.memo, o.cache)
        else Built(Ok(b.result.value + [o.result.value]), o.memo, o.cache)
  }

  /** One more token of `BuildParts`, spelled out. */
  lemma BuildPartsUnfold(fetch: Fetcher, t: ComponentTable, model: string, fuel: nat, parts: seq<string>, i: nat,
                         memo: map<string, string>, st: CacheState)
    requires Parsed(t) && i < |parts|
    ensures var b := BuildParts(fetch, t, model, fuel, parts[..i], memo, st);
            b.result.Ok? ==>
              var o := BuildPart(fetch, t, model, fuel, parts[i], b.memo, b.cache);
              BuildParts(fetch, t, model, fuel, parts[..i + 1], memo, st) ==
                if o.result.Err? then Built(Err(o.result.error), o.memo, o.cache)
                else Built(Ok(b.result.value + [o.result.value]), o.memo, o.cache)
  {
    assert parts[..i + 1][..i] == parts[..i];
    assert parts[..i + 1][i] == parts[i];
  }

  /** A failing token ends the loop: the later ones are not built. */
  lemma {:induction false} BuildPartsStopsAtError(fetch: Fetcher, t: ComponentTable, model: string, fuel: nat,
                                                  parts: seq<string>, j: nat, memo: map<string, string>, st: CacheState)
    requires Parsed(t) && j <= |parts|
    requires BuildParts(fetch, t, model, fuel, parts[..j], memo, st).result.Err?
    ensures BuildParts(fetch, t, model, fuel, parts, memo, st) == BuildParts(fetch, t, model, fuel, parts[..j], memo, st)
    decreases |parts| - j
  {
    if j < |parts| {
      assert parts[..j + 1][..j] == parts[..j];
      BuildPartsStopsAtError(fetch, t, model, fuel, parts, j + 1, memo, st);
    } else {
      assert parts[..j] == parts;
    }
  }

  /** A successful build gives one piece of markup per token, and the
      builds of the shorter prefixes succeed with the matching prefixes. */
  lemma {:induction false} BuildPartsPrefix(fetch: Fetcher, t: ComponentTable, model: string, fuel: nat,
                                            parts: seq<string>, k: nat, memo: map<string, string>, st: CacheState)
    requires Parsed(t) && k <= |parts|
    requires BuildParts(fetch, t, model, fuel, parts, memo, st).result.Ok?
    ensures |BuildParts(fetch, t, model, fuel, parts, memo, st).result.value| == |parts|
    ensures var p := BuildParts(fetch, t, model, fuel, parts[..k], memo, st);
            p.result.Ok? && p.result.value == BuildParts(fetch, t, model, fuel, parts, memo, st).result.value[..k]
    decreases |parts|
  {
    if parts != [] {
      var init := parts[..|parts| - 1];
      if k < |parts| {
        assert parts[..k] == init[..k];
        BuildPartsPrefix(fetch, t, model, fuel, init, k, memo, st);
      } else {
        assert parts[..k] == parts;
        BuildPartsPrefix(fetch, t, model, fuel, init, |init|, memo, st);
      }
    }
  }

  /** A component reference at position `i` that succeeds leaves its
      markup in the memo. */
  lemma BuildPartsRecords(fetch: Fetcher, t: ComponentTable, model: string, fuel: nat,
                          parts: seq<string>, i: nat, memo: map<string, string>, st: CacheState)
    requires Parsed(t) && i < |parts|
    requires Classify(t.prompts, parts[i]).Reference? && Truthy(t.prompts, parts[i])
    requires BuildParts(fetch, t, model, fuel, parts[..i + 1], memo, st).result.Ok?
    ensures var b := BuildParts(fetch, t, model, fuel, parts[..i + 1], memo, st);
            |b.result.value| == i + 1 && parts[i] in b.memo && b.memo[parts[i]] == b.result.value[i]
  {
    BuildPartsUnfold(fetch, t, model, fuel, parts, i, memo, st);
    var b := BuildParts(fetch, t, model, fuel, parts[..i], memo, st);
    BuildPartsPrefix(fetch, t, model, fuel, parts[..i + 1], i, memo, st);
    assert parts[..i + 1][..i] == parts[..i];
    ResolveRecords(fetch, t, model, fuel, parts[i], b.memo, b.cache);
  }

  /** A later token keeps every truthy memo entry. */
  lemma BuildPartsKeepsStep(fetch: Fetcher, t: ComponentTable, model: string, fuel: nat,
                            parts: seq<string>, k: nat, memo: map<string, string>, st: CacheState, name: string)
    requires Parsed(t) && OnlyAddsRequests(fetch) && k < |parts|
    requires BuildParts(fetch, t, model, fuel, parts[..k + 1], memo, st).result.Ok?
    requires Truthy(BuildParts(fetch, t, model, fuel, parts[..k], memo, st).memo, name)
    ensures var before := BuildParts(fetch, t, model, fuel, parts[..k], memo, st).memo;
            var after := BuildParts(fetch, t, model, fuel, parts[..k + 1], memo, st).memo;
            name in after && after[name] == before[name]
  {
    BuildPartsUnfold(fetch, t, model, fuel, parts, k, memo, st);
    var b := BuildParts(fetch, t, model, fuel, parts[..k], memo, st);
    BuildPartsPrefix(fetch, t, model, fuel, parts[..k + 1], k, memo, st);
    assert parts[..k + 1][..k] == parts[..k];
    if Classify(t.prompts, parts[k]).Reference? {
      ResolveKeeps(fetch, t, model, fuel, parts[k], b.memo, b.cache);
    }
  }

  /** Once a component's markup is in the memo at token `i`, it is still
      there, unchanged, at every later token. */
  lemma {:induction false} BuildPartsKeeps(fetch: Fetcher, t: ComponentTable, model: string, fuel: nat,
                                           parts: seq<string>, i: nat, k: nat, memo: map<string, string>,
                                           st: CacheState, name: string)
    requires Parsed(t) && OnlyAddsRequests(fetch) && i <= k <= |parts|
    requires BuildParts(fetch, t, model, fuel, parts, memo, st).result.Ok?
    requires Truthy(BuildParts(fetch, t, model, fuel, parts[..i], memo, st).memo, name)
    ensures var before := BuildParts(fetch, t, model, fuel, parts[..i], memo, st).memo;
            var after := BuildParts(fetch, t, model, fuel, parts[..k], memo, st).memo;
            name in after && after[name] == before[name]
    decreases k - i
  {
    if i < k {
      BuildPartsPrefix(fetch, t, model, fuel, parts, i + 1, memo, st);
      BuildPartsKeepsStep(fetch, t, model, fuel, parts, i, memo, st, name);
      BuildPartsKeeps(fetch, t, model, fuel, parts, i + 1, k, memo, st, name);
    }
  }

  /** A component whose markup is already in the memo at token `j` gets
      that markup there. */
  lemma BuildPartsHit(fetch: Fetcher, t: ComponentTable, model: string, fuel: nat,
                      parts: seq<string>, j: nat, memo: map<string, string>, st: CacheState)
    requires Parsed(t) && j < |parts| && Classify(t.prompts, parts[j]).Reference?
    requires BuildParts(fetch, t, model, fuel, parts, memo, st).result.Ok?
    requires Truthy(BuildParts(fetch, t, model, fuel, parts[..j], memo, st).memo, parts[j])
    ensures var html := BuildParts(fetch, t, model, fuel, parts, memo, st).result.value;
            j < |html| && html[j] == BuildParts(fetch, t, model, fuel, parts[..j], memo, st).memo[parts[j]]
  {
    var bj := BuildParts(fetch, t, model, fuel, parts[..j], memo, st);
    BuildPartsUnfold(fetch, t, model, fuel, parts, j, memo, st);
    BuildPartsPrefix(fetch, t, model, fuel, parts, j + 1, memo, st);
    BuildPartsPrefix(fetch, t, model, fuel, parts, j, memo, st);
    ResolveBaseCases(fetch, t, model, fuel, parts[j], bj.memo, bj.cache);
  }

  /** Within one page, a component named twice gives the same markup both
      times: the second resolution is a memo hit. This needs the first
      markup to be non-empty, since an empty memo entry is falsy and the
      component is then generated again. */
  lemma SameComponentSameMarkup(fetch: Fetcher, t: ComponentTable, model: string, fuel: nat,
                                parts: seq<string>, i: nat, j: nat, st: CacheState)
    requires Parsed(t) && OnlyAddsRequests(fetch) && i < j < |parts| && parts[i] == parts[j]
    requires Classify(t.prompts, parts[i]).Reference? && Truthy(t.prompts, parts[i])
    requires BuildParts(fetch, t, model, fuel, parts, map[], st).result.Ok?
    requires |BuildParts(fetch, t, model, fuel, parts, map[], st).result.value| == |parts|
    requires BuildParts(fetch, t, model, fuel, parts, map[], st).result.value[i] != ""
    ensures var html := BuildParts(fetch, t, model, fuel, parts, map[], st).result.value;
            html[j] == html[i]
  {
    var html := BuildParts(fetch, t, model, fuel, parts, map[], st).result.value;
    var name := parts[i];
    BuildPartsPrefix(fetch, t, model, fuel, parts, i + 1, map[], st);
    BuildPartsRecords(fetch, t, model, fuel, parts, i, map[], st);
    BuildPartsKeeps(fetch, t, model, fuel, parts, i + 1, j, map[], st, name);
    BuildPartsHit(fetch, t, model, fuel, parts, j, map[], st);
  }

  /** The document of lines 164-176, with the page name as its title and
      the markup of the tokens, one per line, as its body. */
  function Document(pageName: string, htmlParts: seq<string>): string {
    DocumentHead + pageName + DocumentMiddle + Join(htmlParts, "\n") + DocumentTail
  }

  const DocumentHead: string := "\n      <!DOCTYPE html>\n      <html>\n      <head>\n        <meta charset=\"UTF-8\">\n        <title>"
  const DocumentMiddle: string := "</title>\n        <script src=\"https://cdn.tailwindcss.com\"></script>\n      </head>\n      <body>\n        "
  const DocumentTail: string := "\n      </body>\n      </html>\n    "

  /** What one page writes, or why it stopped. */
  function PageHtml(fetch: Fetcher, t: ComponentTable, model: string, fuel: nat, page: Page, st: CacheState): (Result<string>, CacheState)
    requires Parsed(t)
  {
    var b := BuildParts(fetch, t, model, fuel, Tokens(page.body), map[], st);
    if b.result.Err? then (Err(b.result.error), b.cache)
    else (Ok(Document(page.name, b.result.value)), b.cache)
  }

  // ---------------------------------------------------------------------
  // The output directory

  /** `fileName.toLowerCase().endsWith(".html")`. Only ASCII letters fold to
      the letters of `.html`, so an ASCII comparison ignoring case agrees. */
  predicate IsHtmlName(name: string) {
    |name| >= 5 && StartsAtIgnoringCase(name, |name| - 5, ".html")
  }

  /** Lines 124-132: the directory without its `.html` files. */
  function WithoutHtml(files: map<string, string>): map<string, string> {
    map name | name in files && !IsHtmlName(name) :: files[name]
  }

  /** The file a page is written to. */
  function PageFile(page: Page): string {
    page.name + ".html"
  }

  /** A page's file name always counts as an `.html` name. */
  lemma PageFilesAreHtml()
    ensures forall page: Page :: IsHtmlName(PageFile(page))
  {
    forall page: Page ensures IsHtmlName(PageFile(page)) {
      var name := PageFile(page);
      assert forall k :: 0 <= k < 5 ==> name[|name| - 5 + k] == ".html"[k];
    }
  }

  /** Two pages share a file exactly when they share a name. */
  lemma PageFileOfName(p: Page, q: Page)
    ensures PageFile(p) == PageFile(q) <==> p.name == q.name
  {
    if PageFile(p) == PageFile(q) {
      assert p.name == PageFile(p)[..|PageFile(p)| - 5];
    }
  }

  /** How one page is built: from the page and the cache state to its
      document, or why it stopped, and the new cache state. */
  type PageBuilder = (Page, CacheState) -> (Result<string>, CacheState)

  /** Lines 135-176 as a page builder. */
  function PagesWith(fetch: Fetcher, t: ComponentTable, model: string, fuel: nat): PageBuilder
    requires Parsed(t)
  {
    (page: Page, st: CacheState) => PageHtml(fetch, t, model, fuel, page, st)
  }

  /** Every document a builder produces is titled with its page's name. */
  ghost predicate Titled(build: PageBuilder) {
    forall page: Page, st: CacheState :: build(page, st).0.Ok? ==>
      exists htmlParts :: build(page, st).0.value == Document(page.name, htmlParts)
  }

  lemma PagesTitled(fetch: Fetcher, t: ComponentTable, model: string, fuel: nat)
    requires Parsed(t)
    ensures Titled(PagesWith(fetch, t, model, fuel))
  {
    forall page: Page, st: CacheState | PagesWith(fetch, t, model, fuel)(page, st).0.Ok?
      ensures exists htmlParts :: PagesWith(fetch, t, model, fuel)(page, st).0.value == Document(page.name, htmlParts)
    {
      var b := BuildParts(fetch, t, model, fuel, Tokens(page.body), map[], st);
      assert PagesWith(fetch, t, model, fuel)(page, st).0.value == Document(page.name, b.result.value);
    }
  }

  /** The result of a build: how it ended, the files and the cache. */
  datatype Compiled = Compiled(result: Result<()>, files: map<string, string>, cache: CacheState)

  /** The loop of lines 134-180: each page in turn, written to its file,
      stopping at the first error. */
  function BuildPages(build: PageBuilder, pages: seq<Page>, files: map<string, string>, st: CacheState): Compiled
    decreases |pages|
  {
    if pages == [] then Compiled(Ok(()), files, st)
    else
      var c := BuildPages(build, pages[..|pages| - 1], files, st);
      if c.result.Err? then c
      else
        var page := pages[|pages| - 1];
        var (html, st1) := build(page, c.cache);
        if html.Err? then Compiled(Err(html.error), c.files, st1)
        else Compiled(Ok(()), c.files[PageFile(page) := html.value], st1)
  }

  /** A failing page ends the loop: the later pages are not built. */
  lemma {:induction false} BuildPagesStopsAtError(build: PageBuilder, pages: seq<Page>, j: nat,
                                                  files: map<string, string>, st: CacheState)
    requires j <= |pages|
    requires BuildPages(build, pages[..j], files, st).result.Err?
    ensures BuildPages(build, pages, files, st) == BuildPages(build, pages[..j], files, st)
    decreases |pages| - j
  {
    if j < |pages| {
      assert pages[..j + 1][..j] == pages[..j];
      BuildPagesStopsAtError(build, pages, j + 1, files, st);
    } else {
      assert pages[..j] == pages;
    }
  }

  /** `compileVibeScript(src, config)` against the output directory `files`
      and the cache `st`. */
  function Compile(env: Env, src: string, configured: Option<string>, fuel: nat,
                   files: map<string, string>, st: CacheState): Compiled
  {
    ComponentsParsed(src);
    BuildPages(PagesWith(FetchWith(env), ComponentsOf(src), ModelFor(configured), fuel), PagesOf(src), WithoutHtml(files), st)
  }

  /** What the pages loop leaves in the directory, whether it succeeds or
      not: a file that is no page's file is untouched, a page's file that
      is new holds a document titled with that page's name, and after a
      success every page has its file. */
  lemma {:induction false} BuildPagesFiles(build: PageBuilder, pages: seq<Page>, files: map<string, string>, st: CacheState)
    requires Titled(build)
    ensures var c := BuildPages(build, pages, files, st);
            forall name :: (forall p :: p in pages ==> name != PageFile(p)) ==>
              (name in c.files <==> name in files) && (name in files ==> c.files[name] == files[name])
    ensures var c := BuildPages(build, pages, files, st);
            forall p :: p in pages && PageFile(p) in c.files && PageFile(p) !in files ==>
              exists htmlParts :: c.files[PageFile(p)] == Document(p.name, htmlParts)
    ensures var c := BuildPages(build, pages, files, st);
            c.result.Ok? ==> forall p :: p in pages ==> PageFile(p) in c.files
    decreases |pages|
  {
    if pages != [] {
      var init := pages[..|pages| - 1];
      var page := pages[|pages| - 1];
      assert forall p :: p in pages <==> p in init || p == page;
      BuildPagesFiles(build, init, files, st);
      var c := BuildPages(build, init, files, st);
      forall p | p in pages && PageFile(p) in c.files && PageFile(p) !in files
        ensures exists parts :: c.files[PageFile(p)] == Document(p.name, parts)
      {
        if p !in init {
          assert exists q :: q in init && PageFile(q) == PageFile(p);
          var q :| q in init && PageFile(q) == PageFile(p);
          PageFileOfName(p, q);
          var parts :| c.files[PageFile(q)] == Document(q.name, parts);
          assert c.files[PageFile(p)] == Document(p.name, parts);
        }
      }
      if c.result.Ok? && build(page, c.cache).0.Ok? {
        var html := build(page, c.cache).0.value;
        var htmlParts :| html == Document(page.name, htmlParts);
        var out := c.files[PageFile(page) := html];
        assert BuildPages(build, pages, files, st).files == out;
        forall p | p in pages && PageFile(p) in out && PageFile(p) !in files
          ensures exists parts :: out[PageFile(p)] == Document(p.name, parts)
        {
          if PageFile(p) == PageFile(page) {
            PageFileOfName(p, page);
            assert out[PageFile(p)] == Document(p.name, htmlParts);
          } else {
            var parts :| c.files[PageFile(p)] == Document(p.name, parts);
            assert out[PageFile(p)] == Document(p.name, parts);
          }
        }
      }
    }
  }

  /** Two pages with one name write one file, and the later page's document
      replaces the earlier one: once page `j` is written, no page before
      `k` changes its file unless it has the same name. */
  lemma {:induction false} LastPageWins(build: PageBuilder, pages: seq<Page>, j: nat, k: nat,
                                        files: map<string, string>, st: CacheState)
    requires j < k <= |pages|
    requires BuildPages(build, pages[..k], files, st).result.Ok?
    requires forall i :: j < i < k ==> pages[i].name != pages[j].name
    ensures var written := BuildPages(build, pages[..j + 1], files, st).files;
            var final := BuildPages(build, pages[..k], files, st).files;
            PageFile(pages[j]) in written && PageFile(pages[j]) in final
            && final[PageFile(pages[j])] == written[PageFile(pages[j])]
    decreases k
  {
    assert pages[..k][..k - 1] == pages[..k - 1];
    if k == j + 1 {
      assert pages[..k][k - 1] == pages[j];
    } else {
      LastPageWins(build, pages, j, k - 1, files, st);
      PageFileOfName(pages[k - 1], pages[j]);
      assert pages[..k][k - 1] == pages[k - 1];
    }
  }

  /** After a successful build the `.html` files of the directory are
      exactly the pages' files, each a document titled with its page's
      name, and every other file is as it was. */
  lemma CompiledFiles(env: Env, src: string, configured: Option<string>, fuel: nat,
                      files: map<string, string>, st: CacheState)
    requires Compile(env, src, configured, fuel, files, st).result.Ok?
    ensures var out := Compile(env, src, configured, fuel, files, st).files;
            forall name :: !IsHtmlName(name) ==> (name in out <==> name in files) && (name in out ==> out[name] == files[name])
    ensures var out := Compile(env, src, configured, fuel, files, st).files;
            forall name :: IsHtmlName(name) ==> (name in out <==> exists p :: p in PagesOf(src) && name == PageFile(p))
    ensures var out := Compile(env, src, configured, fuel, files, st).files;
            forall p :: p in PagesOf(src) ==> PageFile(p) in out && exists htmlParts :: out[PageFile(p)] == Document(p.name, htmlParts)
  {
    ComponentsParsed(src);
    var build := PagesWith(FetchWith(env), ComponentsOf(src), ModelFor(configured), fuel);
    PagesTitled(FetchWith(env), ComponentsOf(src), ModelFor(configured), fuel);
    PageFilesAreHtml();
    BuildPagesFiles(build, PagesOf(src), WithoutHtml(files), st);
  }

  /** The output directory `dist`. */
  class OutputDir {
    var files: map<string, string>

    constructor (files: map<string, string>)
      ensures this.files == files
    {
      this.files := files;
    }

    /** Lines 124-132: unlink every file whose name ends in `.html`,
        ignoring case. */
    method RemoveHtml()
      modifies this
      ensures files == WithoutHtml(old(files))
    {
      var names := files.Keys;
      while names != {}
        invariant names <= old(files).Keys
        invariant files == map name | name in old(files) && (name in names || !IsHtmlName(name)) :: old(files)[name]
        decreases names
      {
        var name :| name in names;
        if IsHtmlName(name) {
          files := files - {name};
        }
        names := names - {name};
      }
    }

    /** `fs.writeFileSync(path.join(distDir, name), content)`. */
    method Write(name: string, content: string)
      modifies this
      ensures files == old(files)[name := content]
    {
      files := files[name := content];
    }
  }

  /** Lines 148-161 for one token. */
  method BuildToken(part: string, t: ComponentTable, model: string, memo: Memo, cache: GenerationCache, fuel: nat)
    returns (r: Result<string>)
    requires Parsed(t)
    modifies memo, cache
    ensures Outcome(r, memo.entries, cache.State()) ==
            BuildPart(FetchWith(cache.env), t, model, fuel, part, old(memo.entries), old(cache.State()))
  {
    if part in t.prompts && t.prompts[part] != "" {
      r := ResolveComponent(part, t, model, memo, cache, fuel);
    } else if |part| > 0 && part[0] == '"' && part[|part| - 1] == '"' {
      var text := if |part| < 2 then "" else part[1..|part| - 1];
      r := cache.GetComponentCode(text, model);
    } else {
      r := ResolveComponent(part, t, model, memo, cache, fuel);
    }
  }

  /** Lines 145-162: every token in turn, with one memo, stopping at the
      first error. */
  method BuildTokens(parts: seq<string>, t: ComponentTable, model: string, memo: Memo, cache: GenerationCache, fuel: nat)
    returns (r: Result<seq<string>>)
    requires Parsed(t)
    modifies memo, cache
    ensures Built(r, memo.entries, cache.State()) ==
            BuildParts(FetchWith(cache.env), t, model, fuel, parts, old(memo.entries), old(cache.State()))
  {
    ghost var memo0 := memo.entries;
    ghost var st0 := cache.State();
    var htmlParts: seq<string> := [];
    var i := 0;
    assert parts[..0] == [];
    while i < |parts|
      invariant i <= |parts|
      invariant BuildParts(FetchWith(cache.env), t, model, fuel, parts[..i], memo0, st0) ==
                Built(Ok(htmlParts), memo.entries, cache.State())
    {
      BuildPartsUnfold(FetchWith(cache.env), t, model, fuel, parts, i, memo0, st0);
      var html := BuildToken(parts[i], t, model, memo, cache, fuel);
      if html.Err? {
        BuildPartsStopsAtError(FetchWith(cache.env), t, model, fuel, parts, i + 1, memo0, st0);
        return Err(html.error);
      }
      htmlParts := htmlParts + [html.value];
      i := i + 1;
    }
    assert parts[..i] == parts;
    r := Ok(htmlParts);
  }

  /** Lines 135-176 for one page: the tokens with a fresh memo, then the
      document. */
  method BuildPage(page: Page, t: ComponentTable, model: string, cache: GenerationCache, fuel: nat)
    returns (r: Result<string>)
    requires Parsed(t)
    modifies cache
    ensures (r, cache.State()) == PageHtml(FetchWith(cache.env), t, model, fuel, page, old(cache.State()))
  {
    var parts := Tokens(page.body);
    var memo := new Memo();
    var htmlParts := BuildTokens(parts, t, model, memo, cache, fuel);
    if htmlParts.Err? {
      return Err(htmlParts.error);
    }
    r := Ok(Document(page.name, htmlParts.value));
  }

  /** Lines 134-180: build and write every page in turn. */
  method WritePages(pages: seq<Page>, t: ComponentTable, model: string, cache: GenerationCache, out: OutputDir, fuel: nat)
    returns (r: Result<()>)
    requires Parsed(t)
    modifies cache, out
    ensures Compiled(r, out.files, cache.State()) ==
            BuildPages(PagesWith(FetchWith(cache.env), t, model, fuel), pages, old(out.files), old(cache.State()))
  {
    ghost var files0 := out.files;
    ghost var st0 := cache.State();
    var i := 0;
    assert pages[..0] == [];
    while i < |pages|
      invariant i <= |pages|
      invariant BuildPages(PagesWith(FetchWith(cache.env), t, model, fuel), pages[..i], files0, st0) ==
                Compiled(Ok(()), out.files, cache.State())
    {
      assert pages[..i + 1][..i] == pages[..i];
      assert pages[..i + 1][i] == pages[i];
      var html := BuildPage(pages[i], t, model, cache, fuel);
      if html.Err? {
        BuildPagesStopsAtError(PagesWith(FetchWith(cache.env), t, model, fuel), pages, i + 1, files0, st0);
        return Err(html.error);
      }
      out.Write(PageFile(pages[i]), html.value);
      i := i + 1;
    }
    assert pages[..i] == pages;
    r := Ok(());
  }

  /** `compileVibeScript(src, config)`: parse, clear the stale pages, build
      and write every page. */
  method CompileVibeScript(src: string, configured: Option<string>, cache: GenerationCache, out: OutputDir, fuel: nat)
    returns (r: Result<()>)
    modifies cache, out
    ensures Compiled(r, out.files, cache.State()) ==
            Compile(cache.env, src, configured, fuel, old(out.files), old(cache.State()))
  {
    var model := ModelFor(configured);
    var components := ParseComponents(src);
    var pages := ParsePages(src);
    ComponentsParsed(src);
    out.RemoveHtml();
    r := WritePages(pages, components, model, cache, out, fuel);
  }
}
