# VibeScript compiler and live-reload watcher, modelled in Dafny

VibeScript is a small language for describing a website. Its source declares
two kinds of item:

- components, as `component Name: "prompt"`;
- pages, as `page Name:` followed by one token per line.

The compiler (`lib/compiler.js`) builds the site in these steps:

1. It parses the components and the pages of the source.
2. It deletes the stale `.html` files of the output directory.
3. It builds every page in turn. Each token becomes markup:
   - a component is expanded recursively, substituting the components its generated artifact names;
   - a quoted text is sent to the generator as a prompt of its own.
4. The generator's artifacts are cleaned and kept in a cache keyed by the hash of prompt and model.
5. The markup fills a fixed HTML document, written to `<page>.html`.

The watcher (`lib/watcher.js`) runs a build and then injects a live-reload script before the first `</body>` of each `.html` file. It tells the connected browsers what is happening by broadcasting `building`, `done` and, on a rebuild, `reload`.

The model has seven modules:

| file | module | models |
|---|---|---|
| `text.dfy` | `Text` | the JavaScript string built-ins the code relies on: `\s`, `\w`, `includes`/`indexOf`, `trim`, `split`/`join`, and the `$` expansion of a `replace` replacement string |
| `parser.dfy` | `Parser` | the two regular-expression scans and the line-token pipeline, with `Object.keys` order for the component table |
| `cleanup.dfy` | `Cleanup` | the tag and code-fence stripping and the trim applied to generated code |
| `cache.dfy` | `Cache` | `getComponentCode` and the generation cache, as a class over a map |
| `resolver.dfy` | `Resolver` | `resolveComponent` with its per-page memo |
| `compiler.dfy` | `Compiler` | `compileVibeScript`: token classification, the document, and the output directory as a class over a map |
| `watcher.dfy` | `Watcher` | the reload script, its injection, `broadcast` over the connected clients, and the signal order of a build and of a rebuild |

Each stateful loop of the source is an imperative method. The loops are:

- the `exec` scans;
- the cache lookup;
- the memo writes;
- the token loop;
- the directory clean-up and page writes;
- the injection loop;
- `broadcast`.

Each method's `ensures` ties its results and its new state to a specification function. The lemmas state the source's promises about those functions.

## Model

| member | source | states |
|---|---|---|
| Text.FindFrom | lib/watcher.js:69 | `indexOf`: a returned index is an occurrence at or after the start and no occurrence comes before it; `None` means no occurrence at all |
| Text.ContainsFind | lib/compiler.js:82 | `includes` holds exactly when the pattern occurs somewhere in the string |
| Text.Trim | lib/compiler.js:57 | `trim` has no white space at either end and is the input less a white-space prefix and suffix |
| Text.TrimOf | lib/compiler.js:57 | trimming white space, a trimmed text and white space gives back that text |
| Text.TrimIdempotent | lib/compiler.js:139-141 | trimming a trimmed string changes nothing |
| Text.TrimSplit | lib/compiler.js:57 | every string is white space, its trim, then white space |
| Text.Split | lib/compiler.js:140 | `split("\n")` gives at least one piece and no piece contains the separator |
| Text.JoinSplit | lib/compiler.js:140 | joining the pieces of a split with the separator gives the string back |
| Text.ExpandReplacement | lib/watcher.js:69 | a replacement string without `$` is inserted exactly as written |
| Parser.ComponentAt | lib/compiler.js:101 | a component match at `i` lies within the text, has a `\w+` name and a prompt without a quote |
| Parser.ComponentAtIsDeclaration | lib/compiler.js:101 | every match is `component`, white space, the name, `:`, white space and the quoted prompt, found exactly at `i` and ending at the closing quote |
| Parser.DeclarationIsComponentAt | lib/compiler.js:101 | conversely, every such declaration text at `i` is the match found there |
| Parser.ExecComponent | lib/compiler.js:105 | `exec` returns the leftmost match at or after `lastIndex`, and none means no match starts anywhere after it |
| Parser.ComponentMatches | lib/compiler.js:105 | the matches of the scan are real matches, in source order, not overlapping |
| Parser.ComponentScanMissesNothing | lib/compiler.js:105 | no match starts before the first match found, between two consecutive ones or after the last |
| Parser.InsertKey | lib/compiler.js:107 | a new property name is added exactly once; a name that is not an array index goes last |
| Parser.InsertKeyOrdered | lib/compiler.js:107 | insertion keeps `Object.keys` order: array indices first, ascending |
| Parser.InsertKeyDistinct | lib/compiler.js:107 | insertion of a new name keeps the names distinct |
| Parser.TableOfLastWins | lib/compiler.js:105-108 | a name is in the table exactly when some match declares it, and its prompt is that of its last declaration |
| Parser.TableOfWellFormed | lib/compiler.js:105-108 | the table's keys are its names, distinct, in key order, each a `\w+` word with a quote-free prompt |
| Parser.ComponentsOfShape | lib/compiler.js:101-108 | the component table of a source is well formed and last-declaration-wins |
| Parser.ParseComponents | lib/compiler.js:101-108 | the `exec` loop with its `components[name] = prompt` updates builds exactly the table of all matches |
| Parser.PageAt | lib/compiler.js:111 | a page match has a `\w+` name and ends at the end of the text or where `page` starts |
| Parser.PageAtIsDeclaration | lib/compiler.js:111 | every page match is `page`, white space, the name, `:` and a body in which no `page` occurs |
| Parser.DeclarationIsPageAt | lib/compiler.js:111 | conversely, such a declaration text followed by `page` or the end is the match found there |
| Parser.ExecPage | lib/compiler.js:113 | `exec` returns the leftmost page match at or after `lastIndex` |
| Parser.PageMatches | lib/compiler.js:113 | the page matches are real matches, in source order, not overlapping |
| Parser.AsPages | lib/compiler.js:114-116 | one page record per match |
| Parser.ParsePages | lib/compiler.js:111-117 | the `exec` loop with its `pages.push` builds exactly the pages of all matches, in order |
| Parser.NonEmpty | lib/compiler.js:142 | `filter(Boolean)` keeps only non-empty strings, each from the input, and keeps every non-empty string of the input |
| Parser.NonEmptyExactly | lib/compiler.js:142 | the kept strings are the input's non-empty strings, each as often as in the input, in the input's order |
| Parser.Tokens | lib/compiler.js:138-142 | no token is empty, contains a line break or has white space at either end |
| Parser.TokensAreTrimmedLines | lib/compiler.js:138-142 | the tokens are the body's lines, trimmed, without the empty ones, in order; trimming the whole body first changes nothing |
| Parser.TrimmedLinesSpacePrefix | lib/compiler.js:139 | white space before a body adds no token |
| Parser.TrimmedLinesSpaceSuffix | lib/compiler.js:139 | white space after a body adds no token |
| Cleanup.MatchEnd | lib/compiler.js:50-54 | a match of a clean-up pattern consumes at least one character of the text |
| Cleanup.StripKeepsChars | lib/compiler.js:50-54 | a global `replace(re, '')` never lengthens the text nor adds a character |
| Cleanup.StripNoMatch | lib/compiler.js:50-54 | where the pattern matches nowhere the text is unchanged |
| Cleanup.TagStartsWithLt | lib/compiler.js:50 | the tag pattern only matches where a `<` is |
| Cleanup.FenceNeedsBacktick | lib/compiler.js:53-54 | the fence patterns never match where no backtick follows |
| Cleanup.CleanAsWritten | lib/compiler.js:50-57 | the clean-up as written gives a trimmed artifact |
| Cleanup.Clean | lib/compiler.js:50-57 | the corrected clean-up gives a trimmed artifact |
| Cleanup.CleanKeepsChars | lib/compiler.js:50-57 | the clean-up only deletes: every character of the result is in the raw answer |
| Cleanup.CleanPlain | lib/compiler.js:50-57 | an answer with no `<` and no backtick is only trimmed, by either clean-up |
| Cleanup.HeaderTagMatchedAsWritten | lib/compiler.js:50 | an opening `<header …>` tag is matched by the pattern as written and not by the corrected one |
| Cleanup.HeaderLosesOpeningTag | lib/compiler.js:50 | the pattern as written deletes `<header>` completely |
| Cleanup.HeaderKeepsOpeningTag | lib/compiler.js:50 | the corrected pattern keeps `<header>` |
| Cleanup.FixedAgreesOnDocumentTags | lib/compiler.js:50 | wherever `<html`, `<head` or `<body` is followed by `>` or white space, both patterns make the same match |
| Cache.FetchContract | lib/compiler.js:25-62 | a truthy entry under `hash(prompt + model)` is returned with nothing changed; otherwise one request goes to the generator, a success is cleaned, stored under the key and returned, a failure leaves the entries alone, and no other key changes |
| Cache.FetchOnlyAddsRequests | lib/compiler.js:25-62 | a lookup never forgets a request the generator received |
| Cache.FetchMissCleans | lib/compiler.js:46-59 | a generated artifact is trimmed and holds only characters of the generator's answer |
| Cache.SecondFetchHits | lib/compiler.js:27-29 | asking again for a non-empty artifact is a hit: same artifact, nothing changes |
| Cache.EmptyArtifactRegenerates | lib/compiler.js:27 | a stored empty artifact is falsy, so asking again sends the generator another request |
| Cache.GenerationCache.constructor | lib/compiler.js:5-14 | the cache starts from any loaded map, with no request sent |
| Cache.GenerationCache.GetComponentCode | lib/compiler.js:25-62 | the method returns and stores what the lookup function describes |
| Resolver.ReplaceWithoutOccurrence | lib/compiler.js:88-89 | where the name never occurs as a whole word, substitution changes nothing |
| Resolver.ReplaceBySelf | lib/compiler.js:88-89 | substituting a word by itself changes nothing |
| Resolver.ReplaceAgreesWithoutDollar | lib/compiler.js:89 | for markup without `$`, the replace as written and the literal substitution agree |
| Resolver.DollarQuoteMangled | lib/compiler.js:89 | with markup `'$'` the replace as written inserts `'`, the literal substitution `'$'` |
| Resolver.Candidates | lib/compiler.js:81-83 | the candidates are table keys, no more of them than keys |
| Resolver.CandidatesAre | lib/compiler.js:81-83 | a name is a candidate exactly when it is another key that occurs in the artifact, and candidates keep key order |
| Resolver.ResolveBaseCases | lib/compiler.js:71-76 | a truthy memo entry is returned as is; a name without a truthy prompt gives `""` with memo and cache unchanged |
| Resolver.ResolveRecords | lib/compiler.js:92-93 | after a successful resolution of a known or memoised name, the memo holds the returned markup |
| Resolver.ResolveWithoutCandidates | lib/compiler.js:78-93 | an artifact naming no other component is returned and memoised unchanged |
| Resolver.ResolveKeeps | lib/compiler.js:70-94 | resolution never changes a truthy memo entry, never drops a memo key and only adds requests |
| Resolver.SubstituteKeeps | lib/compiler.js:85-90 | the candidate loop keeps memo entries and requests the same way |
| Resolver.SubstituteStopsAtError | lib/compiler.js:85-90 | a candidate that fails ends the loop; later candidates are not resolved |
| Resolver.ResolveMoreFuel | lib/compiler.js:70-94 | a resolution the depth bound lets through is the same with one more unit of depth |
| Resolver.ResolveFuelMonotone | lib/compiler.js:70-94 | a resolution the depth bound lets through is the same under any larger bound |
| Resolver.SubstituteMoreFuel | lib/compiler.js:85-90 | a candidate loop the depth bound lets through is the same with one more unit of depth |
| Resolver.CycleNeverResolves | lib/compiler.js:70-94 | two components whose artifacts name each other never resolve, however large the bound |
| Resolver.Memo.constructor | lib/compiler.js:144 | each page starts with an empty memo |
| Resolver.ResolveComponent | lib/compiler.js:70-94 | the recursive method returns, memoises and caches what the resolution function describes |
| Resolver.SubstituteCandidates | lib/compiler.js:85-90 | the loop over candidates resolves and substitutes as the loop function describes |
| Compiler.ModelFor | lib/compiler.js:97 | the model is the configured one when it is non-empty, and never empty |
| Compiler.Unquote | lib/compiler.js:154 | `slice(1, -1)` drops exactly the first and last character, and is empty for shorter tokens |
| Compiler.QuotedIsInline | lib/compiler.js:149-157 | a quoted token is inline text of what is between the quotes, since no component name contains a quote |
| Compiler.UnquotedIsReference | lib/compiler.js:158-161 | an unquoted token is resolved as a component |
| Compiler.BuildPartsStopsAtError | lib/compiler.js:147-162 | a token that fails ends the page; later tokens are not built |
| Compiler.BuildPartsPrefix | lib/compiler.js:145-162 | a page gives one markup per token, in token order |
| Compiler.BuildPartsRecords | lib/compiler.js:151 | after a component token the page's memo holds its markup |
| Compiler.BuildPartsKeeps | lib/compiler.js:144-162 | a truthy memo entry stays as it is for the rest of the page |
| Compiler.SameComponentSameMarkup | lib/compiler.js:144-162 | within a page a component named twice gives the same markup both times, when that markup is non-empty |
| Compiler.PageFilesAreHtml | lib/compiler.js:126 | every page's file name counts as an `.html` name |
| Compiler.PageFileOfName | lib/compiler.js:178 | two pages write the same file exactly when they have the same name |
| Compiler.PagesTitled | lib/compiler.js:164-176 | every document is the fixed template titled with its page's name |
| Compiler.BuildPagesStopsAtError | lib/compiler.js:134-180 | a page that fails ends the build; later pages are not built |
| Compiler.BuildPagesFiles | lib/compiler.js:134-180 | no file but a page's file changes, a new page file holds that page's document, and after success every page has its file |
| Compiler.LastPageWins | lib/compiler.js:177-178 | a page's file keeps that page's document unless a later page of the same name overwrites it |
| Compiler.CompiledFiles | lib/compiler.js:122-180 | after a build the `.html` names are exactly the pages' files, each titled with its page's name, and every other file is untouched |
| Compiler.OutputDir.constructor | lib/compiler.js:122-123 | the output directory starts with whatever files it holds |
| Compiler.OutputDir.RemoveHtml | lib/compiler.js:124-132 | every file whose lower-cased name ends in `.html` is deleted, and only those |
| Compiler.OutputDir.Write | lib/compiler.js:178 | writing sets one file and leaves every other file alone |
| Compiler.BuildToken | lib/compiler.js:149-161 | one token is classified and built as the token function describes |
| Compiler.BuildTokens | lib/compiler.js:147-162 | the token loop pushes the markup of every token as the page function describes |
| Compiler.BuildPage | lib/compiler.js:135-176 | one page's document is built with a fresh memo |
| Compiler.WritePages | lib/compiler.js:134-180 | the pages loop writes the files the build function describes |
| Compiler.CompileVibeScript | lib/compiler.js:96-181 | the whole compilation leaves the files and the cache the compile function describes |
| Watcher.LiveReloadScriptNoDollar | lib/watcher.js:33-63 | the reload script contains no `$`, so `replace` inserts it literally |
| Watcher.LiveReloadScriptNamesOverlay | lib/watcher.js:42 | the reload script contains `vibe-overlay` |
| Watcher.InjectBeforeFirstClosingBody | lib/watcher.js:68-69 | a page without the marker gets the script immediately before its first `</body>` and is otherwise unchanged |
| Watcher.InjectUnchanged | lib/watcher.js:68-69 | a page is left unchanged exactly when it names the marker or has no `</body>` |
| Watcher.InjectMarks | lib/watcher.js:68-69 | after injection a page with a `</body>` names the marker |
| Watcher.InjectIdempotent | lib/watcher.js:68-69 | injecting twice gives the same page as injecting once |
| Watcher.InjectAllIdempotent | lib/watcher.js:65-73 | injecting into the whole directory twice changes nothing more |
| Watcher.DocumentClosesBody | lib/compiler.js:164-176 | every compiled document has a `</body>` for the script to go before |
| Watcher.PageFileEndsWithHtml | lib/watcher.js:66 | every page's file passes the case-sensitive `.html` filter |
| Watcher.InjectedPagesNameOverlay | lib/watcher.js:77-79 | after a successful build and injection every page's file exists and names the overlay |
| Watcher.InjectInto | lib/watcher.js:65-73 | the directory loop rewrites each `.html` file as the injection describes and leaves every other file alone |
| Watcher.InjectLiveReload | lib/watcher.js:32-74 | `injectLiveReload` is that loop with the reload script |
| Watcher.SendToAll | lib/watcher.js:23-29 | a broadcast keeps the client set: one client after per client before |
| Watcher.SendInTurn | lib/watcher.js:23-29 | two broadcasts in turn deliver the messages of both, in order |
| Watcher.SocketServer.constructor | lib/watcher.js:22 | the server starts with the clients it is given |
| Watcher.SocketServer.Broadcast | lib/watcher.js:23-29 | every open client receives the message; closed clients receive nothing |
| Watcher.Signals | lib/watcher.js:77-89 | a round opens with `building`, which never comes again; `done` is sent exactly when the build succeeds and `reload` exactly on a successful rebuild, after `done` |
| Watcher.CompileAndInject | lib/watcher.js:78-79 | the directory after a build and injection is the compiled one with the script injected into its `.html` files |
| Watcher.Announce | lib/watcher.js:80-89 | the clients receive the signals that follow `building` |
| Watcher.BuildRound | lib/watcher.js:77-89 | a build round sends its signals in order and leaves the compiled, injected directory |

## Left out

- The generator (lib/compiler.js:20-23, 33-46) is a function parameter that may fail. A failing generator (a network error, a missing `message.content`) ends the build with an error, as the exception does.
- The SHA-256 hash (lib/compiler.js:16-18) is an arbitrary function on strings. It is not assumed to be injective.
- Reading the cache file at start-up (lib/compiler.js:4-14) and rewriting it after every generation (lib/compiler.js:60) are file I/O and JSON. The cache starts from any map, and the rewrite is not modelled.
- Console output throughout is left out.
- The source file is a string parameter: reading it (lib/compiler.js:98) is I/O.
- The output directory is a map from file name to content. Directory creation, subdirectories, unlink failures and the `catch` that swallows them (lib/compiler.js:123, 130-132, 177) are not modelled.
- The express server, the WebSocket server's own networking and chokidar (lib/watcher.js:1-21, 83) are left out. A client is a value with a ready state and the messages it received.
- The browser side of the reload script (lib/watcher.js:33-63) is not modelled. The script is a constant string.
- A build round is one sequential run. Overlapping rebuilds from rapid change events, and clients connecting during a round, are concurrency and are not modelled.
- If the initial build fails, the watcher stops there and never installs the file watch (lib/watcher.js:78). The model returns the error, and the watch loop itself is not modelled. A failed rebuild (lib/watcher.js:85-89) rejects the asynchronous `change` handler, and nothing catches that rejection, so under Node's default policy for unhandled rejections the watcher process ends. The model returns the error after `building` and does not model the process ending.
- Property names inherited from `Object.prototype` (`constructor`, `toString`, `__proto__`) are not modelled. In the source such a name in a token or a subcomponent search reads the inherited member of `components` or `resolved`; the model treats every name as absent unless the source declared it.
- Resolver.Resolve: the source recurses without bound, so a reference cycle never ends there. The model bounds the nesting depth of generations with `fuel` and returns a `Diverged` error when the bound runs out. `ResolveFuelMonotone` shows that a larger bound never changes a result it lets through, and `CycleNeverResolves` that a mutual reference never gives a result.
- Compiler.IsHtmlName: `toLowerCase` is modelled only as far as it matters for `.html`. Only the ASCII letters `H`, `T`, `M`, `L` lower-case to the letters of `.html`, so the comparison ignores ASCII case.
- Each clean-up pattern is removed in a single left-to-right pass, as in the source. The model claims nothing about tag or fence text that the deletion itself splices together.
- Cache.Fetch: a generated answer is cleaned with the corrected document-tag pattern (`Cleanup.Clean`), not with the pattern as written at lib/compiler.js:50 (`Cleanup.CleanAsWritten`), so an answer holding a `<header>` tag is cached with that tag kept, where the source drops it (see Findings). The two patterns make the same match at every position where `<html`, `<head` or `<body` is followed by `>` or white space (`Cleanup.FixedAgreesOnDocumentTags`).
- Cache.GenerationCache.GetComponentCode: stores what `Cache.Fetch` describes, so it inherits the corrected clean-up above.
- An artifact a `$` pattern would mangle in the resolver is substituted literally by the rest of the model (see Findings). The substitution into the script at lib/watcher.js:69 is exact, because the script has no `$`.

## Findings

| source | as written | input that shows it | evidently intended | confidence | as-written member | corrected member |
|---|---|---|---|---|---|---|
| lib/compiler.js:50 | `<head[^>]*>` also matches the opening tag of `<header>`, so the clean-up deletes `<header …>` tags from generated components and leaves their `</header>` | a generated component `<header>` | delete only the document-level `<html>`, `<head>` and `<body>` tags | not executed | Cleanup.HeaderLosesOpeningTag | Cleanup.HeaderKeepsOpeningTag |
| lib/compiler.js:89 | the resolved markup is passed as the replacement string of `replace`, so its `$&`, `` $` ``, `$'` and `$$` are expanded instead of being inserted | a subcomponent `A` whose markup is `'$'`, substituted into the artifact `A` | insert the subcomponent's markup literally | not executed | Resolver.DollarQuoteMangled | Resolver.ReplaceAgreesWithoutDollar |
