/**
  The live-reload side of `watchVibeScript`: the script injected into every
  built page, the broadcast of build signals to the connected browsers, and
  the order of those signals for the initial build and for a rebuild.

  The HTTP server and the file watcher are left out. The WebSocket server
  is a `SocketServer` object holding its connections as values, each with
  the state of its socket and the messages it has been sent; a build is one
  sequential call of `CompileVibeScript`.

  Line numbers in this module refer to `lib/watcher.js`.
*/
module Watcher {
  import opened Text
  import opened Cache
  import opened Parser
  import opened Compiler

  // ---------------------------------------------------------------------
  // The injected script

  /** The id of the overlay the script creates; its presence marks a page
      that already has the script. */
  const Marker: string := "vibe-overlay"

  /** `n` spaces. */
  function Indent(n: nat): string {
    seq(n, _ => ' ')
  }

  /** Lines 33-35. */
  function Lines33(): seq<string> {
    [ "",
      Indent(6) + "<script>",
      Indent(8) + "const ws = new WebSocket(" + "\"ws://\" + location.host);" ]
  }

  /** Lines 36-38. */
  function Lines36(): seq<string> {
    [ Indent(8) + "ws.onmessage = (event) => {",
      Indent(10) + "if (event.data === \"reload\") {",
      Indent(12) + "location.reload();" ]
  }

  /** Lines 39-41. */
  function Lines39(): seq<string> {
    [ Indent(10) + "}",
      Indent(10) + "if (event.data === \"building\") {",
      Indent(12) + "const overlay = " + "document.createElement(\"div\");" ]
  }

  /** Lines 42-44. */
  function Lines42(): seq<string> {
    [ Indent(12) + "overlay.id = \"" + Marker + "\";",
      Indent(12) + "overlay.style.position = \"fixed\";",
      Indent(12) + "overlay.style.top = 0;" ]
  }

  /** Lines 45-47. */
  function Lines45(): seq<string> {
    [ Indent(12) + "overlay.style.left = 0;",
      Indent(12) + "overlay.style.width = \"100%\";",
      Indent(12) + "overlay.style.height = \"100%\";" ]
  }

  /** Lines 48-50. */
  function Lines48(): seq<string> {
    [ Indent(12) + "overlay.style.background = " + "\"rgba(0,0,0,0.7)\";",
      Indent(12) + "overlay.style.color = \"white\";",
      Indent(12) + "overlay.style.fontSize = \"2rem\";" ]
  }

  /** Lines 51-53. */
  function Lines51(): seq<string> {
    [ Indent(12) + "overlay.style.display = \"flex\";",
      Indent(12) + "overlay.style.alignItems = \"center\";",
      Indent(12) + "overlay.style.justifyContent = \"center\";" ]
  }

  /** Lines 54-56. */
  function Lines54(): seq<string> {
    [ Indent(12) + "overlay.innerText = " + "\"\U{2728} Building vibes...\";",
      Indent(12) + "document.body.appendChild(overlay);",
      Indent(10) + "}" ]
  }

  /** Lines 57-59. */
  function Lines57(): seq<string> {
    [ Indent(10) + "if (event.data === \"done\") {",
      Indent(12) + "const overlay = " + "document.getElementById(\"" + Marker + "\");",
      Indent(12) + "if (overlay) overlay.remove();" ]
  }

  /** Lines 60-63. */
  function Lines60(): seq<string> {
    [ Indent(10) + "}",
      Indent(8) + "};",
      Indent(6) + "</script>",
      Indent(4) ]
  }

  /** All the lines of the template literal, in order. */
  function ScriptLines(): seq<string> {
    Lines33() + Lines36() + Lines39() + Lines42() + Lines45() + Lines48() + Lines51() + Lines54() + Lines57() + Lines60()
  }

  /** The template literal of lines 33-63: its lines joined by line breaks. */
  function LiveReloadScript(): string {
    Join(ScriptLines(), "\n")
  }

  /** No character is a `$`. */
  predicate NoDollar(s: string) {
    forall i :: 0 <= i < |s| ==> s[i] != '$'
  }

  /** No line has a `$`. */
  predicate NoDollarLines(lines: seq<string>) {
    forall k :: 0 <= k < |lines| ==> NoDollar(lines[k])
  }

  lemma Lines33NoDollar()
    ensures NoDollarLines(Lines33())
  {
    assert NoDollar(Lines33()[0]);
    assert NoDollar(Lines33()[1]);
    assert NoDollar(Lines33()[2]);
  }

  lemma Lines36NoDollar()
    ensures NoDollarLines(Lines36())
  {
    assert NoDollar(Lines36()[0]);
    assert NoDollar(Lines36()[1]);
    assert NoDollar(Lines36()[2]);
  }

  lemma Lines39NoDollar()
    ensures NoDollarLines(Lines39())
  {
    assert NoDollar(Lines39()[0]);
    assert NoDollar(Lines39()[1]);
    assert NoDollar(Lines39()[2]);
  }

  lemma Lines42NoDollar()
    ensures NoDollarLines(Lines42())
  {
    assert NoDollar(Lines42()[0]);
    assert NoDollar(Lines42()[1]);
    assert NoDollar(Lines42()[2]);
  }

  lemma Lines45NoDollar()
    ensures NoDollarLines(Lines45())
  {
    assert NoDollar(Lines45()[0]);
    assert NoDollar(Lines45()[1]);
    assert NoDollar(Lines45()[2]);
  }

  lemma Lines48NoDollar()
    ensures NoDollarLines(Lines48())
  {
    assert NoDollar(Lines48()[0]);
    assert NoDollar(Lines48()[1]);
    assert NoDollar(Lines48()[2]);
  }

  lemma Lines51NoDollar()
    ensures NoDollarLines(Lines51())
  {
    assert NoDollar(Lines51()[0]);
    assert NoDollar(Lines51()[1]);
    assert NoDollar(Lines51()[2]);
  }

  lemma Lines54NoDollar()
    ensures NoDollarLines(Lines54())
  {
    assert NoDollar(Lines54()[0]);
    assert NoDollar(Lines54()[1]);
    assert NoDollar(Lines54()[2]);
  }

  lemma Lines57NoDollar()
    ensures NoDollarLines(Lines57())
  {
    assert NoDollar(Lines57()[0]);
    assert NoDollar(Lines57()[1]);
    assert NoDollar(Lines57()[2]);
  }

  lemma Lines60NoDollar()
    ensures NoDollarLines(Lines60())
  {
    assert NoDollar(Lines60()[0]);
    assert NoDollar(Lines60()[1]);
    assert NoDollar(Lines60()[2]);
    assert NoDollar(Lines60()[3]);
  }

  /** Lines without `$`, put together, stay without `$`. */
  lemma NoDollarLinesAppend(a: seq<string>, b: seq<string>)
    requires NoDollarLines(a) && NoDollarLines(b)
    ensures NoDollarLines(a + b)
  {
    forall k | 0 <= k < |a + b| ensures NoDollar((a + b)[k]) {
      if k < |a| { assert (a + b)[k] == a[k]; } else { assert (a + b)[k] == b[k - |a|]; }
    }
  }

  /** Joining lines without `$` by a separator without `$` gives a string
      without `$`. */
  lemma {:induction false} NoDollarJoin(parts: seq<string>, sep: string)
    requires NoDollarLines(parts) && NoDollar(sep)
    ensures NoDollar(Join(parts, sep))
    decreases |parts|
  {
    if |parts| > 1 {
      NoDollarJoin(parts[1..], sep);
      var rest := Join(parts[1..], sep);
      assert NoDollar(parts[0]);
      forall i | 0 <= i < |parts[0] + sep + rest| ensures (parts[0] + sep + rest)[i] != '$' {
        if i < |parts[0]| {
        } else if i < |parts[0] + sep| {
          assert (parts[0] + sep + rest)[i] == sep[i - |parts[0]|];
        } else {
          assert (parts[0] + sep + rest)[i] == rest[i - |parts[0] + sep|];
        }
      }
    } else if |parts| == 1 {
      assert NoDollar(parts[0]);
    }
  }

  /** The script has no `$`: `String.replace` inserts it as it is. */
  lemma LiveReloadScriptNoDollar()
    ensures NoDollar(LiveReloadScript())
  {
    Lines33NoDollar(); Lines36NoDollar(); Lines39NoDollar(); Lines42NoDollar(); Lines45NoDollar();
    Lines48NoDollar(); Lines51NoDollar(); Lines54NoDollar(); Lines57NoDollar(); Lines60NoDollar();
    NoDollarLinesAppend(Lines33(), Lines36());
    NoDollarLinesAppend(Lines33() + Lines36(), Lines39());
    NoDollarLinesAppend(Lines33() + Lines36() + Lines39(), Lines42());
    NoDollarLinesAppend(Lines33() + Lines36() + Lines39() + Lines42(), Lines45());
    NoDollarLinesAppend(Lines33() + Lines36() + Lines39() + Lines42() + Lines45(), Lines48());
    NoDollarLinesAppend(Lines33() + Lines36() + Lines39() + Lines42() + Lines45() + Lines48(), Lines51());
    NoDollarLinesAppend(Lines33() + Lines36() + Lines39() + Lines42() + Lines45() + Lines48() + Lines51(), Lines54());
    NoDollarLinesAppend(Lines33() + Lines36() + Lines39() + Lines42() + Lines45() + Lines48() + Lines51() + Lines54(), Lines57());
    NoDollarLinesAppend(Lines33() + Lines36() + Lines39() + Lines42() + Lines45() + Lines48() + Lines51() + Lines54() + Lines57(), Lines60());
    NoDollarJoin(ScriptLines(), "\n");
  }

  /** A part that contains `pat` makes the joined string contain it. */
  lemma {:induction false} JoinHasPart(parts: seq<string>, sep: string, k: nat, pat: string)
    requires k < |parts| && Contains(parts[k], pat)
    ensures Contains(Join(parts, sep), pat)
    decreases k
  {
    if |parts| > 1 {
      if k == 0 {
        ContainsInContext([], parts[0], sep + Join(parts[1..], sep), pat);
        assert [] + parts[0] + (sep + Join(parts[1..], sep)) == Join(parts, sep);
      } else {
        JoinHasPart(parts[1..], sep, k - 1, pat);
        ContainsInContext(parts[0] + sep, Join(parts[1..], sep), [], pat);
        assert parts[0] + sep + Join(parts[1..], sep) + [] == Join(parts, sep);
      }
    }
  }

  /** The script names the overlay (line 42). */
  lemma LiveReloadScriptNamesOverlay()
    ensures Contains(LiveReloadScript(), Marker)
  {
    assert StartsAt(Marker, 0, Marker);
    ContainsInContext(Indent(12) + "overlay.id = \"", Marker, "\";", Marker);
    assert ScriptLines()[9] == Indent(12) + "overlay.id = \"" + Marker + "\";";
    JoinHasPart(ScriptLines(), "\n", 9, Marker);
  }

  // ---------------------------------------------------------------------
  // Injecting the script into one page

  const ClosingBody: string := "</body>"

  /** Line 69: `html.replace("</body>", replacement)`. The pattern is a
      string, so only its first occurrence is replaced, and the replacement
      goes through the `$` patterns of `String.replace`. */
  function ReplaceClosingBody(html: string, replacement: string): string {
    match FindFrom(html, ClosingBody, 0)
    case None => html
    case Some(i) =>
      html[..i] + ExpandReplacement(replacement, ClosingBody, html[..i], html[i + |ClosingBody|..])
        + html[i + |ClosingBody|..]
  }

  /** Lines 67-71 for one file's content: a page that does not name the
      overlay gets `script` before its first `</body>`. */
  function InjectScript(script: string, html: string): string {
    if Includes(html, Marker) then html
    else ReplaceClosingBody(html, script + ClosingBody)
  }

  /** What the injection needs of a script: no `$`, and the overlay's name
      in it, so that a page that has it is recognised. */
  predicate Insertable(script: string) {
    NoDollar(script) && Contains(script, Marker)
  }

  /** The script of lines 33-63 is one. */
  lemma LiveReloadScriptInsertable()
    ensures Insertable(LiveReloadScript())
  {
    LiveReloadScriptNoDollar();
    LiveReloadScriptNamesOverlay();
  }

  /** `indexOf` finds the first occurrence there is. */
  lemma FindFirst(html: string, pat: string, i: nat)
    requires StartsAt(html, i, pat) && forall k: nat :: k < i ==> !StartsAt(html, k, pat)
    ensures FindFrom(html, pat, 0) == Some(i)
  {
  }

  /** A page that does not name the overlay gets the script immediately
      before its first `</body>`, and nothing else changes. */
  lemma InjectBeforeFirstClosingBody(script: string, html: string, i: nat)
    requires NoDollar(script)
    requires !Includes(html, Marker)
    requires StartsAt(html, i, ClosingBody) && forall k: nat :: k < i ==> !StartsAt(html, k, ClosingBody)
    ensures InjectScript(script, html) == html[..i] + script + html[i..]
  {
    FindFirst(html, ClosingBody, i);
    var tail := html[i + |ClosingBody|..];
    ReplacementWithClosingBody(script);
    assert ExpandReplacement(script + ClosingBody, ClosingBody, html[..i], tail) == script + ClosingBody;
    StartsAtSlice(html, i, ClosingBody);
    assert html[i..] == ClosingBody + tail;
  }

  /** The replacement of line 69 has no `$` when the script has none. */
  lemma ReplacementWithClosingBody(script: string)
    requires NoDollar(script)
    ensures '$' !in script + ClosingBody
  {
    assert NoDollar(ClosingBody);
    assert forall k :: 0 <= k < |script + ClosingBody| ==> (script + ClosingBody)[k] != '$' by {
      forall k | 0 <= k < |script + ClosingBody|
        ensures (script + ClosingBody)[k] != '$'
      {
        if k >= |script| {
          assert (script + ClosingBody)[k] == ClosingBody[k - |script|];
        }
      }
    }
  }

  /** A page is left as it is exactly when it already names the overlay or
      has no `</body>`. */
  lemma InjectUnchanged(script: string, html: string)
    requires Insertable(script)
    ensures InjectScript(script, html) == html <==> Includes(html, Marker) || !Contains(html, ClosingBody)
  {
    ContainsFind(html, ClosingBody);
    if !Includes(html, Marker) && Contains(html, ClosingBody) {
      var i := FindFrom(html, ClosingBody, 0).value;
      InjectBeforeFirstClosingBody(script, html, i);
      var j: nat :| j <= |script| && StartsAt(script, j, Marker);
      assert |InjectScript(script, html)| > |html|;
    }
  }

  /** A page with a `</body>` names the overlay afterwards. */
  lemma InjectMarks(script: string, html: string)
    requires Insertable(script)
    requires Contains(html, ClosingBody)
    ensures Includes(InjectScript(script, html), Marker)
  {
    if !Includes(html, Marker) {
      ContainsFind(html, ClosingBody);
      var i := FindFrom(html, ClosingBody, 0).value;
      InjectBeforeFirstClosingBody(script, html, i);
      ContainsInContext(html[..i], script, html[i..], Marker);
      ContainsFind(InjectScript(script, html), Marker);
    }
  }

  /** Injecting twice is injecting once. */
  lemma InjectIdempotent(script: string, html: string)
    requires Insertable(script)
    ensures InjectScript(script, InjectScript(script, html)) == InjectScript(script, html)
  {
    if !Includes(html, Marker) && Contains(html, ClosingBody) {
      InjectMarks(script, html);
    } else {
      InjectUnchanged(script, html);
    }
  }

  // ---------------------------------------------------------------------
  // Injecting the script into the output directory

  /** Lines 65-73 on the directory's files: every name ending in `.html`
      (with that case: line 66 does not lower-case) has the script
      injected; the other files are left as they are. */
  function InjectAll(script: string, files: map<string, string>): map<string, string> {
    map name | name in files :: if EndsWith(name, ".html") then InjectScript(script, files[name]) else files[name]
  }

  /** Running the injection again after it changes nothing. */
  lemma InjectAllIdempotent(script: string, files: map<string, string>)
    requires Insertable(script)
    ensures InjectAll(script, InjectAll(script, files)) == InjectAll(script, files)
  {
    forall name | name in files && EndsWith(name, ".html")
      ensures InjectScript(script, InjectScript(script, files[name])) == InjectScript(script, files[name])
    {
      InjectIdempotent(script, files[name]);
    }
  }

  /** Every document a page build writes closes its body. */
  lemma DocumentClosesBody(pageName: string, htmlParts: seq<string>)
    ensures Contains(Document(pageName, htmlParts), ClosingBody)
  {
    assert StartsAt(DocumentTail, 7, ClosingBody);
    var front := DocumentHead + pageName + DocumentMiddle + Join(htmlParts, "\n");
    ContainsInContext(front, DocumentTail, [], ClosingBody);
    assert front + DocumentTail + [] == Document(pageName, htmlParts);
  }

  /** A page's file ends in `.html` with that case. */
  lemma PageFileEndsWithHtml(page: Page)
    ensures EndsWith(PageFile(page), ".html")
  {
    assert PageFile(page)[|page.name|..] == ".html";
  }

  /** After a successful build and the injection, every page's file names
      the overlay: each browser showing a page is connected for reload. */
  lemma InjectedPagesNameOverlay(env: Env, src: string, configured: Option<string>, fuel: nat,
                                 files: map<string, string>, st: CacheState)
    requires Compile(env, src, configured, fuel, files, st).result.Ok?
    ensures var out := InjectAll(LiveReloadScript(), Compile(env, src, configured, fuel, files, st).files);
            forall p :: p in PagesOf(src) ==> PageFile(p) in out && Includes(out[PageFile(p)], Marker)
  {
    var c := Compile(env, src, configured, fuel, files, st).files;
    var script := LiveReloadScript();
    LiveReloadScriptInsertable();
    CompiledFiles(env, src, configured, fuel, files, st);
    forall p | p in PagesOf(src)
      ensures PageFile(p) in InjectAll(script, c) && Includes(InjectAll(script, c)[PageFile(p)], Marker)
    {
      var htmlParts :| c[PageFile(p)] == Document(p.name, htmlParts);
      DocumentClosesBody(p.name, htmlParts);
      PageFileEndsWithHtml(p);
      InjectMarks(script, c[PageFile(p)]);
    }
  }

  /** Lines 65-73: each file of the directory in turn; a `.html` file that
      does not name the overlay is rewritten with `script` injected. */
  method InjectInto(out: OutputDir, script: string)
    modifies out
    ensures out.files == InjectAll(script, old(out.files))
  {
    var names := out.files.Keys;
    while names != {}
      invariant names <= old(out.files).Keys
      invariant out.files == map name | name in old(out.files) ::
                  if name !in names && EndsWith(name, ".html") then InjectScript(script, old(out.files)[name])
                  else old(out.files)[name]
      decreases names
    {
      var name :| name in names;
      if EndsWith(name, ".html") {
        var html := out.files[name];
        if !Includes(html, Marker) {
          html := ReplaceClosingBody(html, script + ClosingBody);
          out.Write(name, html);
        }
      }
      names := names - {name};
    }
  }

  /** `injectLiveReload()` (lines 32-74). */
  method InjectLiveReload(out: OutputDir)
    modifies out
    ensures out.files == InjectAll(LiveReloadScript(), old(out.files))
  {
    InjectInto(out, LiveReloadScript());
  }

  // ---------------------------------------------------------------------
  // Build signals

  /** `WebSocket.OPEN`. */
  const Open: int := 1

  /** A connected browser: the state of its socket and the messages it has
      been sent. */
  datatype Connection = Connection(readyState: int, received: seq<string>)

  /** What a connection becomes when it is sent `msgs`: an open one
      receives them, any other is skipped. */
  function Deliver(c: Connection, msgs: seq<string>): Connection {
    if c.readyState == Open then c.(received := c.received + msgs) else c
  }

  /** Every connection sent `msgs`. */
  function SendToAll(clients: seq<Connection>, msgs: seq<string>): (r: seq<Connection>)
    ensures |r| == |clients|
  {
    seq(|clients|, i requires 0 <= i < |clients| => Deliver(clients[i], msgs))
  }

  /** Sending two batches in turn is sending them together; the states of
      the sockets do not change. */
  lemma SendInTurn(clients: seq<Connection>, first: seq<string>, second: seq<string>)
    ensures SendToAll(SendToAll(clients, first), second) == SendToAll(clients, first + second)
  {
    forall i | 0 <= i < |clients|
      ensures SendToAll(SendToAll(clients, first), second)[i] == SendToAll(clients, first + second)[i]
    {
      assert clients[i].received + first + second == clients[i].received + (first + second);
    }
  }

  /** Sending nothing changes nothing. */
  lemma SendNothing(clients: seq<Connection>)
    ensures SendToAll(clients, []) == clients
  {
    forall i | 0 <= i < |clients| ensures SendToAll(clients, [])[i] == clients[i] {
      assert clients[i].received + [] == clients[i].received;
    }
  }

  /** The WebSocket server of line 22 and its `clients`. */
  class SocketServer {
    var clients: seq<Connection>

    constructor (clients: seq<Connection>)
      ensures this.clients == clients
    {
      this.clients := clients;
    }

    /** `broadcast(msg)` (lines 23-29): each client in turn, sent `msg` if
        its socket is open. */
    method Broadcast(msg: string)
      modifies this
      ensures clients == SendToAll(old(clients), [msg])
    {
      var i := 0;
      while i < |clients|
        invariant 0 <= i <= |clients| == |old(clients)|
        invariant forall k :: 0 <= k < i ==> clients[k] == Deliver(old(clients)[k], [msg])
        invariant forall k :: i <= k < |clients| ==> clients[k] == old(clients)[k]
      {
        if clients[i].readyState == Open {
          clients := clients[i := clients[i].(received := clients[i].received + [msg])];
        }
        i := i + 1;
      }
    }
  }

  /** The messages one build sends: `building`, then, if the build
      succeeded, `done` and, for a rebuild, `reload`. A failed build stops
      at the exception and sends nothing more, so the overlay stays; the
      exception of a failed rebuild escapes the change handler unhandled,
      which ends the process, and that ending is not modelled here. */
  function Signals(rebuild: bool, r: Result<()>): (msgs: seq<string>)
    ensures |msgs| >= 1 && msgs[0] == "building" && "building" !in msgs[1..]
    ensures "done" in msgs <==> r.Ok?
    ensures "reload" in msgs <==> rebuild && r.Ok?
    ensures r.Ok? ==> msgs[1] == "done" && msgs[|msgs| - 1] == (if rebuild then "reload" else "done")
  {
    ["building"] + (if r.Err? then [] else ["done"] + (if rebuild then ["reload"] else []))
  }

  /** Lines 78-79 and 86-87: the build, then the injection if it succeeded. */
  method CompileAndInject(src: string, configured: Option<string>, cache: GenerationCache, out: OutputDir, fuel: nat)
    returns (r: Result<()>)
    modifies cache, out
    ensures var c := Compile(cache.env, src, configured, fuel, old(out.files), old(cache.State()));
            && r == c.result && cache.State() == c.cache
            && out.files == (if r.Ok? then InjectAll(LiveReloadScript(), c.files) else c.files)
  {
    r := CompileVibeScript(src, configured, cache, out, fuel);
    if r.Ok? {
      InjectLiveReload(out);
    }
  }

  /** The initial build (lines 77-80, `rebuild` false) and a rebuild after
      a change (lines 85-89, `rebuild` true): the directory and the cache
      are as `compileVibeScript` leaves them, with the script injected if
      it succeeded, and each open client has been sent the build's
      signals. */
  method BuildRound(rebuild: bool, src: string, configured: Option<string>, cache: GenerationCache,
                    out: OutputDir, wss: SocketServer, fuel: nat)
    returns (r: Result<()>)
    modifies cache, out, wss
    ensures var c := Compile(cache.env, src, configured, fuel, old(out.files), old(cache.State()));
            && r == c.result && cache.State() == c.cache
            && out.files == (if r.Ok? then InjectAll(LiveReloadScript(), c.files) else c.files)
    ensures wss.clients == SendToAll(old(wss.clients), Signals(rebuild, r))
  {
    wss.Broadcast("building");
    r := CompileAndInject(src, configured, cache, out, fuel);
    Announce(wss, rebuild, r);
    SendInTurn(old(wss.clients), ["building"], Signals(rebuild, r)[1..]);
    assert ["building"] + Signals(rebuild, r)[1..] == Signals(rebuild, r);
  }

  /** Lines 80 and 88-89: after a successful build, `done` and, for a
      rebuild, `reload`. */
  method Announce(wss: SocketServer, rebuild: bool, r: Result<()>)
    modifies wss
    ensures wss.clients == SendToAll(old(wss.clients), Signals(rebuild, r)[1..])
  {
    if r.Ok? {
      wss.Broadcast("done");
      if rebuild {
        wss.Broadcast("reload");
        SendInTurn(old(wss.clients), ["done"], ["reload"]);
        assert Signals(rebuild, r)[1..] == ["done"] + ["reload"];
      } else {
        assert Signals(rebuild, r)[1..] == ["done"];
      }
    } else {
      SendNothing(wss.clients);
    }
  }
}
