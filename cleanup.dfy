/**
  The clean-up `getComponentCode` applies to a generated artifact before it
  is cached: one global `replace` that deletes document-level tags, two that
  delete Markdown code fences, then `trim`.

  A global `replace(re, '')` scans left to right; at each position it tries
  the alternatives of the pattern in order, deletes the first match and
  resumes after it, or keeps the character and moves on. `MatchEnd` is one
  such attempt, `Strip` the whole scan.

  Line numbers in this module refer to `lib/compiler.js`.
*/
module Cleanup {
  import opened Text

  /** The four patterns of lines 50-54, and the corrected tag pattern. */
  datatype Pattern =
    | DocumentTags       // /<html[^>]*>|<\/html>|<head[^>]*>|<\/head>|<body[^>]*>|<\/body>/gi
    | DocumentTagsFixed  // the same, but an opening tag's name must end at `>` or white space
    | HtmlFence          // /```html\s*|\s*```/g
    | Fence              // /```\s*|\s*```/g

  /** `<name[^>]*>` at `i`, ignoring case; with `whole`, the name must be
      followed by `>` or white space. Returns the end of the match. */
  function OpeningTagEnd(s: string, i: nat, name: string, whole: bool): (r: Option<nat>)
    ensures r.Some? ==> i < r.value <= |s| && s[r.value - 1] == '>'
  {
    if !StartsAtIgnoringCase(s, i, "<" + name) then None
    else
      var j := i + 1 + |name|;
      if whole && !(j < |s| && (s[j] == '>' || IsSpace(s[j]))) then None
      else
        match NextChar(s, j, '>')
        case None => None
        case Some(g) => Some(g + 1)
  }

  /** A fixed tag such as `</html>` at `i`, ignoring case. */
  function ClosingTagEnd(s: string, i: nat, tag: string): (r: Option<nat>)
    requires |tag| > 0
    ensures r.Some? ==> i < r.value <= |s|
  {
    if StartsAtIgnoringCase(s, i, tag) then Some(i + |tag|) else None
  }

  /** `\s*```` at `i`: white space up to a fence. */
  function SpacedFenceEnd(s: string, i: nat): (r: Option<nat>)
    requires i <= |s|
    ensures r.Some? ==> i < r.value <= |s|
  {
    var q := SkipSpaces(s, i);
    if StartsAt(s, q, "```") then Some(q + 3) else None
  }

  /** The end of the match `p` makes at position `i`, trying its
      alternatives in order. */
  function MatchEnd(p: Pattern, s: string, i: nat): (r: Option<nat>)
    requires i <= |s|
    ensures r.Some? ==> i < r.value <= |s|
  {
    match p
    case DocumentTags | DocumentTagsFixed =>
      var whole := p.DocumentTagsFixed?;
      var html := OpeningTagEnd(s, i, "html", whole);
      if html.Some? then html
      else if ClosingTagEnd(s, i, "</html>").Some? then ClosingTagEnd(s, i, "</html>")
      else if OpeningTagEnd(s, i, "head", whole).Some? then OpeningTagEnd(s, i, "head", whole)
      else if ClosingTagEnd(s, i, "</head>").Some? then ClosingTagEnd(s, i, "</head>")
      else if OpeningTagEnd(s, i, "body", whole).Some? then OpeningTagEnd(s, i, "body", whole)
      else ClosingTagEnd(s, i, "</body>")
    case HtmlFence =>
      if StartsAt(s, i, "```html") then Some(SkipSpaces(s, i + 7)) else SpacedFenceEnd(s, i)
    case Fence =>
      if StartsAt(s, i, "```") then Some(SkipSpaces(s, i + 3)) else SpacedFenceEnd(s, i)
  }

  /** `s.slice(i).replace(p, '')`: every match the left-to-right scan finds
      from `i` on is deleted, every other character kept in order. */
  function Strip(p: Pattern, s: string, i: nat): string
    requires i <= |s|
    decreases |s| - i
  {
    if i == |s| then []
    else
      match MatchEnd(p, s, i)
      case Some(e) => Strip(p, s, e)
      case None => [s[i]] + Strip(p, s, i + 1)
  }

  /** Stripping only deletes: it is never longer than what it scans, and
      every character it keeps comes from there. */
  lemma {:induction false} StripKeepsChars(p: Pattern, s: string, i: nat)
    requires i <= |s|
    ensures |Strip(p, s, i)| <= |s| - i
    ensures forall c :: c in Strip(p, s, i) ==> c in s[i..]
    decreases |s| - i
  {
    if i < |s| {
      match MatchEnd(p, s, i)
      case Some(e) =>
        StripKeepsChars(p, s, e);
        assert forall k :: e <= k < |s| ==> s[k] == s[i..][k - i];
      case None =>
        StripKeepsChars(p, s, i + 1);
        assert s[i..] == [s[i]] + s[i + 1..];
    }
  }

  /** Where the pattern matches nowhere, nothing is deleted. */
  lemma {:induction false} StripNoMatch(p: Pattern, s: string, i: nat)
    requires i <= |s|
    requires forall k :: i <= k < |s| ==> MatchEnd(p, s, k).None?
    ensures Strip(p, s, i) == s[i..]
    decreases |s| - i
  {
    if i < |s| {
      StripNoMatch(p, s, i + 1);
      assert s[i..] == [s[i]] + s[i + 1..];
    }
  }

  /** A tag pattern that starts with `<` fails where there is no `<`. */
  lemma NoTagWithoutLt(s: string, k: nat, tag: string)
    requires k < |s| && s[k] != '<' && |tag| > 0 && tag[0] == '<'
    ensures !StartsAtIgnoringCase(s, k, tag)
  {
    assert !SameLetter(s[k + 0], tag[0]);
  }

  /** Only a `<` can start a document tag. */
  lemma TagStartsWithLt(p: Pattern, s: string, k: nat)
    requires p.DocumentTags? || p.DocumentTagsFixed?
    requires k < |s| && s[k] != '<'
    ensures MatchEnd(p, s, k).None?
  {
    assert "<" + "html" == "<html" && "<" + "head" == "<head" && "<" + "body" == "<body";
    NoTagWithoutLt(s, k, "<html");
    NoTagWithoutLt(s, k, "</html>");
    NoTagWithoutLt(s, k, "<head");
    NoTagWithoutLt(s, k, "</head>");
    NoTagWithoutLt(s, k, "<body");
    NoTagWithoutLt(s, k, "</body>");
  }

  /** Only white space or a backtick can start a fence match; with no
      backtick from `k` on there is none. */
  lemma FenceNeedsBacktick(p: Pattern, s: string, k: nat)
    requires p.HtmlFence? || p.Fence?
    requires k <= |s| && forall j :: k <= j < |s| ==> s[j] != '`'
    ensures MatchEnd(p, s, k).None?
  {
    var q := SkipSpaces(s, k);
    NotAtWithoutFirst(s, q, "```");
    NotAtWithoutFirst(s, k, "```");
    NotAtWithoutFirst(s, k, "```html");
  }

  /** The clean-up of lines 50-57 as written. */
  function CleanAsWritten(raw: string): (r: string)
    ensures Trimmed(r)
  {
    Trim(Strip(Fence, Strip(HtmlFence, Strip(DocumentTags, raw, 0), 0), 0))
  }

  /** The clean-up with the corrected tag pattern: what the cache stores. */
  function Clean(raw: string): (r: string)
    ensures Trimmed(r)
  {
    Trim(Strip(Fence, Strip(HtmlFence, Strip(DocumentTagsFixed, raw, 0), 0), 0))
  }

  /** The clean-up only deletes characters of the generated text. */
  lemma CleanKeepsChars(raw: string)
    ensures forall c :: c in Clean(raw) ==> c in raw
  {
    var a := Strip(DocumentTagsFixed, raw, 0);
    var b := Strip(HtmlFence, a, 0);
    var c := Strip(Fence, b, 0);
    StripKeepsChars(DocumentTagsFixed, raw, 0);
    StripKeepsChars(HtmlFence, a, 0);
    StripKeepsChars(Fence, b, 0);
    TrimKeepsChars(c);
    assert raw[0..] == raw && a[0..] == a && b[0..] == b && c[0..] == c;
  }

  /** An artifact with no `<` and no backtick is only trimmed. */
  lemma CleanPlain(raw: string)
    requires '<' !in raw && '`' !in raw
    ensures Clean(raw) == Trim(raw)
    ensures CleanAsWritten(raw) == Trim(raw)
  {
    forall p: Pattern | p.DocumentTags? || p.DocumentTagsFixed?
      ensures Strip(p, raw, 0) == raw
    {
      forall k | 0 <= k < |raw| ensures MatchEnd(p, raw, k).None? {
        TagStartsWithLt(p, raw, k);
      }
      StripNoMatch(p, raw, 0);
    }
    forall p: Pattern | p.HtmlFence? || p.Fence?
      ensures Strip(p, raw, 0) == raw
    {
      forall k | 0 <= k < |raw| ensures MatchEnd(p, raw, k).None? {
        FenceNeedsBacktick(p, raw, k);
      }
      StripNoMatch(p, raw, 0);
    }
  }

  // ---------------------------------------------------------------------
  // `<head[^>]*>` also matches the opening tag of a `<header>` element.

  /** At an opening `<header` tag that is closed by a later `>`, the pattern
      as written matches (and deletes the tag), the corrected one does not. */
  lemma HeaderTagMatchedAsWritten(s: string, k: nat)
    requires StartsAtIgnoringCase(s, k, "<header") && '>' in s[k + 7..]
    ensures MatchEnd(DocumentTags, s, k).Some?
    ensures MatchEnd(DocumentTagsFixed, s, k).None?
  {
    assert "<" + "html" == "<html" && "<" + "head" == "<head" && "<" + "body" == "<body";
    assert StartsAtIgnoringCase(s, k, "<head") by {
      assert forall j :: 0 <= j < 5 ==> "<head"[j] == "<header"[j];
    }
    assert SameLetter(s[k + 1], "<header"[1]) && SameLetter(s[k + 2], "<header"[2]);
    assert !StartsAtIgnoringCase(s, k, "<html") by { assert !SameLetter(s[k + 2], "<html"[2]); }
    assert !StartsAtIgnoringCase(s, k, "</html>") by { assert !SameLetter(s[k + 1], "</html>"[1]); }
    assert !StartsAtIgnoringCase(s, k, "</head>") by { assert !SameLetter(s[k + 1], "</head>"[1]); }
    assert !StartsAtIgnoringCase(s, k, "<body") by { assert !SameLetter(s[k + 1], "<body"[1]); }
    assert !StartsAtIgnoringCase(s, k, "</body>") by { assert !SameLetter(s[k + 1], "</body>"[1]); }
    assert SameLetter(s[k + 5], "<header"[5]);
    var g :| 0 <= g < |s[k + 7..]| && s[k + 7..][g] == '>';
    assert s[k + 7 + g] == '>';
    assert NextChar(s, k + 5, '>').Some?;
  }

  const HeaderTag := "<header>"

  /** As written, a generated `<header>` element loses its opening tag. */
  lemma HeaderLosesOpeningTag()
    ensures Strip(DocumentTags, HeaderTag, 0) == []
  {
    var s := HeaderTag;
    assert StartsAtIgnoringCase(s, 0, "<header");
    assert s[7..] == ">";
    HeaderTagMatchedAsWritten(s, 0);
    assert MatchEnd(DocumentTags, s, 0) == Some(8) by {
      assert NextChar(s, 5, '>') == Some(7);
    }
  }

  /** The corrected pattern keeps it. */
  lemma HeaderKeepsOpeningTag()
    ensures Strip(DocumentTagsFixed, HeaderTag, 0) == HeaderTag
  {
    var s := HeaderTag;
    assert StartsAtIgnoringCase(s, 0, "<header");
    assert s[7..] == ">";
    HeaderTagMatchedAsWritten(s, 0);
    assert s[1..] == "header>";
    KeptWithoutLaterTag(s);
  }

  /** A text the corrected tag pattern does not match at its start, with no
      other `<`, is kept whole. */
  lemma KeptWithoutLaterTag(s: string)
    requires |s| > 0 && MatchEnd(DocumentTagsFixed, s, 0).None? && '<' !in s[1..]
    ensures Strip(DocumentTagsFixed, s, 0) == s
  {
    forall k | 0 <= k < |s| ensures MatchEnd(DocumentTagsFixed, s, k).None? {
      if k > 0 {
        assert s[k] == s[1..][k - 1];
        TagStartsWithLt(DocumentTagsFixed, s, k);
      }
    }
    StripNoMatch(DocumentTagsFixed, s, 0);
    assert s[0..] == s;
  }

  /** If an opening tag `<name` starts at `k`, the name ends there, at `>`
      or white space: a real document tag rather than a longer name. */
  predicate TagNameEnds(s: string, k: nat, name: string) {
    StartsAtIgnoringCase(s, k, "<" + name) ==>
      k + 1 + |name| < |s| && (s[k + 1 + |name|] == '>' || IsSpace(s[k + 1 + |name|]))
  }

  /** On a real document tag the corrected pattern matches exactly where
      the one as written does. */
  lemma FixedAgreesOnDocumentTags(s: string, k: nat)
    requires k <= |s|
    requires TagNameEnds(s, k, "html") && TagNameEnds(s, k, "head") && TagNameEnds(s, k, "body")
    ensures MatchEnd(DocumentTagsFixed, s, k) == MatchEnd(DocumentTags, s, k)
  {
    OpeningTagAgrees(s, k, "html");
    OpeningTagAgrees(s, k, "head");
    OpeningTagAgrees(s, k, "body");
  }

  /** Where the tag name ends, requiring it to changes nothing. */
  lemma OpeningTagAgrees(s: string, k: nat, name: string)
    requires TagNameEnds(s, k, name)
    ensures OpeningTagEnd(s, k, name, true) == OpeningTagEnd(s, k, name, false)
  {
  }
}
