/**
  The source parser of `compileVibeScript`: the two regular-expression scans
  that turn the source text into a component table and an ordered page list,
  and the `trim`/`split`/`map`/`filter` pipeline that cuts a page body into
  line tokens.

  A regular-expression scan `while (m = re.exec(src))` is modelled by
  `ExecComponent`/`ExecPage` (the leftmost match at or after `lastIndex`) and
  an imperative loop that advances `lastIndex` to the end of each match.

  Line numbers in this module refer to `lib/compiler.js`.
*/
module Parser {
  import opened Text

  /** One match of `/component\s+(\w+):\s+\"([\s\S]*?)\"/g`: the two
      captures and the source positions the match spans. */
  datatype ComponentMatch = ComponentMatch(name: string, prompt: string, start: nat, end: nat)

  /** One match of `/page\s+(\w+):([\s\S]*?)(?=page|$)/g`. */
  datatype PageMatch = PageMatch(name: string, body: string, start: nat, end: nat)

  /** The `{ pageName, body }` record pushed onto `pages`. */
  datatype Page = Page(name: string, body: string)

  // ---------------------------------------------------------------------
  // Scanning helpers

  /** Index just after the run of `\w` characters that starts at `i`. */
  function SkipWord(s: string, i: nat): (j: nat)
    requires i <= |s|
    ensures i <= j <= |s|
    ensures forall k :: i <= k < j ==> IsWordChar(s[k])
    ensures j == |s| || !IsWordChar(s[j])
    decreases |s| - i
  {
    if i == |s| || !IsWordChar(s[i]) then i else SkipWord(s, i + 1)
  }

  /** The end of a page body: the first index at or after `i` where the
      literal `page` starts, or the end of the input (`(?=page|$)`). */
  function BodyEnd(s: string, i: nat): (j: nat)
    requires i <= |s|
    ensures i <= j <= |s|
    ensures j == |s| || StartsAt(s, j, "page")
    ensures forall k: nat :: i <= k < j ==> !StartsAt(s, k, "page")
    decreases |s| - i
  {
    if i == |s| || StartsAt(s, i, "page") then i else BodyEnd(s, i + 1)
  }

  /** A `SkipSpaces` result is the end of the given white-space run. */
  lemma SkipSpacesIs(s: string, i: nat, j: nat)
    requires i <= j <= |s| && AllSpace(s[i..j]) && (j == |s| || !IsSpace(s[j]))
    ensures SkipSpaces(s, i) == j
  {
  }

  /** A `SkipWord` result is the end of the given word. */
  lemma SkipWordIs(s: string, i: nat, j: nat)
    requires i <= j <= |s| && (forall k :: i <= k < j ==> IsWordChar(s[k]))
    requires j == |s| || !IsWordChar(s[j])
    ensures SkipWord(s, i) == j
  {
  }

  // ---------------------------------------------------------------------
  // Component declarations

  /** The text of a component declaration as the pattern describes it. */
  function ComponentText(space1: string, name: string, space2: string, prompt: string): string {
    "component" + (space1 + (name + (":" + (space2 + ("\"" + (prompt + "\""))))))
  }

  /** What each part of a declaration must be: `\s+`, `\w+`, `\s+` and
      (the lazy `[\s\S]*?` stopping at the first quote) a quote-free prompt. */
  predicate ComponentParts(space1: string, name: string, space2: string, prompt: string) {
    && |space1| > 0 && AllSpace(space1)
    && IsWord(name)
    && |space2| > 0 && AllSpace(space2)
    && '"' !in prompt
  }

  /** The match the component pattern makes starting exactly at `i`, if any. */
  function ComponentAt(s: string, i: nat): (r: Option<ComponentMatch>)
    ensures r.Some? ==> r.value.start == i < r.value.end <= |s|
    ensures r.Some? ==> IsWord(r.value.name) && '"' !in r.value.prompt
  {
    if !StartsAt(s, i, "component") then None
    else
      var a := i + 9;
      var b := SkipSpaces(s, a);
      var c := SkipWord(s, b);
      if b == a || c == b || c == |s| || s[c] != ':' then None
      else
        var d := SkipSpaces(s, c + 1);
        if d == c + 1 || d == |s| || s[d] != '"' then None
        else
          match NextChar(s, d + 1, '"')
          case None => None
          case Some(e) =>
            Some(ComponentMatch(s[b..c], s[d + 1..e], i, e + 1))
  }

  /** A declaration occurs at `i` exactly when each of its parts occurs
      where the previous one ends. */
  lemma ComponentTextAt(s: string, i: nat, space1: string, name: string, space2: string, prompt: string)
    ensures StartsAt(s, i, ComponentText(space1, name, space2, prompt)) <==>
              && StartsAt(s, i, "component") && StartsAt(s, i + 9, space1)
              && StartsAt(s, i + 9 + |space1|, name)
              && StartsAt(s, i + 9 + |space1| + |name|, ":")
              && StartsAt(s, i + 10 + |space1| + |name|, space2)
              && StartsAt(s, i + 10 + |space1| + |name| + |space2|, "\"")
              && StartsAt(s, i + 11 + |space1| + |name| + |space2|, prompt)
              && StartsAt(s, i + 11 + |space1| + |name| + |space2| + |prompt|, "\"")
  {
    var a := i + 9;
    var b := a + |space1|;
    var c := b + |name|;
    var d := c + 1 + |space2|;
    StartsAtConcat(s, d + 1, prompt, "\"");
    StartsAtConcat(s, d, "\"", prompt + "\"");
    StartsAtConcat(s, c + 1, space2, "\"" + (prompt + "\""));
    StartsAtConcat(s, c, ":", space2 + ("\"" + (prompt + "\"")));
    StartsAtConcat(s, b, name, ":" + (space2 + ("\"" + (prompt + "\""))));
    StartsAtConcat(s, a, space1, name + (":" + (space2 + ("\"" + (prompt + "\"")))));
    StartsAtConcat(s, i, "component", space1 + (name + (":" + (space2 + ("\"" + (prompt + "\""))))));
  }

  /** A span of `s` cut at the given indices into the parts of a declaration. */
  lemma ComponentSpan(s: string, i: nat, a: nat, b: nat, c: nat, d: nat, e: nat)
    requires i + 9 == a < b < c && c + 1 < d < e < |s|
    requires StartsAt(s, i, "component") && AllSpace(s[a..b]) && IsWord(s[b..c]) && s[c] == ':'
    requires AllSpace(s[c + 1..d]) && s[d] == '"' && '"' !in s[d + 1..e] && s[e] == '"'
    ensures ComponentParts(s[a..b], s[b..c], s[c + 1..d], s[d + 1..e])
    ensures StartsAt(s, i, ComponentText(s[a..b], s[b..c], s[c + 1..d], s[d + 1..e]))
    ensures |ComponentText(s[a..b], s[b..c], s[c + 1..d], s[d + 1..e])| == e + 1 - i
  {
    var space1, name, space2, prompt := s[a..b], s[b..c], s[c + 1..d], s[d + 1..e];
    StartsAtSlice(s, a, space1);
    StartsAtSlice(s, b, name);
    StartsAtSlice(s, c + 1, space2);
    StartsAtSlice(s, d + 1, prompt);
    assert StartsAt(s, c, ":") && StartsAt(s, d, "\"") && StartsAt(s, e, "\"");
    ComponentTextAt(s, i, space1, name, space2, prompt);
  }

  /** Whatever `ComponentAt` matches is a declaration: the matched text is
      `component`, white space, the name, `:`, white space and the quoted
      prompt (the returned white-space runs are the witnesses). */
  lemma ComponentAtIsDeclaration(s: string, i: nat) returns (space1: string, space2: string)
    requires ComponentAt(s, i).Some?
    ensures var m := ComponentAt(s, i).value;
            && ComponentParts(space1, m.name, space2, m.prompt)
            && StartsAt(s, i, ComponentText(space1, m.name, space2, m.prompt))
            && m.end == i + |ComponentText(space1, m.name, space2, m.prompt)|
  {
    var m := ComponentAt(s, i).value;
    var a := i + 9;
    var b := SkipSpaces(s, a);
    var c := SkipWord(s, b);
    var d := SkipSpaces(s, c + 1);
    var e := m.end - 1;
    assert m.name == s[b..c] && m.prompt == s[d + 1..e] && e < |s| && s[e] == '"' && s[d] == '"' && s[c] == ':';
    ComponentSpan(s, i, a, b, c, d, e);
    space1, space2 := s[a..b], s[c + 1..d];
  }

  /** `ComponentAt` read off the positions its scanning steps reach. */
  lemma ComponentAtFrom(s: string, i: nat, b: nat, c: nat, d: nat, e: nat)
    requires StartsAt(s, i, "component") && i + 9 < b <= |s| && SkipSpaces(s, i + 9) == b
    requires b < c < |s| && SkipWord(s, b) == c && s[c] == ':'
    requires c + 1 < d < |s| && SkipSpaces(s, c + 1) == d && s[d] == '"'
    requires NextChar(s, d + 1, '"') == Some(e)
    ensures ComponentAt(s, i) == Some(ComponentMatch(s[b..c], s[d + 1..e], i, e + 1))
  {
  }

  /** Where each part of a declaration that occurs at `i` lies. */
  lemma DeclarationSpan(s: string, i: nat, space1: string, name: string, space2: string, prompt: string)
    requires StartsAt(s, i, ComponentText(space1, name, space2, prompt))
    ensures var a := i + 9;
            var b := a + |space1|;
            var c := b + |name|;
            var d := c + 1 + |space2|;
            var e := d + 1 + |prompt|;
            && e < |s| && StartsAt(s, i, "component")
            && s[a..b] == space1 && s[b..c] == name && s[c] == ':'
            && s[c + 1..d] == space2 && s[d] == '"' && s[d + 1..e] == prompt && s[e] == '"'
  {
    var a := i + 9;
    var b := a + |space1|;
    var c := b + |name|;
    var d := c + 1 + |space2|;
    ComponentTextAt(s, i, space1, name, space2, prompt);
    StartsAtSlice(s, a, space1);
    StartsAtSlice(s, b, name);
    StartsAtSlice(s, c + 1, space2);
    StartsAtSlice(s, d + 1, prompt);
    assert s[c] == ":"[0] && s[d] == "\""[0] && s[d + 1 + |prompt|] == "\""[0];
  }

  /** The scanning steps of `ComponentAt` stop at the boundaries of the
      parts of a declaration. */
  lemma DeclarationScan(s: string, a: nat, b: nat, c: nat, d: nat, e: nat)
    requires a < b < c && c + 1 < d < e < |s|
    requires AllSpace(s[a..b]) && IsWord(s[b..c]) && s[c] == ':'
    requires AllSpace(s[c + 1..d]) && s[d] == '"' && '"' !in s[d + 1..e] && s[e] == '"'
    ensures SkipSpaces(s, a) == b && SkipWord(s, b) == c
    ensures SkipSpaces(s, c + 1) == d && NextChar(s, d + 1, '"') == Some(e)
  {
    assert s[b] == s[b..c][0];
    SkipSpacesIs(s, a, b);
    assert forall k :: b <= k < c ==> s[k] == s[b..c][k - b];
    SkipWordIs(s, b, c);
    SkipSpacesIs(s, c + 1, d);
    NextCharIs(s, d + 1, e, '"');
  }

  /** And every declaration is matched, with exactly its name and prompt. */
  lemma DeclarationIsComponentAt(s: string, i: nat, space1: string, name: string, space2: string, prompt: string)
    requires ComponentParts(space1, name, space2, prompt)
    requires StartsAt(s, i, ComponentText(space1, name, space2, prompt))
    ensures ComponentAt(s, i) == Some(ComponentMatch(name, prompt, i, i + |ComponentText(space1, name, space2, prompt)|))
  {
    var a := i + 9;
    var b := a + |space1|;
    var c := b + |name|;
    var d := c + 1 + |space2|;
    var e := d + 1 + |prompt|;
    DeclarationSpan(s, i, space1, name, space2, prompt);
    DeclarationScan(s, a, b, c, d, e);
    ComponentAtFrom(s, i, b, c, d, e);
  }

  /** `componentRegex.exec(src)` with `lastIndex` at `from`: the leftmost
      match that starts at or after `from`. */
  function ExecComponent(s: string, from: nat): (r: Option<ComponentMatch>)
    requires from <= |s|
    ensures r.Some? ==> from <= r.value.start && ComponentAt(s, r.value.start) == r
    ensures r.Some? ==> forall k :: from <= k < r.value.start ==> ComponentAt(s, k).None?
    ensures r.None? ==> forall k :: from <= k <= |s| ==> ComponentAt(s, k).None?
    decreases |s| - from
  {
    var here := ComponentAt(s, from);
    if here.Some? then here
    else if from == |s| then None
    else
      var r := ExecComponent(s, from + 1);
      assert forall k :: from <= k <= |s| && ComponentAt(s, k).Some? ==> k == from || from + 1 <= k;
      r
  }

  /** Every match the `while (match = componentRegex.exec(src))` loop sees
      once `lastIndex` is `from`, in order. */
  function ComponentMatches(s: string, from: nat): (ms: seq<ComponentMatch>)
    requires from <= |s|
    ensures forall j :: 0 <= j < |ms| ==> from <= ms[j].start && ComponentAt(s, ms[j].start) == Some(ms[j])
    ensures forall j :: 0 < j < |ms| ==> ms[j - 1].end <= ms[j].start
    decreases |s| - from
  {
    var found := ExecComponent(s, from);
    if found.None? then []
    else
      var m := found.value;
      var rest := ComponentMatches(s, m.end);
      PrependComponentMatch(s, from, m, rest);
      [m] + rest
  }

  /** A match in front of the matches that follow it keeps them in order. */
  lemma PrependComponentMatch(s: string, from: nat, m: ComponentMatch, rest: seq<ComponentMatch>)
    requires from <= m.start && ComponentAt(s, m.start) == Some(m)
    requires forall j :: 0 <= j < |rest| ==> m.end <= rest[j].start && ComponentAt(s, rest[j].start) == Some(rest[j])
    requires forall j :: 0 < j < |rest| ==> rest[j - 1].end <= rest[j].start
    ensures var ms := [m] + rest;
            forall j :: 0 <= j < |ms| ==> from <= ms[j].start && ComponentAt(s, ms[j].start) == Some(ms[j])
    ensures var ms := [m] + rest;
            forall j :: 0 < j < |ms| ==> ms[j - 1].end <= ms[j].start
  {
    var ms := [m] + rest;
    assert ms[0] == m;
    assert forall j :: 0 < j < |ms| ==> ms[j] == rest[j - 1];
  }

  /** No declaration lies between two consecutive matches: the scan skips
      only text at which the pattern fails. */
  lemma ComponentScanMissesNothing(s: string, from: nat, j: nat, k: nat)
    requires from <= |s|
    requires var ms := ComponentMatches(s, from);
             (j == 0 && from <= k && (|ms| == 0 || k < ms[0].start))
             || (0 < j <= |ms| && ms[j - 1].end <= k && (j == |ms| || k < ms[j].start))
    requires k <= |s|
    ensures ComponentAt(s, k).None?
    decreases |s| - from
  {
    var ms := ComponentMatches(s, from);
    match ExecComponent(s, from)
    case None =>
    case Some(m) =>
      if j > 0 {
        assert ms == [m] + ComponentMatches(s, m.end);
        ComponentScanMissesNothing(s, m.end, j - 1, k);
      }
  }

  // ---------------------------------------------------------------------
  // The component table

  /** The `components` object: prompts by name, and the names in the order
      `Object.keys` lists them. */
  datatype ComponentTable = ComponentTable(prompts: map<string, string>, keys: seq<string>)

  const EmptyTable := ComponentTable(map[], [])

  function DigitValue(c: char): nat {
    if '0' <= c <= '9' then c as int - '0' as int else 0
  }

  function DigitsValue(s: string): nat {
    if s == [] then 0 else DigitsValue(s[..|s| - 1]) * 10 + DigitValue(s[|s| - 1])
  }

  /** A canonical numeric string below 2^32 - 1: a property name JavaScript
      treats as an array index. */
  predicate IsArrayIndex(k: string) {
    && |k| > 0
    && (forall i :: 0 <= i < |k| ==> '0' <= k[i] <= '9')
    && (k[0] != '0' || |k| == 1)
    && DigitsValue(k) < 4294967295
  }

  /** `Object.keys` order: array-index names first, in ascending numeric
      order; every other name after them (in order of first assignment). */
  predicate KeyOrder(keys: seq<string>) {
    forall i, j :: 0 <= i < j < |keys| && IsArrayIndex(keys[j]) ==>
      IsArrayIndex(keys[i]) && DigitsValue(keys[i]) <= DigitsValue(keys[j])
  }

  predicate Distinct(keys: seq<string>) {
    forall i, j :: 0 <= i < j < |keys| ==> keys[i] != keys[j]
  }

  /** Where a new property name goes in `Object.keys` order. */
  function InsertKey(keys: seq<string>, k: string): (r: seq<string>)
    ensures |r| == |keys| + 1
    ensures forall x :: x in r <==> x in keys || x == k
    ensures !IsArrayIndex(k) ==> r == keys + [k]
  {
    if !IsArrayIndex(k) then keys + [k]
    else if keys == [] || !IsArrayIndex(keys[0]) || DigitsValue(k) < DigitsValue(keys[0]) then [k] + keys
    else [keys[0]] + InsertKey(keys[1..], k)
  }

  /** A new name inserted into distinct names leaves them distinct. */
  lemma {:induction false} InsertKeyDistinct(keys: seq<string>, k: string)
    requires Distinct(keys) && k !in keys
    ensures Distinct(InsertKey(keys, k))
  {
    if IsArrayIndex(k) && !(keys == [] || !IsArrayIndex(keys[0]) || DigitsValue(k) < DigitsValue(keys[0])) {
      var tail := keys[1..];
      assert Distinct(tail) by {
        forall i, j | 0 <= i < j < |tail| ensures tail[i] != tail[j] {
          assert tail[i] == keys[i + 1] && tail[j] == keys[j + 1];
        }
      }
      assert keys[0] !in tail by {
        forall t | 0 <= t < |tail| ensures tail[t] != keys[0] {
          assert tail[t] == keys[t + 1];
        }
      }
      InsertKeyDistinct(tail, k);
      var r, rt := InsertKey(keys, k), InsertKey(tail, k);
      assert r == [keys[0]] + rt;
      assert keys[0] !in rt;
      forall i, j | 0 <= i < j < |r| ensures r[i] != r[j] {
        if i == 0 { assert r[j] in rt; } else { assert r[i] == rt[i - 1] && r[j] == rt[j - 1]; }
      }
    }
  }

  /** Inserting a name keeps the names in `Object.keys` order. */
  lemma {:induction false} InsertKeyOrdered(keys: seq<string>, k: string)
    requires KeyOrder(keys)
    ensures KeyOrder(InsertKey(keys, k))
  {
    var r := InsertKey(keys, k);
    if !IsArrayIndex(k) {
    } else if keys == [] || !IsArrayIndex(keys[0]) || DigitsValue(k) < DigitsValue(keys[0]) {
      assert r == [k] + keys;
      forall j | 0 < j < |r| && IsArrayIndex(r[j])
        ensures DigitsValue(k) <= DigitsValue(r[j])
      {
        assert r[j] == keys[j - 1];
        if j > 1 { assert IsArrayIndex(keys[0]); }
      }
    } else {
      var tail := keys[1..];
      assert KeyOrder(tail) by {
        forall i, j | 0 <= i < j < |tail| && IsArrayIndex(tail[j])
          ensures IsArrayIndex(tail[i]) && DigitsValue(tail[i]) <= DigitsValue(tail[j])
        {
          assert tail[i] == keys[i + 1] && tail[j] == keys[j + 1];
        }
      }
      InsertKeyOrdered(tail, k);
      var rt := InsertKey(tail, k);
      assert r == [keys[0]] + rt;
      forall j | 0 < j < |r| && IsArrayIndex(r[j])
        ensures DigitsValue(keys[0]) <= DigitsValue(r[j])
      {
        assert r[j] in rt;
        if r[j] != k {
          var t :| 0 <= t < |tail| && tail[t] == r[j];
          assert keys[t + 1] == r[j];
        }
      }
    }
  }

  /** `components[name] = prompt`. */
  function Assign(t: ComponentTable, name: string, prompt: string): ComponentTable {
    ComponentTable(t.prompts[name := prompt], if name in t.prompts then t.keys else InsertKey(t.keys, name))
  }

  /** The shape every table the parser builds has. */
  predicate WellFormed(t: ComponentTable) {
    && (forall k :: k in t.prompts ==> k in t.keys)
    && (forall k :: k in t.keys ==> k in t.prompts)
    && Distinct(t.keys)
    && KeyOrder(t.keys)
    && (forall k :: k in t.prompts ==> IsWord(k) && '"' !in t.prompts[k])
  }

  /** The table after assigning every match, first to last. */
  function TableOf(ms: seq<ComponentMatch>): ComponentTable {
    if ms == [] then EmptyTable
    else
      var m := ms[|ms| - 1];
      Assign(TableOf(ms[..|ms| - 1]), m.name, m.prompt)
  }

  lemma TableOfSnoc(ms: seq<ComponentMatch>, m: ComponentMatch)
    ensures TableOf(ms + [m]) == Assign(TableOf(ms), m.name, m.prompt)
  {
    assert (ms + [m])[..|ms|] == ms;
  }

  /** The component table `compileVibeScript` builds from `src`. */
  function ComponentsOf(src: string): ComponentTable {
    TableOf(ComponentMatches(src, 0))
  }

  /** The prompt of the last match with the given name, if any. */
  function LastPrompt(ms: seq<ComponentMatch>, name: string): (r: Option<string>)
    ensures r.None? ==> forall j :: 0 <= j < |ms| ==> ms[j].name != name
    ensures r.Some? ==> exists j :: 0 <= j < |ms| && ms[j].name == name && ms[j].prompt == r.value
                          && forall j' :: j < j' < |ms| ==> ms[j'].name != name
  {
    if ms == [] then None
    else if ms[|ms| - 1].name == name then Some(ms[|ms| - 1].prompt)
    else
      var r := LastPrompt(ms[..|ms| - 1], name);
      assert forall j :: 0 <= j < |ms| - 1 ==> ms[..|ms| - 1][j] == ms[j];
      r
  }

  /** Last write wins: a name is in the table exactly when some declaration
      uses it, and then maps to the prompt of its last declaration. */
  lemma {:induction false} TableOfLastWins(ms: seq<ComponentMatch>, name: string)
    ensures name in TableOf(ms).prompts <==> LastPrompt(ms, name).Some?
    ensures name in TableOf(ms).prompts ==> TableOf(ms).prompts[name] == LastPrompt(ms, name).value
  {
    if ms != [] {
      TableOfLastWins(ms[..|ms| - 1], name);
    }
  }

  lemma {:induction false} TableOfWellFormed(ms: seq<ComponentMatch>)
    requires forall j :: 0 <= j < |ms| ==> IsWord(ms[j].name) && '"' !in ms[j].prompt
    ensures WellFormed(TableOf(ms))
  {
    if ms != [] {
      var init := ms[..|ms| - 1];
      var m := ms[|ms| - 1];
      assert forall j :: 0 <= j < |init| ==> init[j] == ms[j];
      TableOfWellFormed(init);
      var t := TableOf(init);
      if m.name !in t.prompts {
        InsertKeyDistinct(t.keys, m.name);
        InsertKeyOrdered(t.keys, m.name);
      }
    }
  }

  /** The parsed table: its names are `\w+` words, its prompts have no
      quote, its keys are listed in `Object.keys` order, and each name maps
      to the prompt of its last declaration in the source. */
  lemma ComponentsOfShape(src: string, name: string)
    ensures WellFormed(ComponentsOf(src))
    ensures name in ComponentsOf(src).prompts <==> LastPrompt(ComponentMatches(src, 0), name).Some?
    ensures name in ComponentsOf(src).prompts ==>
              ComponentsOf(src).prompts[name] == LastPrompt(ComponentMatches(src, 0), name).value
  {
    TableOfWellFormed(ComponentMatches(src, 0));
    TableOfLastWins(ComponentMatches(src, 0), name);
  }

  /** One more match moves from the remaining matches to the done ones. */
  lemma ComponentMatchesStep(s: string, from: nat, done: seq<ComponentMatch>)
    requires from <= |s| && ExecComponent(s, from).Some?
    ensures var m := ExecComponent(s, from).value;
            done + ComponentMatches(s, from) == (done + [m]) + ComponentMatches(s, m.end)
  {
    var m := ExecComponent(s, from).value;
    assert ComponentMatches(s, from) == [m] + ComponentMatches(s, m.end);
  }

  /** Lines 101-108: `while ((match = componentRegex.exec(src)))` assigning
      `components[name] = prompt` for each match. */
  method ParseComponents(src: string) returns (components: ComponentTable)
    ensures components == ComponentsOf(src)
  {
    components := EmptyTable;
    var lastIndex := 0;
    ghost var done: seq<ComponentMatch> := [];
    var found := ExecComponent(src, lastIndex);
    while found.Some?
      invariant lastIndex <= |src|
      invariant found == ExecComponent(src, lastIndex)
      invariant ComponentMatches(src, 0) == done + ComponentMatches(src, lastIndex)
      invariant components == TableOf(done)
      decreases |src| - lastIndex
    {
      var m := found.value;
      ComponentMatchesStep(src, lastIndex, done);
      TableOfSnoc(done, m);
      components := Assign(components, m.name, m.prompt);
      done := done + [m];
      lastIndex := m.end;
      found := ExecComponent(src, lastIndex);
    }
    assert done == ComponentMatches(src, 0);
    assert components == TableOf(ComponentMatches(src, 0));
  }

  // ---------------------------------------------------------------------
  // Page declarations

  /** The text of a page declaration as the pattern describes it. */
  function PageText(space: string, name: string, body: string): string {
    "page" + (space + (name + (":" + body)))
  }

  /** What each part must be: `\s+`, `\w+`, and a body (the lazy
      `[\s\S]*?`) in which no `page` starts. */
  predicate PageParts(space: string, name: string, body: string) {
    |space| > 0 && AllSpace(space) && IsWord(name) && !Contains(body, "page")
  }

  /** The match the page pattern makes starting exactly at `i`, if any. */
  function PageAt(s: string, i: nat): (r: Option<PageMatch>)
    ensures r.Some? ==> r.value.start == i < r.value.end <= |s|
    ensures r.Some? ==> IsWord(r.value.name)
    ensures r.Some? ==> r.value.end == |s| || StartsAt(s, r.value.end, "page")
  {
    if !StartsAt(s, i, "page") then None
    else
      var a := i + 4;
      var b := SkipSpaces(s, a);
      var c := SkipWord(s, b);
      if b == a || c == b || c == |s| || s[c] != ':' then None
      else
        var e := BodyEnd(s, c + 1);
        Some(PageMatch(s[b..c], s[c + 1..e], i, e))
  }

  /** `page` cannot overlap itself: two occurrences are at least four apart. */
  lemma PageNoOverlap(s: string, k: nat, e: nat)
    requires k < e && StartsAt(s, k, "page") && StartsAt(s, e, "page")
    ensures k + 4 <= e
  {
    assert s[k + 1] == "page"[1] && s[k + 2] == "page"[2] && s[k + 3] == "page"[3];
    assert s[e] == "page"[0];
  }

  /** A `BodyEnd` result is the end of the given `page`-free stretch. */
  lemma BodyEndIs(s: string, lo: nat, e: nat)
    requires lo <= e <= |s| && !Contains(s[lo..e], "page")
    requires e == |s| || StartsAt(s, e, "page")
    ensures BodyEnd(s, lo) == e
  {
    var r := BodyEnd(s, lo);
    if r < e {
      if e < |s| {
        PageNoOverlap(s, r, e);
      }
      assert StartsAt(s[lo..e], r - lo, "page") by {
        forall k | 0 <= k < 4 ensures s[lo..e][r - lo + k] == "page"[k] {
          assert s[r + k] == "page"[k];
        }
      }
    }
  }

  /** A page declaration occurs at `i` exactly when each of its parts occurs
      where the previous one ends. */
  lemma PageTextAt(s: string, i: nat, space: string, name: string, body: string)
    ensures StartsAt(s, i, PageText(space, name, body)) <==>
              && StartsAt(s, i, "page") && StartsAt(s, i + 4, space)
              && StartsAt(s, i + 4 + |space|, name)
              && StartsAt(s, i + 4 + |space| + |name|, ":")
              && StartsAt(s, i + 5 + |space| + |name|, body)
  {
    var a := i + 4;
    var b := a + |space|;
    var c := b + |name|;
    StartsAtConcat(s, c, ":", body);
    StartsAtConcat(s, b, name, ":" + body);
    StartsAtConcat(s, a, space, name + (":" + body));
    StartsAtConcat(s, i, "page", space + (name + (":" + body)));
  }

  /** A span of `s` cut at the given indices into the parts of a page declaration. */
  lemma PageSpan(s: string, i: nat, a: nat, b: nat, c: nat, e: nat)
    requires i + 4 == a < b < c < e <= |s|
    requires StartsAt(s, i, "page") && AllSpace(s[a..b]) && IsWord(s[b..c]) && s[c] == ':'
    ensures StartsAt(s, i, PageText(s[a..b], s[b..c], s[c + 1..e]))
    ensures |PageText(s[a..b], s[b..c], s[c + 1..e])| == e - i
  {
    var space, name, body := s[a..b], s[b..c], s[c + 1..e];
    StartsAtSlice(s, a, space);
    StartsAtSlice(s, b, name);
    StartsAtSlice(s, c + 1, body);
    assert StartsAt(s, c, ":");
    PageTextAt(s, i, space, name, body);
  }

  /** Whatever `PageAt` matches is a declaration: `page`, white space, the
      name, `:` and a body in which no `page` starts, running up to the next
      `page` or the end of the input (the white-space run is the witness). */
  lemma PageAtIsDeclaration(s: string, i: nat) returns (space: string)
    requires PageAt(s, i).Some?
    ensures var m := PageAt(s, i).value;
            && PageParts(space, m.name, m.body)
            && StartsAt(s, i, PageText(space, m.name, m.body))
            && m.end == i + |PageText(space, m.name, m.body)|
  {
    var m := PageAt(s, i).value;
    var a := i + 4;
    var b := SkipSpaces(s, a);
    var c := SkipWord(s, b);
    var e := BodyEnd(s, c + 1);
    assert m.name == s[b..c] && m.body == s[c + 1..e] && m.end == e && s[c] == ':';
    assert !Contains(m.body, "page") by {
      if Contains(m.body, "page") {
        var k: nat :| k <= |m.body| && StartsAt(m.body, k, "page");
        StartsAtInSlice(s, c + 1, e, k, "page");
        assert false;
      }
    }
    PageSpan(s, i, a, b, c, e);
    space := s[a..b];
  }

  /** Where each part of a page declaration that occurs at `i` lies. */
  lemma PageDeclarationSpan(s: string, i: nat, space: string, name: string, body: string)
    requires StartsAt(s, i, PageText(space, name, body))
    ensures var a := i + 4;
            var b := a + |space|;
            var c := b + |name|;
            && c + 1 + |body| <= |s| && StartsAt(s, i, "page")
            && s[a..b] == space && s[b..c] == name && s[c] == ':' && s[c + 1..c + 1 + |body|] == body
  {
    var a := i + 4;
    var b := a + |space|;
    var c := b + |name|;
    PageTextAt(s, i, space, name, body);
    StartsAtSlice(s, a, space);
    StartsAtSlice(s, b, name);
    StartsAtSlice(s, c + 1, body);
    assert s[c] == ":"[0];
  }

  /** The scanning steps of `PageAt` stop at the boundaries of the parts of
      a page declaration. */
  lemma PageDeclarationScan(s: string, a: nat, b: nat, c: nat, e: nat)
    requires a < b < c < e <= |s|
    requires AllSpace(s[a..b]) && IsWord(s[b..c]) && s[c] == ':'
    requires !Contains(s[c + 1..e], "page") && (e == |s| || StartsAt(s, e, "page"))
    ensures SkipSpaces(s, a) == b && SkipWord(s, b) == c && BodyEnd(s, c + 1) == e
  {
    assert s[b] == s[b..c][0];
    SkipSpacesIs(s, a, b);
    assert forall k :: b <= k < c ==> s[k] == s[b..c][k - b];
    SkipWordIs(s, b, c);
    BodyEndIs(s, c + 1, e);
  }

  /** `PageAt` read off the positions its scanning steps reach. */
  lemma PageAtFrom(s: string, i: nat, b: nat, c: nat, e: nat)
    requires StartsAt(s, i, "page") && i + 4 < b <= |s| && SkipSpaces(s, i + 4) == b
    requires b < c < |s| && SkipWord(s, b) == c && s[c] == ':'
    requires c < e <= |s| && BodyEnd(s, c + 1) == e
    ensures PageAt(s, i) == Some(PageMatch(s[b..c], s[c + 1..e], i, e))
  {
  }

  /** And every declaration whose body runs up to the next `page` or the
      end of input is matched, with exactly its name and body. */
  lemma DeclarationIsPageAt(s: string, i: nat, space: string, name: string, body: string)
    requires PageParts(space, name, body)
    requires StartsAt(s, i, PageText(space, name, body))
    requires var e := i + |PageText(space, name, body)|; e == |s| || StartsAt(s, e, "page")
    ensures PageAt(s, i) == Some(PageMatch(name, body, i, i + |PageText(space, name, body)|))
  {
    var a := i + 4;
    var b := a + |space|;
    var c := b + |name|;
    var e := c + 1 + |body|;
    PageDeclarationSpan(s, i, space, name, body);
    PageDeclarationScan(s, a, b, c, e);
    PageAtFrom(s, i, b, c, e);
  }

  /** `pageRegex.exec(src)` with `lastIndex` at `from`. */
  function ExecPage(s: string, from: nat): (r: Option<PageMatch>)
    requires from <= |s|
    ensures r.Some? ==> from <= r.value.start && PageAt(s, r.value.start) == r
    ensures r.Some? ==> forall k :: from <= k < r.value.start ==> PageAt(s, k).None?
    ensures r.None? ==> forall k :: from <= k <= |s| ==> PageAt(s, k).None?
    decreases |s| - from
  {
    var here := PageAt(s, from);
    if here.Some? then here
    else if from == |s| then None
    else
      var r := ExecPage(s, from + 1);
      assert forall k :: from <= k <= |s| && PageAt(s, k).Some? ==> k == from || from + 1 <= k;
      r
  }

  /** Every match the `while (match = pageRegex.exec(src))` loop sees once
      `lastIndex` is `from`, in source order; each body ends exactly where
      the next match may start. */
  function PageMatches(s: string, from: nat): (ms: seq<PageMatch>)
    requires from <= |s|
    ensures forall j :: 0 <= j < |ms| ==> from <= ms[j].start && PageAt(s, ms[j].start) == Some(ms[j])
    ensures forall j :: 0 < j < |ms| ==> ms[j - 1].end <= ms[j].start
    decreases |s| - from
  {
    var found := ExecPage(s, from);
    if found.None? then []
    else
      var m := found.value;
      var rest := PageMatches(s, m.end);
      PrependPageMatch(s, from, m, rest);
      [m] + rest
  }

  /** A match in front of the matches that follow it keeps them in order. */
  lemma PrependPageMatch(s: string, from: nat, m: PageMatch, rest: seq<PageMatch>)
    requires from <= m.start && PageAt(s, m.start) == Some(m)
    requires forall j :: 0 <= j < |rest| ==> m.end <= rest[j].start && PageAt(s, rest[j].start) == Some(rest[j])
    requires forall j :: 0 < j < |rest| ==> rest[j - 1].end <= rest[j].start
    ensures var ms := [m] + rest;
            forall j :: 0 <= j < |ms| ==> from <= ms[j].start && PageAt(s, ms[j].start) == Some(ms[j])
    ensures var ms := [m] + rest;
            forall j :: 0 < j < |ms| ==> ms[j - 1].end <= ms[j].start
  {
    var ms := [m] + rest;
    assert ms[0] == m;
    assert forall j :: 0 < j < |ms| ==> ms[j] == rest[j - 1];
  }

  function AsPages(ms: seq<PageMatch>): (pages: seq<Page>)
    ensures |pages| == |ms|
  {
    seq(|ms|, i requires 0 <= i < |ms| => Page(ms[i].name, ms[i].body))
  }

  /** The page list `compileVibeScript` builds from `src`. */
  function PagesOf(src: string): seq<Page> {
    AsPages(PageMatches(src, 0))
  }

  /** One more match moves from the remaining matches to the done ones. */
  lemma PageMatchesStep(s: string, from: nat, done: seq<PageMatch>)
    requires from <= |s| && ExecPage(s, from).Some?
    ensures var m := ExecPage(s, from).value;
            done + PageMatches(s, from) == (done + [m]) + PageMatches(s, m.end)
  {
    var m := ExecPage(s, from).value;
    assert PageMatches(s, from) == [m] + PageMatches(s, m.end);
  }

  lemma AsPagesSnoc(ms: seq<PageMatch>, m: PageMatch)
    ensures AsPages(ms + [m]) == AsPages(ms) + [Page(m.name, m.body)]
  {
  }

  /** Lines 111-117: `while ((match = pageRegex.exec(src)))` pushing
      `{ pageName, body }` for each match. */
  method ParsePages(src: string) returns (pages: seq<Page>)
    ensures pages == PagesOf(src)
  {
    pages := [];
    var lastIndex := 0;
    ghost var done: seq<PageMatch> := [];
    var found := ExecPage(src, lastIndex);
    while found.Some?
      invariant lastIndex <= |src|
      invariant found == ExecPage(src, lastIndex)
      invariant PageMatches(src, 0) == done + PageMatches(src, lastIndex)
      invariant pages == AsPages(done)
      decreases |src| - lastIndex
    {
      var m := found.value;
      PageMatchesStep(src, lastIndex, done);
      AsPagesSnoc(done, m);
      pages := pages + [Page(m.name, m.body)];
      done := done + [m];
      lastIndex := m.end;
      found := ExecPage(src, lastIndex);
    }
  }

  // ---------------------------------------------------------------------
  // Page tokens

  /** `.filter(Boolean)` on strings: drops the empty ones, keeps the order. */
  function NonEmpty(xs: seq<string>): (ys: seq<string>)
    ensures |ys| <= |xs|
    ensures forall i :: 0 <= i < |ys| ==> ys[i] != [] && ys[i] in xs
    ensures forall i :: 0 <= i < |xs| && xs[i] != [] ==> xs[i] in ys
  {
    if xs == [] then []
    else if xs[0] == [] then NonEmpty(xs[1..])
    else [xs[0]] + NonEmpty(xs[1..])
  }

  /** `filter(Boolean)` keeps exactly the non-empty strings of its input,
      each as often as it occurs there, and in their original order. */
  lemma {:induction false} NonEmptyExactly(xs: seq<string>)
    ensures IsSubsequence(NonEmpty(xs), xs)
    ensures multiset(NonEmpty(xs)) == multiset(xs)[[] := 0]
  {
    if xs != [] {
      NonEmptyExactly(xs[1..]);
      assert xs == [xs[0]] + xs[1..];
      assert multiset(xs) == multiset{xs[0]} + multiset(xs[1..]);
      if xs[0] != [] {
        var ys := NonEmpty(xs);
        assert ys[0] == xs[0] && ys[1..] == NonEmpty(xs[1..]);
        assert multiset(ys) == multiset{xs[0]} + multiset(NonEmpty(xs[1..]));
      }
    }
  }

  /** `.map((line) => line.trim())`. */
  function TrimEach(xs: seq<string>): (ys: seq<string>)
    ensures |ys| == |xs|
  {
    seq(|xs|, i requires 0 <= i < |xs| => Trim(xs[i]))
  }

  /** Lines 138-142: `body.trim().split("\n").map(trim).filter(Boolean)`. */
  function Tokens(body: string): (ts: seq<string>)
    ensures forall i :: 0 <= i < |ts| ==> ts[i] != [] && '\n' !in ts[i] && Trimmed(ts[i])
  {
    var lines := Split(Trim(body), '\n');
    TrimEachKeepsLines(lines);
    NonEmpty(TrimEach(lines))
  }

  lemma TrimEachKeepsLines(lines: seq<string>)
    requires forall i :: 0 <= i < |lines| ==> '\n' !in lines[i]
    ensures forall t :: t in TrimEach(lines) ==> '\n' !in t && Trimmed(t)
  {
    forall t | t in TrimEach(lines) ensures '\n' !in t && Trimmed(t) {
      var i :| 0 <= i < |lines| && TrimEach(lines)[i] == t;
      TrimKeepsChars(lines[i]);
    }
  }

  /** The body's lines, trimmed, empty ones dropped (without the outer trim). */
  function TrimmedLines(s: string): seq<string> {
    NonEmpty(TrimEach(Split(s, '\n')))
  }

  lemma {:induction false} NonEmptyAppend(xs: seq<string>, ys: seq<string>)
    ensures NonEmpty(xs + ys) == NonEmpty(xs) + NonEmpty(ys)
  {
    if xs == [] {
      assert xs + ys == ys;
    } else {
      assert (xs + ys)[0] == xs[0];
      assert (xs + ys)[1..] == xs[1..] + ys;
      NonEmptyAppend(xs[1..], ys);
      if xs[0] != [] {
        assert NonEmpty(xs + ys) == [xs[0]] + (NonEmpty(xs[1..]) + NonEmpty(ys));
      }
    }
  }

  lemma NonEmptyDropsEmpty(q: seq<string>)
    ensures NonEmpty([[]] + q) == NonEmpty(q)
    ensures NonEmpty(q + [[]]) == NonEmpty(q)
  {
    assert ([[]] + q)[1..] == q;
    NonEmptyAppend(q, [[]]);
    assert NonEmpty([[]]) == NonEmpty([]);
  }

  lemma TrimEachCons(x: string, xs: seq<string>)
    ensures TrimEach([x] + xs) == [Trim(x)] + TrimEach(xs)
  {
  }

  lemma TrimEachSnoc(xs: seq<string>, x: string)
    ensures TrimEach(xs + [x]) == TrimEach(xs) + [Trim(x)]
  {
  }

  lemma TrimEmpty()
    ensures Trim([]) == []
  {
  }

  /** `split` of a string with one more character in front. */
  lemma SplitCons(c: char, x: string, sep: char)
    ensures var p := Split(x, sep);
            Split([c] + x, sep) == if c == sep then [[]] + p else [[c] + p[0]] + p[1..]
  {
    assert ([c] + x)[1..] == x;
  }

  /** Leading white space contributes no token. */
  lemma {:induction false} TrimmedLinesSpacePrefix(w: string, s: string)
    requires AllSpace(w)
    ensures TrimmedLines(w + s) == TrimmedLines(s)
  {
    if w == [] {
      assert w + s == s;
    } else {
      var c := w[0];
      var x := w[1..] + s;
      assert w + s == [c] + x;
      TrimmedLinesSpacePrefix(w[1..], s);
      var p := Split(x, '\n');
      SplitCons(c, x, '\n');
      if c == '\n' {
        TrimEachCons([], p);
        TrimEmpty();
        NonEmptyDropsEmpty(TrimEach(p));
      } else {
        TrimEachCons([c] + p[0], p[1..]);
        TrimConsSpace(c, p[0]);
        TrimEachCons(p[0], p[1..]);
        assert [p[0]] + p[1..] == p;
      }
    }
  }

  /** Trailing white space contributes no token. */
  lemma {:induction false} TrimmedLinesSpaceSuffix(s: string, w: string)
    requires AllSpace(w)
    ensures TrimmedLines(s + w) == TrimmedLines(s)
    decreases |w|
  {
    if w == [] {
      assert s + w == s;
    } else {
      var c := w[|w| - 1];
      var x := s + w[..|w| - 1];
      assert s + w == x + [c];
      TrimmedLinesSpaceSuffix(s, w[..|w| - 1]);
      TrimmedLinesSnocSpace(x, c);
    }
  }

  /** One white-space character at the end contributes no token. */
  lemma TrimmedLinesSnocSpace(x: string, c: char)
    requires IsSpace(c)
    ensures TrimmedLines(x + [c]) == TrimmedLines(x)
  {
    var p := Split(x, '\n');
    if c == '\n' {
      SplitSnocSep(x, '\n');
      TrimEachSnoc(p, []);
      TrimEmpty();
      NonEmptyDropsEmpty(TrimEach(p));
    } else {
      var init, last := p[..|p| - 1], p[|p| - 1];
      SplitSnoc(x, c, '\n');
      TrimEachSnoc(init, last + [c]);
      TrimSnocSpace(last, c);
      TrimEachSnoc(init, last);
      assert init + [last] == p;
    }
  }

  /** The tokens of a body are its lines, each trimmed, empty ones dropped,
      in order: the outer `trim()` changes nothing. */
  lemma TokensAreTrimmedLines(body: string)
    ensures Tokens(body) == TrimmedLines(body)
  {
    var w1, w2 := TrimSplit(body);
    var t := Trim(body);
    SplitAround(body, w1, t, w2);
    TrimmedLinesSpacePrefix(w1, t + w2);
    TrimmedLinesSpaceSuffix(t, w2);
    TokensOfTrim(body);
  }

  lemma SplitAround(s: string, w1: string, t: string, w2: string)
    requires s == w1 + t + w2
    ensures s == w1 + (t + w2)
  {
  }

  lemma TokensOfTrim(body: string)
    ensures Tokens(body) == TrimmedLines(Trim(body))
  {
  }
}
