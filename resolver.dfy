/**
  `resolveComponent`: expand a component into markup. A truthy memo entry is
  returned as is; a name without a (truthy) prompt gives `""`; otherwise the
  component's artifact is fetched, every other component name that occurs in
  it is resolved in table-key order and substituted at its whole-word
  occurrences, and the memo entry is written last.

  The source recurses without bound, so a reference cycle never ends there.
  The model takes a `fuel` bound on the nesting depth of generations and
  reports `Diverged` when it runs out; `ResolveMoreFuel` shows the bound
  never changes an answer it lets through, and `CycleNeverResolves` that a
  mutual reference never gives an answer.

  Line numbers in this module refer to `lib/compiler.js`.
*/
module Resolver {
  import opened Text
  import opened Cleanup
  import opened Cache
  import opened Parser

  // ---------------------------------------------------------------------
  // `html.replace(new RegExp(`\\b${w}\\b`, "g"), rep)`

  /** `\b` at position `i`: a word character on exactly one side. */
  predicate Boundary(s: string, i: nat)
    requires i <= |s|
  {
    (i > 0 && IsWordChar(s[i - 1])) != (i < |s| && IsWordChar(s[i]))
  }

  /** `\bw\b` matches at `i`. */
  predicate WordAt(s: string, i: nat, w: string) {
    StartsAt(s, i, w) && Boundary(s, i) && Boundary(s, i + |w|)
  }

  /** The global replace from `i` on, inserting `rep` literally at each
      whole-word occurrence of `w` (the corrected substitution). */
  function ReplaceFrom(s: string, w: string, rep: string, i: nat): string
    requires |w| > 0 && i <= |s|
    decreases |s| - i
  {
    if i == |s| then []
    else if WordAt(s, i, w) then rep + ReplaceFrom(s, w, rep, i + |w|)
    else [s[i]] + ReplaceFrom(s, w, rep, i + 1)
  }

  function ReplaceWord(s: string, w: string, rep: string): string
    requires |w| > 0
  {
    ReplaceFrom(s, w, rep, 0)
  }

  /** The replace of line 89 as written: `rep` is a replacement template, so
      its `$$`, `$&`, `` $` `` and `$'` are expanded at every match. */
  function ReplaceFromAsWritten(s: string, w: string, rep: string, i: nat): string
    requires |w| > 0 && i <= |s|
    decreases |s| - i
  {
    if i == |s| then []
    else if WordAt(s, i, w) then
      ExpandReplacement(rep, w, s[..i], s[i + |w|..]) + ReplaceFromAsWritten(s, w, rep, i + |w|)
    else [s[i]] + ReplaceFromAsWritten(s, w, rep, i + 1)
  }

  function ReplaceWordAsWritten(s: string, w: string, rep: string): string
    requires |w| > 0
  {
    ReplaceFromAsWritten(s, w, rep, 0)
  }

  /** Where `w` never occurs as a whole word (for instance only inside a
      longer word), nothing is replaced. */
  lemma {:induction false} ReplaceWithoutOccurrence(s: string, w: string, rep: string, i: nat)
    requires |w| > 0 && i <= |s|
    requires forall k: nat :: i <= k < |s| ==> !WordAt(s, k, w)
    ensures ReplaceFrom(s, w, rep, i) == s[i..]
    decreases |s| - i
  {
    if i < |s| {
      ReplaceWithoutOccurrence(s, w, rep, i + 1);
      assert s[i..] == [s[i]] + s[i + 1..];
    }
  }

  /** Replacing a word by itself changes nothing. */
  lemma {:induction false} ReplaceBySelf(s: string, w: string, i: nat)
    requires |w| > 0 && i <= |s|
    ensures ReplaceFrom(s, w, w, i) == s[i..]
    decreases |s| - i
  {
    if i < |s| {
      if WordAt(s, i, w) {
        ReplaceBySelf(s, w, i + |w|);
        StartsAtSlice(s, i, w);
        assert s[i..] == s[i..i + |w|] + s[i + |w|..];
      } else {
        ReplaceBySelf(s, w, i + 1);
        assert s[i..] == [s[i]] + s[i + 1..];
      }
    }
  }

  /** Without a `$` in the inserted markup the replace as written and the
      corrected one agree. */
  lemma {:induction false} ReplaceAgreesWithoutDollar(s: string, w: string, rep: string, i: nat)
    requires |w| > 0 && i <= |s| && '$' !in rep
    ensures ReplaceFromAsWritten(s, w, rep, i) == ReplaceFrom(s, w, rep, i)
    decreases |s| - i
  {
    if i < |s| {
      if WordAt(s, i, w) {
        ReplaceAgreesWithoutDollar(s, w, rep, i + |w|);
      } else {
        ReplaceAgreesWithoutDollar(s, w, rep, i + 1);
      }
    }
  }

  /** As written, markup holding the JavaScript literal `'$'` loses it: the
      `$'` is read as "the text after the match". */
  lemma DollarQuoteMangled()
    ensures ReplaceWordAsWritten("A", "A", "'$'") == "'"
    ensures ReplaceWord("A", "A", "'$'") == "'$'"
  {
    var s := "A";
    assert WordAt(s, 0, "A");
    assert s[..0] == "" && s[1..] == "";
    assert ExpandReplacement("'$'", "A", "", "") == "'" by {
      assert "'$'"[1..] == "$'" && "$'"[2..] == [];
      assert ExpandReplacement("$'", "A", "", "") == "";
    }
    assert ReplaceFromAsWritten(s, "A", "'$'", 1) == [];
    assert ReplaceFrom(s, "A", "'$'", 1) == [];
  }

  // ---------------------------------------------------------------------
  // Candidates: lines 81-83

  /** The other names of the table that occur in `html`, in key order. */
  function Candidates(keys: seq<string>, name: string, html: string): (r: seq<string>)
    ensures |r| <= |keys| && forall c :: c in r ==> c in keys
  {
    if keys == [] then []
    else
      var rest := Candidates(keys[1..], name, html);
      if keys[0] != name && Includes(html, keys[0]) then [keys[0]] + rest else rest
  }

  /** A candidate is exactly another name of the table that occurs in the
      artifact, and the candidates keep the order of the keys. */
  lemma {:induction false} CandidatesAre(keys: seq<string>, name: string, html: string)
    ensures forall c :: c in Candidates(keys, name, html) <==> c in keys && c != name && Includes(html, c)
    ensures IsSubsequence(Candidates(keys, name, html), keys)
  {
    if keys != [] {
      CandidatesAre(keys[1..], name, html);
      var rest := Candidates(keys[1..], name, html);
      assert forall c :: c in keys <==> c == keys[0] || c in keys[1..];
      if keys[0] != name && Includes(html, keys[0]) {
        assert ([keys[0]] + rest)[1..] == rest;
      }
    }
  }

  // ---------------------------------------------------------------------
  // The resolution

  /** Every key of a parsed table is a `\w+` word. */
  predicate Parsed(t: ComponentTable) {
    forall k :: k in t.keys ==> IsWord(k)
  }

  /** What a resolution returns and leaves behind: the memo and the cache. */
  datatype Outcome = Outcome(result: Result<string>, memo: map<string, string>, cache: CacheState)

  /** Truthy memo entries survive, keys are never removed, and requests
      are only added. */
  ghost predicate Keeps(memo: map<string, string>, st: CacheState, o: Outcome) {
    && (forall k :: Truthy(memo, k) ==> k in o.memo && o.memo[k] == memo[k])
    && memo.Keys <= o.memo.Keys
    && st.requests <= o.cache.requests
  }

  /** `resolveComponent(name, t, model, memo)`, with at most `fuel` nested
      generations. */
  function Resolve(fetch: Fetcher, t: ComponentTable, model: string, fuel: nat, name: string,
                   memo: map<string, string>, st: CacheState): Outcome
    requires Parsed(t)
    decreases fuel, 1, 0
  {
    if Truthy(memo, name) then Outcome(Ok(memo[name]), memo, st)
    else if !Truthy(t.prompts, name) then Outcome(Ok(""), memo, st)
    else if fuel == 0 then Outcome(Err(Diverged(name)), memo, st)
    else
      var (code, st1) := fetch(st, t.prompts[name], model);
      if code.Err? then Outcome(code, memo, st1)
      else
        var subs := Candidates(t.keys, name, code.value);
        var o := SubstituteAll(fetch, t, model, fuel - 1, subs, code.value, memo, st1);
        if o.result.Err? then o
        else Outcome(o.result, o.memo[name := o.result.value], o.cache)
  }

  /** The loop of lines 85-90 over the candidates `subs`, from `html`. */
  function SubstituteAll(fetch: Fetcher, t: ComponentTable, model: string, fuel: nat, subs: seq<string>,
                         html: string, memo: map<string, string>, st: CacheState): Outcome
    requires Parsed(t) && forall k :: k in subs ==> k in t.keys
    decreases fuel, 2, |subs|
  {
    if subs == [] then Outcome(Ok(html), memo, st)
    else
      var o := SubstituteAll(fetch, t, model, fuel, subs[..|subs| - 1], html, memo, st);
      if o.result.Err? then o
      else
        var sub := subs[|subs| - 1];
        assert sub in subs;
        var so := Resolve(fetch, t, model, fuel, sub, o.memo, o.cache);
        if so.result.Err? then so
        else Outcome(Ok(ReplaceWord(o.result.value, sub, so.result.value)), so.memo, so.cache)
  }

  lemma KeepsTrans(memo: map<string, string>, st: CacheState, o1: Outcome, o2: Outcome)
    requires Keeps(memo, st, o1) && Keeps(o1.memo, o1.cache, o2)
    ensures Keeps(memo, st, o2)
  {
  }

  lemma KeepsThenWrite(memo: map<string, string>, st: CacheState, st1: CacheState, o: Outcome, name: string)
    requires st.requests <= st1.requests && Keeps(memo, st1, o) && !Truthy(memo, name)
    ensures Keeps(memo, st, o)
    ensures o.result.Ok? ==> Keeps(memo, st, Outcome(o.result, o.memo[name := o.result.value], o.cache))
  {
  }

  /** When a resolution succeeds for a name that has a memo entry or a
      prompt, the memo maps the name to the returned markup (line 92). */
  lemma ResolveRecords(fetch: Fetcher, t: ComponentTable, model: string, fuel: nat, name: string,
                       memo: map<string, string>, st: CacheState)
    requires Parsed(t)
    ensures var o := Resolve(fetch, t, model, fuel, name, memo, st);
            o.result.Ok? && (Truthy(memo, name) || Truthy(t.prompts, name)) ==>
              name in o.memo && o.memo[name] == o.result.value
  {
  }

  /** A resolution keeps every truthy memo entry, removes no memo key and
      only adds requests. */
  lemma {:induction false} ResolveKeeps(fetch: Fetcher, t: ComponentTable, model: string, fuel: nat, name: string,
                                        memo: map<string, string>, st: CacheState)
    requires OnlyAddsRequests(fetch)
    requires Parsed(t)
    ensures Keeps(memo, st, Resolve(fetch, t, model, fuel, name, memo, st))
    decreases fuel, 1, 1
  {
    if !Truthy(memo, name) && Truthy(t.prompts, name) && fuel > 0 {
      ResolveKeepsGenerating(fetch, t, model, fuel, name, memo, st);
    }
  }

  lemma {:induction false} ResolveKeepsGenerating(fetch: Fetcher, t: ComponentTable, model: string, fuel: nat, name: string,
                                                  memo: map<string, string>, st: CacheState)
    requires OnlyAddsRequests(fetch)
    requires Parsed(t) && fuel > 0 && !Truthy(memo, name) && Truthy(t.prompts, name)
    ensures Keeps(memo, st, Resolve(fetch, t, model, fuel, name, memo, st))
    decreases fuel, 1, 0
  {
    var f := fetch(st, t.prompts[name], model);
    if f.0.Ok? {
      SubstituteKeeps(fetch, t, model, fuel - 1, Candidates(t.keys, name, f.0.value), f.0.value, memo, f.1);
    }
    ResolveKeepsStep(fetch, t, model, fuel, name, memo, st, f);
  }

  /** The generating case of `ResolveKeeps`, given what the loop keeps. */
  lemma ResolveKeepsStep(fetch: Fetcher, t: ComponentTable, model: string, fuel: nat, name: string,
                         memo: map<string, string>, st: CacheState, f: (Result<string>, CacheState))
    requires OnlyAddsRequests(fetch)
    requires Parsed(t) && fuel > 0 && !Truthy(memo, name) && Truthy(t.prompts, name)
    requires f == fetch(st, t.prompts[name], model)
    requires f.0.Ok? ==>
               Keeps(memo, f.1, SubstituteAll(fetch, t, model, fuel - 1, Candidates(t.keys, name, f.0.value), f.0.value, memo, f.1))
    ensures Keeps(memo, st, Resolve(fetch, t, model, fuel, name, memo, st))
  {
    ResolveUnfold(fetch, t, model, fuel, name, memo, st);
    if f.0.Ok? {
      var o := SubstituteAll(fetch, t, model, fuel - 1, Candidates(t.keys, name, f.0.value), f.0.value, memo, f.1);
      KeepsThenWrite(memo, st, f.1, o, name);
    }
  }

  lemma {:induction false} SubstituteKeeps(fetch: Fetcher, t: ComponentTable, model: string, fuel: nat, subs: seq<string>,
                                           html: string, memo: map<string, string>, st: CacheState)
    requires OnlyAddsRequests(fetch)
    requires Parsed(t) && forall k :: k in subs ==> k in t.keys
    ensures Keeps(memo, st, SubstituteAll(fetch, t, model, fuel, subs, html, memo, st))
    decreases fuel, 2, |subs|
  {
    if subs != [] {
      var init := subs[..|subs| - 1];
      SubstituteKeeps(fetch, t, model, fuel, init, html, memo, st);
      var o := SubstituteAll(fetch, t, model, fuel, init, html, memo, st);
      if o.result.Ok? {
        var sub := subs[|subs| - 1];
        assert sub in subs;
        ResolveKeeps(fetch, t, model, fuel, sub, o.memo, o.cache);
        var so := Resolve(fetch, t, model, fuel, sub, o.memo, o.cache);
        KeepsTrans(memo, st, o, so);
        if so.result.Ok? {
          KeepsTrans(memo, st, o, Outcome(Ok(ReplaceWord(o.result.value, sub, so.result.value)), so.memo, so.cache));
        }
      }
    }
  }

  /** Lines 71 and 73-76: a memo hit is returned as is, a name without a
      prompt gives `""`; neither touches the memo or the cache. */
  lemma ResolveBaseCases(fetch: Fetcher, t: ComponentTable, model: string, fuel: nat, name: string,
                         memo: map<string, string>, st: CacheState)
    requires Parsed(t)
    ensures Truthy(memo, name) ==> Resolve(fetch, t, model, fuel, name, memo, st) == Outcome(Ok(memo[name]), memo, st)
    ensures !Truthy(memo, name) && !Truthy(t.prompts, name) ==>
              Resolve(fetch, t, model, fuel, name, memo, st) == Outcome(Ok(""), memo, st)
  {
  }

  /** An artifact that names no other component is the resolved markup. */
  lemma ResolveWithoutCandidates(fetch: Fetcher, t: ComponentTable, model: string, fuel: nat, name: string,
                                 memo: map<string, string>, st: CacheState)
    requires Parsed(t) && fuel > 0
    requires !Truthy(memo, name) && Truthy(t.prompts, name)
    requires var code := fetch(st, t.prompts[name], model).0;
             code.Ok? && Candidates(t.keys, name, code.value) == []
    ensures var (code, st1) := fetch(st, t.prompts[name], model);
            Resolve(fetch, t, model, fuel, name, memo, st) == Outcome(code, memo[name := code.value], st1)
  {
  }

  /** The bound only cuts resolutions off: an answer found with some fuel is
      the answer with more, so it is the answer of the unbounded source. */
  lemma {:induction false} ResolveMoreFuel(fetch: Fetcher, t: ComponentTable, model: string, fuel: nat, name: string,
                                           memo: map<string, string>, st: CacheState)
    requires Parsed(t)
    requires Resolve(fetch, t, model, fuel, name, memo, st).result.Ok?
    ensures Resolve(fetch, t, model, fuel + 1, name, memo, st) == Resolve(fetch, t, model, fuel, name, memo, st)
    decreases fuel, 1, 0
  {
    if !Truthy(memo, name) && Truthy(t.prompts, name) && fuel > 0 {
      var (code, st1) := fetch(st, t.prompts[name], model);
      var subs := Candidates(t.keys, name, code.value);
      SubstituteMoreFuel(fetch, t, model, fuel - 1, subs, code.value, memo, st1);
    }
  }

  /** Any larger depth bound gives the same resolution as one that already
      lets it through. */
  lemma {:induction false} ResolveFuelMonotone(fetch: Fetcher, t: ComponentTable, model: string, fuel: nat, more: nat,
                                               name: string, memo: map<string, string>, st: CacheState)
    requires Parsed(t)
    requires fuel <= more
    requires Resolve(fetch, t, model, fuel, name, memo, st).result.Ok?
    ensures Resolve(fetch, t, model, more, name, memo, st) == Resolve(fetch, t, model, fuel, name, memo, st)
    decreases more - fuel
  {
    if fuel < more {
      ResolveMoreFuel(fetch, t, model, fuel, name, memo, st);
      ResolveFuelMonotone(fetch, t, model, fuel + 1, more, name, memo, st);
    }
  }

  lemma {:induction false} SubstituteMoreFuel(fetch: Fetcher, t: ComponentTable, model: string, fuel: nat, subs: seq<string>,
                                              html: string, memo: map<string, string>, st: CacheState)
    requires Parsed(t) && forall k :: k in subs ==> k in t.keys
    requires SubstituteAll(fetch, t, model, fuel, subs, html, memo, st).result.Ok?
    ensures SubstituteAll(fetch, t, model, fuel + 1, subs, html, memo, st) == SubstituteAll(fetch, t, model, fuel, subs, html, memo, st)
    decreases fuel, 2, |subs|
  {
    if subs != [] {
      var init := subs[..|subs| - 1];
      SubstituteMoreFuel(fetch, t, model, fuel, init, html, memo, st);
      var o := SubstituteAll(fetch, t, model, fuel, init, html, memo, st);
      ResolveMoreFuel(fetch, t, model, fuel, subs[|subs| - 1], o.memo, o.cache);
    }
  }

  /** One generation step of `Resolve`, spelled out. */
  lemma ResolveUnfold(fetch: Fetcher, t: ComponentTable, model: string, fuel: nat, name: string,
                      memo: map<string, string>, st: CacheState)
    requires Parsed(t) && fuel > 0 && !Truthy(memo, name) && Truthy(t.prompts, name)
    ensures var (code, st1) := fetch(st, t.prompts[name], model);
            Resolve(fetch, t, model, fuel, name, memo, st) ==
              if code.Err? then Outcome(code, memo, st1)
              else
                var o := SubstituteAll(fetch, t, model, fuel - 1, Candidates(t.keys, name, code.value), code.value, memo, st1);
                if o.result.Err? then o else Outcome(o.result, o.memo[name := o.result.value], o.cache)
  {
  }

  /** One more candidate of `SubstituteAll`, spelled out. */
  lemma SubstituteUnfold(fetch: Fetcher, t: ComponentTable, model: string, fuel: nat, subs: seq<string>, i: nat,
                         html: string, memo: map<string, string>, st: CacheState)
    requires Parsed(t) && (forall k :: k in subs ==> k in t.keys) && i < |subs|
    ensures subs[i] in t.keys
    ensures forall k :: k in subs[..i] ==> k in t.keys
    ensures forall k :: k in subs[..i + 1] ==> k in t.keys
    ensures var o := SubstituteAll(fetch, t, model, fuel, subs[..i], html, memo, st);
            o.result.Ok? ==>
              var so := Resolve(fetch, t, model, fuel, subs[i], o.memo, o.cache);
              SubstituteAll(fetch, t, model, fuel, subs[..i + 1], html, memo, st) ==
                if so.result.Err? then so
                else Outcome(Ok(ReplaceWord(o.result.value, subs[i], so.result.value)), so.memo, so.cache)
  {
    assert subs[i] in subs;
    assert subs[..i + 1][..i] == subs[..i];
    assert subs[..i + 1][i] == subs[i];
  }

  /** A failing candidate ends the loop: the later ones are not resolved. */
  lemma {:induction false} SubstituteStopsAtError(fetch: Fetcher, t: ComponentTable, model: string, fuel: nat, subs: seq<string>,
                                                  j: nat, html: string, memo: map<string, string>, st: CacheState)
    requires Parsed(t) && (forall k :: k in subs ==> k in t.keys) && j <= |subs|
    requires forall k :: k in subs[..j] ==> k in t.keys
    requires SubstituteAll(fetch, t, model, fuel, subs[..j], html, memo, st).result.Err?
    ensures SubstituteAll(fetch, t, model, fuel, subs, html, memo, st) == SubstituteAll(fetch, t, model, fuel, subs[..j], html, memo, st)
    decreases |subs| - j
  {
    if j < |subs| {
      assert subs[..j + 1][..j] == subs[..j];
      assert forall k :: k in subs[..j + 1] ==> k in subs;
      SubstituteStopsAtError(fetch, t, model, fuel, subs, j + 1, html, memo, st);
    } else {
      assert subs[..j] == subs;
    }
  }

  // ---------------------------------------------------------------------
  // A reference cycle never resolves

  /** The artifact generated for `x`'s prompt names `y`, and no other
      prompt of the table shares its cache key. */
  ghost predicate Refers(env: Env, t: ComponentTable, model: string, x: string, y: string)
    requires x in t.prompts
  {
    && env.generate(t.prompts[x], model).Some?
    && Includes(Clean(env.generate(t.prompts[x], model).value), y)
    && forall z :: z in t.prompts && Key(env, t.prompts[z], model) == Key(env, t.prompts[x], model) ==>
         t.prompts[z] == t.prompts[x]
  }

  /** Two distinct components of a parsed table, both with a prompt. */
  ghost predicate Pair(t: ComponentTable, a: string, b: string) {
    && Parsed(t) && a != b && a in t.keys && b in t.keys
    && Truthy(t.prompts, a) && Truthy(t.prompts, b)
  }

  /** Components `a` and `b` name each other. */
  ghost predicate Cycle(env: Env, t: ComponentTable, model: string, a: string, b: string) {
    && Pair(t, a, b)
    && Refers(env, t, model, a, b) && Refers(env, t, model, b, a)
  }

  /** What the cache holds for `a` names `b`, and the other way round. */
  ghost predicate CycleCache(env: Env, t: ComponentTable, model: string, a: string, b: string, st: CacheState)
    requires a in t.prompts && b in t.prompts
  {
    && (Truthy(st.entries, Key(env, t.prompts[a], model)) ==> Includes(st.entries[Key(env, t.prompts[a], model)], b))
    && (Truthy(st.entries, Key(env, t.prompts[b], model)) ==> Includes(st.entries[Key(env, t.prompts[b], model)], a))
  }

  /** A fetch for `x` that keeps the cycle in the cache and, for `a` or `b`,
      succeeds with an artifact naming the other. */
  ghost predicate FetchedInCycle(env: Env, t: ComponentTable, model: string, a: string, b: string, x: string,
                                 f: (Result<string>, CacheState))
    requires a in t.prompts && b in t.prompts
  {
    && CycleCache(env, t, model, a, b, f.1)
    && (x == a ==> f.0.Ok? && Includes(f.0.value, b))
    && (x == b ==> f.0.Ok? && Includes(f.0.value, a))
  }

  /** From a cache that holds the cycle, every fetch of a prompt of the
      table is `FetchedInCycle`. */
  ghost predicate LookupKeepsCycle(env: Env, fetch: Fetcher, t: ComponentTable, model: string, a: string, b: string)
    requires a in t.prompts && b in t.prompts
  {
    forall st: CacheState, x: string {:trigger fetch(st, t.prompts[x], model)} ::
      CycleCache(env, t, model, a, b, st) && x in t.prompts ==>
      FetchedInCycle(env, t, model, a, b, x, fetch(st, t.prompts[x], model))
  }

  /** A resolution that had to go through the cycle failed; one that
      succeeded left neither `a` nor `b` in the memo and the cycle in the
      cache. */
  ghost predicate CycleKept(env: Env, t: ComponentTable, model: string, a: string, b: string, throughCycle: bool, o: Outcome)
    requires a in t.prompts && b in t.prompts
  {
    && (throughCycle ==> o.result.Err?)
    && (o.result.Ok? ==> Unresolved(o.memo, a, b) && CycleCache(env, t, model, a, b, o.cache))
  }

  ghost predicate Unresolved(memo: map<string, string>, a: string, b: string) {
    !Truthy(memo, a) && !Truthy(memo, b)
  }

  /** With the generator of a cycle, the cache's own lookup keeps it. */
  lemma FetchInCycle(env: Env, t: ComponentTable, model: string, a: string, b: string)
    requires Cycle(env, t, model, a, b)
    ensures LookupKeepsCycle(env, FetchWith(env), t, model, a, b)
  {
    forall st: CacheState, x: string | CycleCache(env, t, model, a, b, st) && x in t.prompts
      ensures FetchedInCycle(env, t, model, a, b, x, FetchWith(env)(st, t.prompts[x], model))
    {
      FetchContract(env, st, t.prompts[x], model);
    }
  }

  /** Resolving any name from a memo that holds neither `a` nor `b`: for
      `a` or `b` it fails, and when it succeeds the memo still holds
      neither and the cache keeps the cycle. */
  lemma {:induction false} CycleResolve(env: Env, fetch: Fetcher, t: ComponentTable, model: string, a: string, b: string,
                                        fuel: nat, x: string, memo: map<string, string>, st: CacheState)
    requires Pair(t, a, b) && LookupKeepsCycle(env, fetch, t, model, a, b)
    requires CycleCache(env, t, model, a, b, st) && Unresolved(memo, a, b)
    ensures CycleKept(env, t, model, a, b, x == a || x == b, Resolve(fetch, t, model, fuel, x, memo, st))
    decreases fuel, 1, 0
  {
    if !Truthy(memo, x) && Truthy(t.prompts, x) && fuel > 0 {
      var f := fetch(st, t.prompts[x], model);
      assert FetchedInCycle(env, t, model, a, b, x, f);
      if f.0.Ok? {
        CycleSubstituteCandidates(env, fetch, t, model, a, b, fuel - 1, x, f.0.value, memo, f.1);
      }
      ResolveUnfold(fetch, t, model, fuel, x, memo, st);
    }
  }

  /** The candidates of `a`'s artifact include `b`, and the other way round. */
  lemma CandidatesInCycle(keys: seq<string>, a: string, b: string, x: string, html: string)
    requires a != b && a in keys && b in keys
    requires x == a ==> Includes(html, b)
    requires x == b ==> Includes(html, a)
    ensures x == a ==> b in Candidates(keys, x, html)
    ensures x == b ==> a in Candidates(keys, x, html)
  {
    CandidatesAre(keys, x, html);
  }

  lemma {:induction false} CycleSubstituteCandidates(env: Env, fetch: Fetcher, t: ComponentTable, model: string,
                                                     a: string, b: string, fuel: nat, x: string, html: string,
                                                     memo: map<string, string>, st: CacheState)
    requires Pair(t, a, b) && LookupKeepsCycle(env, fetch, t, model, a, b)
    requires CycleCache(env, t, model, a, b, st) && Unresolved(memo, a, b)
    requires x == a ==> Includes(html, b)
    requires x == b ==> Includes(html, a)
    ensures CycleKept(env, t, model, a, b, x == a || x == b,
                      SubstituteAll(fetch, t, model, fuel, Candidates(t.keys, x, html), html, memo, st))
    decreases fuel, 2, |t.keys| + 1
  {
    CandidatesInCycle(t.keys, a, b, x, html);
    CycleSubstitute(env, fetch, t, model, a, b, fuel, Candidates(t.keys, x, html), html, memo, st);
  }

  lemma {:induction false} CycleSubstitute(env: Env, fetch: Fetcher, t: ComponentTable, model: string, a: string, b: string,
                                           fuel: nat, subs: seq<string>, html: string, memo: map<string, string>, st: CacheState)
    requires Pair(t, a, b) && LookupKeepsCycle(env, fetch, t, model, a, b)
    requires CycleCache(env, t, model, a, b, st) && Unresolved(memo, a, b)
    requires forall k :: k in subs ==> k in t.keys
    ensures CycleKept(env, t, model, a, b, a in subs || b in subs, SubstituteAll(fetch, t, model, fuel, subs, html, memo, st))
    decreases fuel, 2, |subs|
  {
    if subs != [] {
      var init := subs[..|subs| - 1];
      var sub := subs[|subs| - 1];
      assert sub in subs;
      assert forall k :: k in subs <==> k in init || k == sub;
      CycleSubstitute(env, fetch, t, model, a, b, fuel, init, html, memo, st);
      var o := SubstituteAll(fetch, t, model, fuel, init, html, memo, st);
      if o.result.Ok? {
        CycleResolve(env, fetch, t, model, a, b, fuel, sub, o.memo, o.cache);
      }
    }
  }

  /** Components that name each other never resolve, whatever the bound:
      the source recurses between them forever. */
  lemma CycleNeverResolves(env: Env, t: ComponentTable, model: string, a: string, b: string,
                           fuel: nat, memo: map<string, string>, st: CacheState)
    requires Cycle(env, t, model, a, b) && CycleCache(env, t, model, a, b, st) && Unresolved(memo, a, b)
    ensures Resolve(FetchWith(env), t, model, fuel, a, memo, st).result.Err?
    ensures Resolve(FetchWith(env), t, model, fuel, b, memo, st).result.Err?
  {
    FetchInCycle(env, t, model, a, b);
    CycleResolve(env, FetchWith(env), t, model, a, b, fuel, a, memo, st);
    CycleResolve(env, FetchWith(env), t, model, a, b, fuel, b, memo, st);
  }

  /** The memo of `resolveComponent`: the object `resolved` shared by all
      calls made for one page. */
  class Memo {
    var entries: map<string, string>

    constructor ()
      ensures entries == map[]
    {
      entries := map[];
    }
  }

  /** `resolveComponent(name, t, model, memo)`. */
  method ResolveComponent(name: string, t: ComponentTable, model: string, memo: Memo,
                          cache: GenerationCache, fuel: nat) returns (r: Result<string>)
    requires Parsed(t)
    modifies memo, cache
    ensures Outcome(r, memo.entries, cache.State()) ==
            Resolve(FetchWith(cache.env), t, model, fuel, name, old(memo.entries), old(cache.State()))
    decreases fuel, 1
  {
    if name in memo.entries && memo.entries[name] != "" {
      return Ok(memo.entries[name]);
    }
    if !(name in t.prompts && t.prompts[name] != "") {
      return Ok("");
    }
    if fuel == 0 {
      return Err(Diverged(name));
    }
    ResolveUnfold(FetchWith(cache.env), t, model, fuel, name, memo.entries, cache.State());
    var code := cache.GetComponentCode(t.prompts[name], model);
    if code.Err? {
      return code;
    }
    var subs := Candidates(t.keys, name, code.value);
    r := SubstituteCandidates(subs, code.value, t, model, memo, cache, fuel - 1);
    if r.Ok? {
      memo.entries := memo.entries[name := r.value];
    }
  }

  /** The loop of lines 85-90: resolve each candidate in turn and substitute
      it at its whole-word occurrences. */
  method SubstituteCandidates(subs: seq<string>, html: string, t: ComponentTable, model: string, memo: Memo,
                              cache: GenerationCache, fuel: nat) returns (r: Result<string>)
    requires Parsed(t) && forall k :: k in subs ==> k in t.keys
    modifies memo, cache
    ensures Outcome(r, memo.entries, cache.State()) ==
            SubstituteAll(FetchWith(cache.env), t, model, fuel, subs, html, old(memo.entries), old(cache.State()))
    decreases fuel, 2
  {
    ghost var memo0 := memo.entries;
    ghost var st0 := cache.State();
    var current := html;
    assert subs[..0] == [];
    var i := 0;
    while i < |subs|
      invariant i <= |subs|
      invariant SubstituteAll(FetchWith(cache.env), t, model, fuel, subs[..i], html, memo0, st0) ==
                Outcome(Ok(current), memo.entries, cache.State())
    {
      SubstituteUnfold(FetchWith(cache.env), t, model, fuel, subs, i, html, memo0, st0);
      var sub := ResolveComponent(subs[i], t, model, memo, cache, fuel);
      if sub.Err? {
        SubstituteStopsAtError(FetchWith(cache.env), t, model, fuel, subs, i + 1, html, memo0, st0);
        return sub;
      }
      current := ReplaceWord(current, subs[i], sub.value);
      i := i + 1;
    }
    assert subs[..i] == subs;
    return Ok(current);
  }
}
