/**
  `getComponentCode`: the generation cache. The cache is an object from
  `hashPrompt(prompt + model)` to a cleaned artifact; a truthy entry is
  returned as is, anything else sends a request to the generator, and the
  cleaned answer is stored under the key and returned.

  The hash and the generator are parameters (`Env`): the hash is any
  function on strings (not assumed injective), the generator any function
  of prompt and model that may fail (`None`: the request throws or the
  answer has no content). Each request the generator receives is logged, so
  that "the generator is not called" can be stated.

  Line numbers in this module refer to `lib/compiler.js`.
*/
module Cache {
  import opened Text
  import opened Cleanup

  /** Why a build stops: the generator failed on a prompt, or (in the
      model only) the recursion bound for a component ran out. */
  datatype BuildError = GenerationFailed(prompt: string) | Diverged(name: string)

  datatype Result<T> = Ok(value: T) | Err(error: BuildError)

  /** The hash of line 16 and the generator of lines 33-46. */
  datatype Env = Env(hash: string -> string, generate: (string, string) -> Option<string>)

  /** A request sent to the generator. */
  datatype Request = Request(prompt: string, model: string)

  /** The cache object and the requests the generator has received. */
  datatype CacheState = CacheState(entries: map<string, string>, requests: seq<Request>)

  /** The key an artifact is stored under: the prompt, then the model. */
  function Key(env: Env, prompt: string, model: string): string {
    env.hash(prompt + model)
  }

  /** `if (obj[k])`: present and not the empty string. */
  predicate Truthy(m: map<string, string>, k: string) {
    k in m && m[k] != ""
  }

  /** One call of `getComponentCode(prompt, model)`: the result and the
      cache state afterwards. */
  function Fetch(env: Env, st: CacheState, prompt: string, model: string): (Result<string>, CacheState)
  {
    var key := Key(env, prompt, model);
    if Truthy(st.entries, key) then (Ok(st.entries[key]), st)
    else
      var requests := st.requests + [Request(prompt, model)];
      match env.generate(prompt, model)
      case None => (Err(GenerationFailed(prompt)), CacheState(st.entries, requests))
      case Some(raw) =>
        var code := Clean(raw);
        (Ok(code), CacheState(st.entries[key := code], requests))
  }

  /** A lookup of the shape of `getComponentCode`: from the cache state, the
      prompt and the model to the result and the new cache state. */
  type Fetcher = (CacheState, string, string) -> (Result<string>, CacheState)

  /** `getComponentCode` itself, as a lookup. */
  function FetchWith(env: Env): Fetcher {
    (st: CacheState, prompt: string, model: string) => Fetch(env, st, prompt, model)
  }

  /** A lookup that never forgets a request the generator received. */
  ghost predicate OnlyAddsRequests(fetch: Fetcher) {
    forall st: CacheState, prompt: string, model: string :: st.requests <= fetch(st, prompt, model).1.requests
  }

  /** A truthy entry is returned with nothing changed; otherwise the
      generator is asked once, and on success the cleaned answer is stored
      under the key and returned; on failure the entries are unchanged. No
      other key is touched. */
  lemma FetchContract(env: Env, st: CacheState, prompt: string, model: string)
    ensures var (r, key) := (Fetch(env, st, prompt, model), Key(env, prompt, model));
            Truthy(st.entries, key) ==> r == (Ok(st.entries[key]), st)
    ensures var (r, key) := (Fetch(env, st, prompt, model), Key(env, prompt, model));
            !Truthy(st.entries, key) ==>
              && r.1.requests == st.requests + [Request(prompt, model)]
              && (r.0.Ok? <==> env.generate(prompt, model).Some?)
    ensures var (r, key) := (Fetch(env, st, prompt, model), Key(env, prompt, model));
            r.0.Ok? ==> key in r.1.entries && r.1.entries[key] == r.0.value
    ensures var (r, key) := (Fetch(env, st, prompt, model), Key(env, prompt, model));
            !Truthy(st.entries, key) && r.0.Ok? ==> r.0.value == Clean(env.generate(prompt, model).value)
    ensures var r := Fetch(env, st, prompt, model);
            r.0.Err? ==> r.1.entries == st.entries && r.0.error == GenerationFailed(prompt)
    ensures var r := Fetch(env, st, prompt, model);
            forall k :: k != Key(env, prompt, model) ==>
              (k in r.1.entries <==> k in st.entries) && (k in st.entries ==> r.1.entries[k] == st.entries[k])
  {
  }

  /** Requests are only ever appended. */
  lemma FetchOnlyAddsRequests(env: Env)
    ensures OnlyAddsRequests(FetchWith(env))
  {
  }

  /** A freshly generated artifact is the cleaned answer of the generator:
      it has no white space at either end and only characters of the answer. */
  lemma FetchMissCleans(env: Env, st: CacheState, prompt: string, model: string)
    requires !Truthy(st.entries, Key(env, prompt, model))
    requires Fetch(env, st, prompt, model).0.Ok?
    ensures var code := Fetch(env, st, prompt, model).0.value;
            && Trimmed(code)
            && (forall c :: c in code ==> c in env.generate(prompt, model).value)
  {
    CleanKeepsChars(env.generate(prompt, model).value);
  }

  /** A second identical call hits: same artifact, no request, nothing
      changed, provided the first one stored a non-empty artifact. */
  lemma SecondFetchHits(env: Env, st: CacheState, prompt: string, model: string)
    requires Fetch(env, st, prompt, model).0.Ok?
    requires Fetch(env, st, prompt, model).0.value != ""
    ensures var (r1, st1) := Fetch(env, st, prompt, model);
            Fetch(env, st1, prompt, model) == (r1, st1)
  {
  }

  /** An empty artifact is falsy: a second call asks the generator again. */
  lemma EmptyArtifactRegenerates(env: Env, st: CacheState, prompt: string, model: string)
    requires Fetch(env, st, prompt, model).0 == Ok("")
    ensures var st1 := Fetch(env, st, prompt, model).1;
            Fetch(env, st1, prompt, model).1.requests == st1.requests + [Request(prompt, model)]
  {
  }

  /** The module-level `cache` object of lines 5 and 59. */
  class GenerationCache {
    var entries: map<string, string>
    var requests: seq<Request>
    const env: Env

    function State(): CacheState
      reads this
    {
      CacheState(entries, requests)
    }

    /** The cache as loaded at start-up (any map), before any request. */
    constructor (env: Env, initial: map<string, string>)
      ensures this.env == env && entries == initial && requests == []
    {
      this.env := env;
      entries := initial;
      requests := [];
    }

    /** `getComponentCode(prompt, model)`. */
    method GetComponentCode(prompt: string, model: string) returns (r: Result<string>)
      modifies this
      ensures (r, State()) == Fetch(env, old(State()), prompt, model)
    {
      var key := env.hash(prompt + model);
      if key in entries && entries[key] != "" {
        return Ok(entries[key]);
      }
      requests := requests + [Request(prompt, model)];
      var answer := env.generate(prompt, model);
      if answer.None? {
        return Err(GenerationFailed(prompt));
      }
      var code := Clean(answer.value);
      entries := entries[key := code];
      return Ok(code);
    }
  }
}
