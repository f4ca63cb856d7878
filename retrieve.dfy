/**
 * Model selection and the query short-circuit of agents/retrieve.py.
 *
 * The hosted LLM service, the sentence embedder and the vector database are not
 * modelled: the model listing is given as a `Listing` value, the vector search as
 * the sequence of hits it returned, and text generation as an `LlmOracle` object
 * that logs every prompt it is sent (the length of the log counts the calls).
 */
module Retrieve {

  datatype Option<T> = None | Some(value: T)

  datatype Result<T> = Ok(value: T) | Err(message: string)

  /** Model names in order of preference; a name is matched as a substring. */
  const PreferredModels: seq<string> :=
    ["gemini-1.5-flash", "gemini-1.5-flash-latest", "gemini-1.5-pro", "gemini-1.0-pro", "gemini-pro"]

  /** The model used when listing fails or nothing preferred is listed. */
  const FallbackModel: string := "gemini-1.5-flash"

  const GenerateContent: string := "generateContent"

  const NoContextMessage: string := "No context retrieved from Weaviate. Did you index the PDF yet?"
  const NoTextMessage: string := "LLM returned no text."
  const Instruction: string :=
    "Answer the question using ONLY this context. If the answer is not in the context, say so.\n\n"
  const MissingKeyMessage: string := "GEMINI_API_KEY not found in environment or .env"

  // ---------------------------------------------------------------------------
  // Substrings and path segments
  // ---------------------------------------------------------------------------

  /** `pat` occurs in `s` starting at index `i`. */
  predicate OccursAt(s: string, pat: string, i: int)
  {
    0 <= i && i + |pat| <= |s| && s[i..i + |pat|] == pat
  }

  /** Python's `pat in s` on strings, searched from the left. */
  function Contains(s: string, pat: string): bool
  {
    pat <= s || (|s| > 0 && Contains(s[1..], pat))
  }

  /** The search agrees with the definition of a substring. */
  lemma {:induction false} ContainsIff(s: string, pat: string)
    ensures Contains(s, pat) <==> exists i :: OccursAt(s, pat, i)
  {
    if pat <= s {
      assert OccursAt(s, pat, 0);
    } else if |s| > 0 {
      ContainsIff(s[1..], pat);
      if Contains(s[1..], pat) {
        var i :| OccursAt(s[1..], pat, i);
        assert s[1..][i..i + |pat|] == s[i + 1..i + 1 + |pat|];
        assert OccursAt(s, pat, i + 1);
      }
      if i :| OccursAt(s, pat, i) && i > 0 {
        assert s[1..][i - 1..i - 1 + |pat|] == s[i..i + |pat|];
        assert OccursAt(s[1..], pat, i - 1);
      }
    }
  }

  /**
   * Python's `s.split("/")[-1]`: the text after the last `/` of `s`, or all of
   * `s` when it has none.
   */
  function LastSegment(s: string): (r: string)
    ensures '/' !in r
    ensures |r| <= |s| && r == s[|s| - |r|..]
    ensures |r| < |s| ==> s[|s| - |r| - 1] == '/'
  {
    if |s| == 0 then []
    else if s[|s| - 1] == '/' then []
    else LastSegment(s[..|s| - 1]) + [s[|s| - 1]]
  }

  // ---------------------------------------------------------------------------
  // Model selection
  // ---------------------------------------------------------------------------

  /**
   * One entry of the model listing; an attribute the entry lacks is `None`
   * (read as the empty name and the empty list of methods).
   */
  datatype ModelInfo = ModelInfo(name: Option<string>, supportedGenerationMethods: Option<seq<string>>)

  /** The outcome of listing the models available to the key. */
  datatype Listing = ListFailed | Listed(models: seq<ModelInfo>)

  function FullName(m: ModelInfo): string
  {
    match m.name
    case None => ""
    case Some(n) => n
  }

  predicate CanGenerate(m: ModelInfo)
  {
    match m.supportedGenerationMethods
    case None => false
    case Some(methods) => GenerateContent in methods
  }

  /** The preferred string `pref` occurs in the full name of `m`. */
  predicate Matches(pref: string, m: ModelInfo)
  {
    Contains(FullName(m), pref)
  }

  /** The models that support `generateContent`, in listing order. */
  function Eligible(models: seq<ModelInfo>): (r: seq<ModelInfo>)
    ensures |r| <= |models|
    ensures forall m :: m in r <==> m in models && CanGenerate(m)
  {
    if |models| == 0 then []
    else (if CanGenerate(models[0]) then [models[0]] else []) + Eligible(models[1..])
  }

  /** The test `pref in full` for one preferred string, as a predicate on models. */
  function MatchesPref(pref: string): ModelInfo -> bool
  {
    m => Matches(pref, m)
  }

  /** `ok` restricted to the models that support generation. */
  function EligibleAnd(ok: ModelInfo -> bool): ModelInfo -> bool
  {
    m => CanGenerate(m) && ok(m)
  }

  /** The index of the first model in `ms` that satisfies `ok`. */
  function FirstWhere(ms: seq<ModelInfo>, ok: ModelInfo -> bool): (r: Option<nat>)
    ensures r.None? ==> forall k :: 0 <= k < |ms| ==> !ok(ms[k])
    ensures r.Some? ==>
      r.value < |ms| && ok(ms[r.value]) &&
      forall k :: 0 <= k < r.value ==> !ok(ms[k])
  {
    if |ms| == 0 then None
    else if ok(ms[0]) then Some(0)
    else match FirstWhere(ms[1..], ok)
      case None => None
      case Some(k) => Some(k + 1)
  }

  /**
   * The (preference, model) index pair the nested search stops at: the earliest
   * preference matched by any model, and the first model matching it.
   */
  function Search(prefs: seq<string>, ms: seq<ModelInfo>): (r: Option<(nat, nat)>)
    ensures r.None? ==>
      forall p, k :: 0 <= p < |prefs| && 0 <= k < |ms| ==> !Matches(prefs[p], ms[k])
    ensures r.Some? ==>
      var (p, k) := r.value;
      p < |prefs| && k < |ms| && Matches(prefs[p], ms[k]) &&
      (forall p', k' :: 0 <= p' < p && 0 <= k' < |ms| ==> !Matches(prefs[p'], ms[k'])) &&
      (forall k' :: 0 <= k' < k ==> !Matches(prefs[p], ms[k']))
  {
    if |prefs| == 0 then None
    else match FirstWhere(ms, MatchesPref(prefs[0]))
      case Some(k) => Some((0, k))
      case None =>
        match Search(prefs[1..], ms)
        case None => None
        case Some((p, k)) => Some((p + 1, k))
  }

  /**
   * The choice among `models` for the preference list `prefs`: the last path
   * segment of the model the nested search stops at, or the fallback.
   */
  function PickFrom(prefs: seq<string>, models: seq<ModelInfo>): (r: string)
    ensures '/' !in r
  {
    var ms := Eligible(models);
    match Search(prefs, ms)
    case None => FallbackModel
    case Some((_, k)) => LastSegment(FullName(ms[k]))
  }

  /** The model name `_pick_available_model` returns for a given listing. */
  function Pick(listing: Listing): (r: string)
    ensures listing.ListFailed? ==> r == FallbackModel
    ensures '/' !in r
  {
    match listing
    case ListFailed => FallbackModel
    case Listed(models) => PickFrom(PreferredModels, models)
  }

  /** Model `models[k]` supports generation and its name contains `prefs[p]`. */
  predicate EligibleMatch(prefs: seq<string>, models: seq<ModelInfo>, p: int, k: int)
  {
    0 <= p < |prefs| && 0 <= k < |models| &&
    CanGenerate(models[k]) && Matches(prefs[p], models[k])
  }

  /** The first index in a list with one more element in front. */
  lemma FirstWhereCons(m: ModelInfo, rest: seq<ModelInfo>, ok: ModelInfo -> bool)
    ensures FirstWhere([m] + rest, ok)
         == if ok(m) then Some(0) else match FirstWhere(rest, ok) case None => None case Some(k) => Some(k + 1)
  {
    assert ([m] + rest)[1..] == rest;
  }

  /** The first match in the filtered list and in the whole listing agree on `models`. */
  predicate FindsSame(ok: ModelInfo -> bool, models: seq<ModelInfo>)
  {
    var inFiltered, inListing := FirstWhere(Eligible(models), ok), FirstWhere(models, EligibleAnd(ok));
    inFiltered.Some? == inListing.Some? &&
    (inListing.Some? ==> Eligible(models)[inFiltered.value] == models[inListing.value])
  }

  /** If the search agrees on the tail of a listing, it agrees on the whole listing. */
  lemma FilterThenFindStep(ok: ModelInfo -> bool, models: seq<ModelInfo>)
    requires |models| > 0 && FindsSame(ok, models[1..])
    ensures FindsSame(ok, models)
  {
    var m, tail := models[0], models[1..];
    assert models == [m] + tail;
    FirstWhereCons(m, tail, EligibleAnd(ok));
    var rest := Eligible(tail);
    if CanGenerate(m) {
      assert Eligible(models) == [m] + rest;
      FirstWhereCons(m, rest, ok);
    } else {
      assert Eligible(models) == rest;
    }
  }

  /** Searching the filtered list finds the same model as searching the whole listing. */
  lemma {:induction false} FilterThenFind(ok: ModelInfo -> bool, models: seq<ModelInfo>)
    ensures FirstWhere(Eligible(models), ok).Some? == FirstWhere(models, EligibleAnd(ok)).Some?
    ensures FirstWhere(models, EligibleAnd(ok)).Some? ==>
      Eligible(models)[FirstWhere(Eligible(models), ok).value]
        == models[FirstWhere(models, EligibleAnd(ok)).value]
  {
    if |models| == 0 {
      assert Eligible(models) == [];
    } else {
      FilterThenFind(ok, models[1..]);
      FilterThenFindStep(ok, models);
    }
  }

  /** An eligible match in the listing is a match in the filtered list. */
  lemma EligibleMatchIsFound(prefs: seq<string>, models: seq<ModelInfo>, p: int, k: int)
    requires EligibleMatch(prefs, models, p, k)
    ensures exists j :: 0 <= j < |Eligible(models)| && Eligible(models)[j] == models[k]
  {
    assert models[k] in Eligible(models);
  }

  /**
   * `models[k]` is what the preference rule selects: it matches `prefs[p]`, no
   * eligible model matches an earlier preference, and no earlier eligible model
   * matches `prefs[p]`.
   */
  ghost predicate IsPreferredChoice(prefs: seq<string>, models: seq<ModelInfo>, p: int, k: int)
  {
    EligibleMatch(prefs, models, p, k) &&
    (forall p', j :: 0 <= p' < p ==> !EligibleMatch(prefs, models, p', j)) &&
    (forall j :: 0 <= j < k ==> !EligibleMatch(prefs, models, p, j))
  }

  /** With no eligible model matching any preference, the fallback is chosen. */
  lemma PickFallback(prefs: seq<string>, models: seq<ModelInfo>)
    requires forall p, k :: !EligibleMatch(prefs, models, p, k)
    ensures PickFrom(prefs, models) == FallbackModel
  {
    var ms := Eligible(models);
    forall p, k | 0 <= p < |prefs| && 0 <= k < |ms|
      ensures !Matches(prefs[p], ms[k])
    {
      assert ms[k] in models;
      var j :| 0 <= j < |models| && models[j] == ms[k];
      assert !EligibleMatch(prefs, models, p, j);
    }
  }

  /** A preference no model of the filtered list matches has no eligible match in the listing. */
  lemma UnmatchedStaysUnmatched(prefs: seq<string>, models: seq<ModelInfo>, p: int)
    requires 0 <= p < |prefs|
    requires forall k :: 0 <= k < |Eligible(models)| ==> !Matches(prefs[p], Eligible(models)[k])
    ensures forall j :: !EligibleMatch(prefs, models, p, j)
  {
    forall j | EligibleMatch(prefs, models, p, j)
      ensures false
    {
      EligibleMatchIsFound(prefs, models, p, j);
    }
  }

  /** The model the search over the filtered list stops at, located in the whole listing. */
  lemma SearchInListing(prefs: seq<string>, models: seq<ModelInfo>) returns (j0: int)
    requires Search(prefs, Eligible(models)).Some?
    ensures var (p, k) := Search(prefs, Eligible(models)).value;
      EligibleMatch(prefs, models, p, j0) && Eligible(models)[k] == models[j0] &&
      forall j :: 0 <= j < j0 ==> !EligibleMatch(prefs, models, p, j)
  {
    var ms := Eligible(models);
    var (p, k) := Search(prefs, ms).value;
    var ok := MatchesPref(prefs[p]);
    assert FirstWhere(ms, ok) == Some(k);
    FilterThenFind(ok, models);
    j0 := FirstWhere(models, EligibleAnd(ok)).value;
  }

  /** Preferences before `p` that match nothing in the filtered list match nothing eligible. */
  lemma EarlierUnmatched(prefs: seq<string>, models: seq<ModelInfo>, p: int)
    requires p <= |prefs|
    requires forall p', k :: 0 <= p' < p && 0 <= k < |Eligible(models)| ==>
      !Matches(prefs[p'], Eligible(models)[k])
    ensures forall p', j :: 0 <= p' < p ==> !EligibleMatch(prefs, models, p', j)
  {
    forall p', j | 0 <= p' < p
      ensures !EligibleMatch(prefs, models, p', j)
    {
      UnmatchedStaysUnmatched(prefs, models, p');
    }
  }

  /**
   * The selection rule stated on the listing itself: when some eligible model
   * matches some preference, the result is the last path segment of the first
   * eligible model (in listing order) matching the earliest matched preference.
   */
  lemma PickPreferred(prefs: seq<string>, models: seq<ModelInfo>, p0: int, k0: int)
    returns (p: int, j0: int)
    requires EligibleMatch(prefs, models, p0, k0)
    ensures IsPreferredChoice(prefs, models, p, j0)
    ensures PickFrom(prefs, models) == LastSegment(FullName(models[j0]))
  {
    EligibleMatchIsFound(prefs, models, p0, k0);
    p := Search(prefs, Eligible(models)).value.0;
    j0 := SearchInListing(prefs, models);
    EarlierUnmatched(prefs, models, p);
  }

  /**
   * The preference loop of `_pick_available_model` over the eligible models `ms`,
   * with an early return on the first match.
   */
  method SearchPreferred(prefs: seq<string>, ms: seq<ModelInfo>) returns (chosen: string)
    ensures chosen == match Search(prefs, ms)
      case None => FallbackModel
      case Some((_, k)) => LastSegment(FullName(ms[k]))
  {
    var p := 0;
    while p < |prefs|
      invariant 0 <= p <= |prefs|
      invariant forall p', k :: 0 <= p' < p && 0 <= k < |ms| ==> !Matches(prefs[p'], ms[k])
    {
      var pref := prefs[p];
      var k := 0;
      while k < |ms|
        invariant 0 <= k <= |ms|
        invariant forall k' :: 0 <= k' < k ==> !Matches(pref, ms[k'])
      {
        var full := FullName(ms[k]);
        if Contains(full, pref) {
          assert Search(prefs, ms) == Some((p, k));
          return LastSegment(full);
        }
        k := k + 1;
      }
      p := p + 1;
    }
    return FallbackModel;
  }

  /** `_pick_available_model`: the fallback on a failed listing, else the preference loop. */
  method PickAvailableModel(listing: Listing) returns (chosen: string)
    ensures chosen == Pick(listing)
  {
    if listing.ListFailed? {
      return FallbackModel;
    }
    chosen := SearchPreferred(PreferredModels, Eligible(listing.models));
  }

  // ---------------------------------------------------------------------------
  // The API key
  // ---------------------------------------------------------------------------

  /**
   * `os.getenv(KEY) or ENV_FALLBACK.get(KEY)` followed by the missing-key check:
   * a non-empty environment value wins, then a non-empty value from the `.env`
   * file; otherwise the agent cannot be built.
   */
  function ResolveApiKey(env: Option<string>, dotenv: Option<string>): (r: Result<string>)
    ensures r.Ok? <==> (env.Some? && env.value != "") || (dotenv.Some? && dotenv.value != "")
    ensures r.Ok? ==> r.value != ""
    ensures env.Some? && env.value != "" ==> r == Ok(env.value)
    ensures r.Ok? && (env.None? || env.value == "") ==> r == Ok(dotenv.value)
    ensures r.Err? ==> r.message == MissingKeyMessage
  {
    var key := if env.Some? && env.value != "" then env else dotenv;
    match key
    case Some(k) => if k == "" then Err(MissingKeyMessage) else Ok(k)
    case None => Err(MissingKeyMessage)
  }

  // ---------------------------------------------------------------------------
  // Answering a query
  // ---------------------------------------------------------------------------

  /** One object returned by the near-vector search. */
  datatype Hit = Hit(content: string)

  /** The `content` of every hit, in hit order. */
  function Docs(hits: seq<Hit>): (r: seq<string>)
    ensures |r| == |hits|
    ensures forall i :: 0 <= i < |hits| ==> r[i] == hits[i].content
  {
    if |hits| == 0 then [] else [hits[0].content] + Docs(hits[1..])
  }

  /** The single prompt sent to the LLM; `rendered` stands for Python's rendering of the docs list. */
  function Prompt(rendered: string, userQuery: string): (r: string)
    ensures Instruction <= r
    ensures var tail := "Q: " + userQuery + "\nA:";
      |tail| <= |r| && r[|r| - |tail|..] == tail
  {
    var tail := "Q: " + userQuery + "\nA:";
    var r := Instruction + "CONTEXT:\n" + rendered + "\n\n" + tail;
    assert r == (Instruction + "CONTEXT:\n" + rendered + "\n\n") + tail;
    r
  }

  /** The answer made of a generation response: its text, or a default when it has none. */
  function ResponseText(resp: Option<string>): string
  {
    match resp
    case Some(t) => t
    case None => NoTextMessage
  }

  /** What one call of `query` returns and the prompts it sends, in order. */
  datatype Outcome = Outcome(answer: string, prompts: seq<string>)

  /**
   * The decision rule of `query` once the hits are in hand: without docs, the fixed
   * message and no LLM call; otherwise exactly one call with the prompt built from
   * the docs and the question, answered by the response text or the default.
   * `reply(n, prompt)` is the response to the call made after `n` earlier calls.
   */
  function QueryOutcome(userQuery: string, hits: seq<Hit>, render: seq<string> -> string,
                        reply: (nat, string) -> Option<string>, callsBefore: nat): (o: Outcome)
    ensures |hits| == 0 <==> o.prompts == []
    ensures |hits| == 0 ==> o.answer == NoContextMessage
    ensures |hits| > 0 ==>
      |o.prompts| == 1 && o.prompts[0] == Prompt(render(Docs(hits)), userQuery)
    ensures |hits| > 0 && reply(callsBefore, o.prompts[0]).None? ==> o.answer == NoTextMessage
    ensures |hits| > 0 && reply(callsBefore, o.prompts[0]).Some? ==>
      o.answer == reply(callsBefore, o.prompts[0]).value
  {
    var docs := Docs(hits);
    if |docs| == 0 then Outcome(NoContextMessage, [])
    else
      var prompt := Prompt(render(docs), userQuery);
      Outcome(ResponseText(reply(callsBefore, prompt)), [prompt])
  }

  /** `generate_content` of the hosted model, as an oracle that logs its prompts. */
  class LlmOracle {
    const modelName: string
    const reply: (nat, string) -> Option<string>
    var prompts: seq<string>

    constructor (modelName: string, reply: (nat, string) -> Option<string>)
      ensures this.modelName == modelName && this.reply == reply && prompts == []
    {
      this.modelName := modelName;
      this.reply := reply;
      prompts := [];
    }

    /** The number of generation calls made so far. */
    function Calls(): nat
      reads this
    {
      |prompts|
    }

    method Generate(prompt: string) returns (text: Option<string>)
      modifies this
      ensures prompts == old(prompts) + [prompt]
      ensures text == reply(|old(prompts)|, prompt)
    {
      text := reply(|prompts|, prompt);
      prompts := prompts + [prompt];
    }
  }

  class QueryAgent {
    const llm: LlmOracle
    const render: seq<string> -> string

    /**
     * Resolves the key (the source raises unless `ResolveApiKey` succeeds), picks
     * the model from the listing and binds the oracle to it.
     */
    constructor (env: Option<string>, dotenv: Option<string>, listing: Listing,
                 reply: (nat, string) -> Option<string>, render: seq<string> -> string)
      requires ResolveApiKey(env, dotenv).Ok?
      ensures fresh(llm) && llm.modelName == Pick(listing) && llm.reply == reply && llm.prompts == []
      ensures this.render == render
    {
      var chosen := PickAvailableModel(listing);
      llm := new LlmOracle(chosen, reply);
      this.render := render;
    }

    /** `query`, from the hits of the vector search on. */
    method Query(userQuery: string, hits: seq<Hit>) returns (answer: string)
      modifies llm
      ensures var o := QueryOutcome(userQuery, hits, render, llm.reply, old(llm.Calls()));
        answer == o.answer && llm.prompts == old(llm.prompts) + o.prompts
      ensures llm.Calls() == old(llm.Calls()) + (if |hits| == 0 then 0 else 1)
    {
      var docs := Docs(hits);
      if |docs| == 0 {
        return NoContextMessage;
      }
      var prompt := Prompt(render(docs), userQuery);
      var resp := llm.Generate(prompt);
      answer := ResponseText(resp);
    }
  }

  /**
   * Building a `QueryAgent`: without a key it fails with the missing-key error
   * (the source's `RuntimeError`) and builds nothing; with a key it is the constructor.
   */
  method NewQueryAgent(env: Option<string>, dotenv: Option<string>, listing: Listing,
                       reply: (nat, string) -> Option<string>, render: seq<string> -> string)
    returns (r: Result<QueryAgent>)
    ensures r.Err? <==> ResolveApiKey(env, dotenv).Err?
    ensures r.Err? ==> r.message == MissingKeyMessage
    ensures r.Ok? ==> fresh(r.value) && fresh(r.value.llm) && r.value.llm.modelName == Pick(listing)
    ensures r.Ok? ==> r.value.llm.reply == reply && r.value.llm.prompts == [] && r.value.render == render
  {
    var key := ResolveApiKey(env, dotenv);
    if key.Err? {
      return Err(key.message);
    }
    var agent := new QueryAgent(env, dotenv, listing, reply, render);
    return Ok(agent);
  }
}
