/** The conversational agent: a table of sessions, each filled in over
    several turns. A turn asks the language model for fields with
    confidences, keeps the fields whose confidence is above 0.7, works out
    which fields are still outstanding (the child's name only while the
    sign-up type is "child" or not yet known), and either asks for the first
    outstanding field or posts everything collected to the webhook. The
    completion call, `json.loads`, the POST, `uuid4` and `time.time` are
    inputs. */
module Conversation {
  import opened Text
  import opened Values
  import opened Webhook
  import opened JsonLocate

  /** The keys of `required_fields`, in declaration order. */
  const SchemaFields: seq<string> := ["adult_name", "email_address", "signup_type", "child_name"]
  /** Extracted fields are kept only with a confidence strictly above this. */
  const Threshold: real := 0.7
  const GreetingStep: string := "greeting"
  const CompletionMessage: string :=
    "Perfect! I have all the information needed. Let me submit your request now."

  /** A field required only while `field` holds `value`. */
  datatype Condition = Condition(field: string, value: string)

  /** The `conditional` entry of a field of `required_fields`. */
  function ConditionOf(field: string): Option<Condition> {
    if field == "child_name" then Some(Condition("signup_type", "child")) else None
  }

  /** The question asked for a field, with the options of a choice field. */
  function QuestionText(field: string): string {
    if field == "adult_name" then "What is your full name?"
    else if field == "email_address" then "What is your email address?"
    else if field == "signup_type" then
      "Are you signing up for yourself or for your child?" + " (Please say self or child)"
    else "What is your child's full name?"
  }

  datatype Speaker = User | Agent

  /** One entry of `conversation_history`; the timestamp is opaque. */
  datatype Turn = Turn(speaker: Speaker, message: string, timestamp: real)

  /** One entry of the session table. */
  datatype Session = Session(
    collectedData: Dict,
    conversationHistory: seq<Turn>,
    currentStep: string,
    missingFields: seq<string>)

  /** The fields a dictionary update may replace (`dict.update`): each
      present component overwrites that key of the session. */
  datatype SessionPatch = SessionPatch(
    collectedData: Option<Dict>,
    conversationHistory: Option<seq<Turn>>,
    currentStep: Option<string>,
    missingFields: Option<seq<string>>)
  {
    function ApplyTo(s: Session): (r: Session)
      ensures collectedData.None? ==> r.collectedData == s.collectedData
      ensures conversationHistory.None? ==> r.conversationHistory == s.conversationHistory
      ensures currentStep.None? ==> r.currentStep == s.currentStep
      ensures missingFields.None? ==> r.missingFields == s.missingFields
      ensures collectedData.Some? ==> r.collectedData == collectedData.value
      ensures conversationHistory.Some? ==> r.conversationHistory == conversationHistory.value
      ensures currentStep.Some? ==> r.currentStep == currentStep.value
      ensures missingFields.Some? ==> r.missingFields == missingFields.value
    {
      Session(
        if collectedData.Some? then collectedData.value else s.collectedData,
        if conversationHistory.Some? then conversationHistory.value else s.conversationHistory,
        if currentStep.Some? then currentStep.value else s.currentStep,
        if missingFields.Some? then missingFields.value else s.missingFields)
    }
  }

  /** The parsed reply of `extract_information`: `extracted_fields` and
      `confidence` (each `{}` when the reply lacks it). */
  datatype Extraction = Extraction(extractedFields: Dict, confidence: map<string, real>)

  const NoExtraction: Extraction := Extraction(map[], map[])

  /** What `generate_response` returns. */
  datatype TurnResult =
    | Question(askingFor: string, dataCollected: Dict, missingFields: seq<string>)
    | Completion(dataCollected: Dict, webhookResult: WebhookOutcome)

  /** What `continue_conversation` returns: the turn's result tagged with the
      session id, or the "session not found" error (`session_complete: True`). */
  datatype Reply = SessionNotFound | Reply(sessionId: string, result: TurnResult)

  /** What `start_conversation` returns. */
  datatype Greeting = Greeting(sessionId: string, askingFor: string)

  /** The `session_complete` flag of a reply. */
  predicate SessionComplete(r: Reply) {
    r.SessionNotFound? || r.result.Completion?
  }

  /** The agent's message recorded in the history (the acknowledgement
      prefix of a question is not modelled). */
  function MessageOf(result: TurnResult): string {
    match result
    case Question(field, _, _) => QuestionText(field)
    case Completion(_, _) => CompletionMessage
  }

  /** The entry `create_session` stores. */
  function NewSession(): (s: Session)
    ensures MissingWellFormed(s.missingFields)
    ensures forall f :: f in SchemaFields ==> f in s.missingFields
    ensures s.missingFields != [] && s.missingFields[0] == "adult_name"
    ensures s.collectedData == map[] && s.conversationHistory == []
  {
    Session(map[], [], GreetingStep, SchemaFields)
  }

  // ---------------------------------------------------------------------
  // Lists of outstanding fields

  predicate Distinct(s: seq<string>) {
    forall i, j | 0 <= i < j < |s| :: s[i] != s[j]
  }

  /** The shape every session's `missing_fields` keeps: schema fields, each
      at most once. */
  predicate MissingWellFormed(s: seq<string>) {
    Distinct(s) && forall k | 0 <= k < |s| :: s[k] in SchemaFields
  }

  /** `s` with every element of `xs` filtered out, order kept. */
  function Without(s: seq<string>, xs: set<string>): (r: seq<string>)
    ensures |r| <= |s|
    ensures forall x {:trigger x in r} :: x in r <==> x in s && x !in xs
  {
    if s == [] then [] else (if s[0] in xs then [] else [s[0]]) + Without(s[1..], xs)
  }

  /** Python's `s.remove(x)` on a list that holds `x`: its first occurrence
      is dropped. */
  function RemoveFirst(s: seq<string>, x: string): (r: seq<string>)
    ensures x in s ==> |r| == |s| - 1 && multiset(r) == multiset(s) - multiset{x}
    ensures x !in s ==> r == s
  {
    if s == [] then []
    else
      assert s == [s[0]] + s[1..];
      if s[0] == x then s[1..] else [s[0]] + RemoveFirst(s[1..], x)
  }

  /** `a` is `b` with some elements left out, order kept. */
  predicate IsSubsequence(a: seq<string>, b: seq<string>)
    decreases |b|
  {
    if a == [] then true
    else if b == [] then false
    else (a[0] == b[0] && IsSubsequence(a[1..], b[1..])) || IsSubsequence(a, b[1..])
  }

  lemma {:induction false} WithoutIsSubsequence(s: seq<string>, xs: set<string>)
    ensures IsSubsequence(Without(s, xs), s)
  {
    if s != [] {
      WithoutIsSubsequence(s[1..], xs);
      var t := Without(s, xs);
      if s[0] !in xs {
        assert t == [s[0]] + Without(s[1..], xs);
        assert t[0] == s[0] && t[1..] == Without(s[1..], xs);
      } else {
        assert t == Without(s[1..], xs);
      }
    }
  }

  lemma {:induction false} WithoutDistinct(s: seq<string>, xs: set<string>)
    requires Distinct(s)
    ensures Distinct(Without(s, xs))
  {
    if s != [] {
      WithoutDistinct(s[1..], xs);
      var rest := Without(s[1..], xs);
      assert s[0] !in s[1..];
      assert s[0] !in rest;
      if s[0] !in xs {
        var r := [s[0]] + rest;
        assert Without(s, xs) == r;
        forall i, j | 0 <= i < j < |r|
          ensures r[i] != r[j]
        {
          if i == 0 {
            assert r[j] == rest[j - 1] && r[j] in rest;
          } else {
            assert r[i] == rest[i - 1] && r[j] == rest[j - 1];
          }
        }
      }
    }
  }

  lemma {:induction false} WithoutTwice(s: seq<string>, xs: set<string>, ys: set<string>)
    ensures Without(Without(s, xs), ys) == Without(s, xs + ys)
  {
    if s != [] {
      WithoutTwice(s[1..], xs, ys);
      var rest := Without(s[1..], xs);
      if s[0] in xs {
        assert Without(s, xs) == rest;
        assert Without(s, xs + ys) == Without(s[1..], xs + ys);
      } else {
        var t := [s[0]] + rest;
        assert Without(s, xs) == t;
        assert t[0] == s[0] && t[1..] == rest;
        assert Without(t, ys) == (if s[0] in ys then [] else [s[0]]) + Without(rest, ys);
        assert Without(s, xs + ys) == (if s[0] in ys then [] else [s[0]]) + Without(s[1..], xs + ys);
      }
    }
  }

  lemma {:induction false} WithoutNothing(s: seq<string>, xs: set<string>)
    requires forall x :: x in xs ==> x !in s
    ensures Without(s, xs) == s
  {
    if s != [] {
      WithoutNothing(s[1..], xs);
    }
  }

  lemma {:induction false} RemoveFirstDistinct(s: seq<string>, x: string)
    requires Distinct(s)
    ensures RemoveFirst(s, x) == Without(s, {x})
  {
    if s != [] {
      if s[0] == x {
        assert x !in s[1..];
        WithoutNothing(s[1..], {x});
      } else {
        RemoveFirstDistinct(s[1..], x);
      }
    }
  }

  /** Filtering one more field out of a duplicate-free list is what
      `if field in missing: missing.remove(field)` does. */
  lemma WithoutOneMore(s: seq<string>, xs: set<string>, x: string)
    requires Distinct(s)
    ensures Without(s, xs + {x}) ==
      if x in Without(s, xs) then RemoveFirst(Without(s, xs), x) else Without(s, xs)
  {
    WithoutTwice(s, xs, {x});
    WithoutDistinct(s, xs);
    RemoveFirstDistinct(Without(s, xs), x);
    if x !in Without(s, xs) {
      WithoutNothing(Without(s, xs), {x});
    }
  }

  lemma {:induction false} WithoutSnoc(s: seq<string>, x: string, xs: set<string>)
    ensures Without(s + [x], xs) == Without(s, xs) + (if x in xs then [] else [x])
  {
    if s == [] {
      assert s + [x] == [x];
    } else {
      var h := if s[0] in xs then [] else [s[0]];
      var tail := if x in xs then [] else [x];
      assert (s + [x])[0] == s[0] && (s + [x])[1..] == s[1..] + [x];
      WithoutSnoc(s[1..], x, xs);
      var rest := Without(s[1..], xs);
      assert Without(s + [x], xs) == h + (rest + tail);
      assert h + (rest + tail) == (h + rest) + tail;
    }
  }

  // ---------------------------------------------------------------------
  // One turn, as a specification

  /** `confidence_scores.get(field, 0)`. */
  function Confidence(e: Extraction, field: string): real {
    if field in e.confidence then e.confidence[field] else 0.0
  }

  /** A field is merged when it is a schema field and its confidence is
      strictly above the threshold. */
  predicate Accepts(e: Extraction, field: string) {
    field in e.extractedFields && field in SchemaFields && Confidence(e, field) > Threshold
  }

  function AcceptedFields(e: Extraction): set<string> {
    set f | f in e.extractedFields && Accepts(e, f)
  }

  /** `new_data`: the accepted fields with their extracted values. */
  function NewData(e: Extraction): Dict {
    map f | f in AcceptedFields(e) :: e.extractedFields[f]
  }

  /** `collected_data.update(new_data)`. */
  function Merge(collected: Dict, e: Extraction): (merged: Dict)
    ensures merged.Keys == collected.Keys + AcceptedFields(e)
  {
    collected + NewData(e)
  }

  /** Whether `field` is still required given what has been collected: an
      unconditional field always is; a conditional one while its dependency
      holds the trigger value or has not been collected. */
  predicate StillRequired(field: string, collected: Dict) {
    match ConditionOf(field)
    case None => true
    case Some(c) => Get(collected, c.field) == Str(c.value) || c.field !in collected
  }

  /** The schema fields whose condition has failed. */
  function Dropped(collected: Dict): set<string> {
    set f | f in SchemaFields && !StillRequired(f, collected)
  }

  /** The outstanding fields after a turn: the accepted fields are removed
      from `missing_fields`, then the fields no longer required. */
  function NextMissing(s: Session, e: Extraction): seq<string> {
    Without(Without(s.missingFields, AcceptedFields(e)), Dropped(Merge(s.collectedData, e)))
  }

  /** What `generate_response` returns for a session and an extraction. */
  function TurnSpec(s: Session, e: Extraction, http: HttpResult): TurnResult {
    var collected := Merge(s.collectedData, e);
    var missing := NextMissing(s, e);
    if missing == [] then Completion(collected, SendWebhook(collected, http))
    else Question(missing[0], collected, missing)
  }

  /** The session entry after a turn on it. */
  function AfterTurn(s: Session, userInput: string, result: TurnResult, userTime: real, agentTime: real): (after: Session)
    ensures |after.conversationHistory| == |s.conversationHistory| + 2
    ensures after.conversationHistory[..|s.conversationHistory|] == s.conversationHistory
    ensures after.conversationHistory[|s.conversationHistory|] == Turn(User, userInput, userTime)
    ensures after.conversationHistory[|s.conversationHistory| + 1].speaker == Agent
    ensures after.currentStep == s.currentStep
  {
    Session(
      result.dataCollected,
      s.conversationHistory + [Turn(User, userInput, userTime), Turn(Agent, MessageOf(result), agentTime)],
      s.currentStep,
      if result.Question? then result.missingFields else [])
  }

  /** `extract_information`: the decoded JSON candidate of the stripped
      reply, or nothing when the completion call raised, the reply has no
      `{`/`}` pair, or the candidate does not decode. Only a decoded
      candidate yields any field. */
  function ExtractInformation(reply: Option<string>, decode: string -> Option<Extraction>): (e: Extraction)
    ensures e != NoExtraction ==>
      && reply.Some?
      && LocateJson(Strip(reply.value)).Some?
      && decode(LocateJson(Strip(reply.value)).value) == Some(e)
    ensures reply.Some? && LocateJson(Strip(reply.value)).Some?
            && decode(LocateJson(Strip(reply.value)).value).Some? ==>
      e == decode(LocateJson(Strip(reply.value)).value).value
  {
    match reply
    case None => NoExtraction
    case Some(text) =>
      var located := LocateJson(Strip(text));
      if located.Some? && decode(located.value).Some? then decode(located.value).value
      else NoExtraction
  }

  // ---------------------------------------------------------------------
  // Properties of a turn

  /** Confidence gate: an accepted field takes its extracted value, over
      any earlier one; every other collected field keeps its value; no key is
      removed, and nothing but accepted fields is added. */
  lemma ConfidenceGate(collected: Dict, e: Extraction)
    ensures var merged := Merge(collected, e);
      && collected.Keys <= merged.Keys
      && (forall f :: f in merged <==> f in collected || Accepts(e, f))
      && (forall f :: Accepts(e, f) ==> merged[f] == e.extractedFields[f])
      && (forall f :: f in collected && !Accepts(e, f) ==> merged[f] == collected[f])
  {
  }

  /** The outstanding fields after a turn are the earlier ones, in their
      order, minus the accepted fields and minus the child's name once the
      sign-up type has been collected with a value other than "child". */
  lemma NextMissingSpec(s: Session, e: Extraction)
    ensures IsSubsequence(NextMissing(s, e), s.missingFields)
    ensures forall f :: f in NextMissing(s, e) <==>
      f in s.missingFields && !Accepts(e, f) && (f in SchemaFields ==> StillRequired(f, Merge(s.collectedData, e)))
    ensures var merged := Merge(s.collectedData, e);
      "child_name" in NextMissing(s, e) <==>
        && "child_name" in s.missingFields && !Accepts(e, "child_name")
        && (Get(merged, "signup_type") == Str("child") || "signup_type" !in merged)
  {
    var merged := Merge(s.collectedData, e);
    var gone := AcceptedFields(e) + Dropped(merged);
    var next := NextMissing(s, e);
    WithoutTwice(s.missingFields, AcceptedFields(e), Dropped(merged));
    assert next == Without(s.missingFields, gone);
    WithoutIsSubsequence(s.missingFields, gone);
    forall f
      ensures f in next <==>
        f in s.missingFields && !Accepts(e, f) && (f in SchemaFields ==> StillRequired(f, merged))
    {
      assert f in next <==> f in s.missingFields && f !in gone;
      assert f in gone <==> Accepts(e, f) || (f in SchemaFields && !StillRequired(f, merged));
    }
    assert "child_name" in SchemaFields;
    assert StillRequired("child_name", merged) <==>
      Get(merged, "signup_type") == Str("child") || "signup_type" !in merged;
  }

  /** A turn completes exactly when nothing is outstanding, posting the merged
      data once; otherwise it asks for the first outstanding field. */
  lemma TurnOutcome(s: Session, e: Extraction, http: HttpResult)
    ensures var r := TurnSpec(s, e, http);
      && r.dataCollected == Merge(s.collectedData, e)
      && (r.Completion? <==> NextMissing(s, e) == [])
      && (r.Completion? ==> r.webhookResult.sentData == Merge(s.collectedData, e))
      && (r.Completion? ==> (r.webhookResult.success <==> http.Response? && http.statusCode == 200))
      && (r.Question? ==> r.missingFields == NextMissing(s, e) && r.askingFor == r.missingFields[0])
  {
  }

  /** The reply's `session_complete` flag is set exactly when the turn found
      nothing outstanding. */
  lemma CompleteIffNothingOutstanding(id: string, s: Session, e: Extraction, http: HttpResult)
    ensures SessionComplete(Reply(id, TurnSpec(s, e, http))) <==> NextMissing(s, e) == []
  {
  }

  /** A completed session is not closed: its outstanding list is empty, so
      every later turn on it completes again and posts again. */
  lemma {:induction false} CompletionRepeats(
    s: Session, e: Extraction, http: HttpResult, userInput: string, t1: real, t2: real,
    next: Extraction, nextHttp: HttpResult)
    requires TurnSpec(s, e, http).Completion?
    ensures var after := AfterTurn(s, userInput, TurnSpec(s, e, http), t1, t2);
      && after.missingFields == []
      && TurnSpec(after, next, nextHttp).Completion?
      && TurnSpec(after, next, nextHttp).webhookResult.sentData == Merge(after.collectedData, next)
  {
    var after := AfterTurn(s, userInput, TurnSpec(s, e, http), t1, t2);
    assert Without([], AcceptedFields(next)) == [];
    assert NextMissing(after, next) == Without([], Dropped(Merge(after.collectedData, next)));
  }

  /** A reply without a decodable JSON object leaves the collected data as
      it was. */
  lemma NoExtractionKeepsData(s: Session, reply: Option<string>, decode: string -> Option<Extraction>, http: HttpResult)
    requires ExtractInformation(reply, decode) == NoExtraction
    ensures TurnSpec(s, ExtractInformation(reply, decode), http).dataCollected == s.collectedData
  {
    MergeNothing(s.collectedData);
    TurnOutcome(s, NoExtraction, http);
  }

  lemma MergeNothing(collected: Dict)
    ensures Merge(collected, NoExtraction) == collected
  {
    assert AcceptedFields(NoExtraction) == {};
    assert NewData(NoExtraction) == map[];
  }

  /** Extracted values are never validated: a confident "myself" is stored as
      the sign-up type, and it drops the child's name from the outstanding
      fields as any value other than "child" would. */
  lemma UnvalidatedSignupType(http: HttpResult)
    ensures var e := Extraction(map["signup_type" := Str("myself")], map["signup_type" := 0.9]);
      && Merge(NewSession().collectedData, e)["signup_type"] == Str("myself")
      && "child_name" !in NextMissing(NewSession(), e)
      && TurnSpec(NewSession(), e, http) == Question("adult_name", map["signup_type" := Str("myself")], ["adult_name", "email_address"])
  {
    var e := Extraction(map["signup_type" := Str("myself")], map["signup_type" := 0.9]);
    var merged := map["signup_type" := Str("myself")];
    MyselfMerged(e);
    MyselfDropsChild(merged);
    var first := Without(SchemaFields, {"signup_type"});
    SchemaWithoutSignupType();
    assert Without(first, {"child_name"}) == ["adult_name", "email_address"] by {
      PairWithoutChild();
    }
    assert NextMissing(NewSession(), e) == Without(first, {"child_name"});
  }

  lemma MyselfMerged(e: Extraction)
    requires e == Extraction(map["signup_type" := Str("myself")], map["signup_type" := 0.9])
    ensures AcceptedFields(e) == {"signup_type"}
    ensures Merge(map[], e) == map["signup_type" := Str("myself")]
  {
    assert Accepts(e, "signup_type");
  }

  lemma MyselfDropsChild(merged: Dict)
    requires merged == map["signup_type" := Str("myself")]
    ensures Dropped(merged) == {"child_name"}
  {
    assert !StillRequired("child_name", merged);
  }

  lemma SchemaWithoutSignupType()
    ensures Without(SchemaFields, {"signup_type"}) == ["adult_name", "email_address", "child_name"]
  {
    var s := SchemaFields;
    assert s[1..] == ["email_address", "signup_type", "child_name"];
    assert s[1..][1..] == ["signup_type", "child_name"];
    assert s[1..][1..][1..] == ["child_name"];
    assert Without(["child_name"], {"signup_type"}) == ["child_name"];
  }

  lemma PairWithoutChild()
    ensures Without(["adult_name", "email_address", "child_name"], {"child_name"}) == ["adult_name", "email_address"]
  {
    var s := ["adult_name", "email_address", "child_name"];
    assert s[1..] == ["email_address", "child_name"];
    assert s[1..][1..] == ["child_name"];
    assert Without(["child_name"], {"child_name"}) == [];
  }

  /** Every list a turn leaves behind keeps the shape of `missing_fields`. */
  lemma NextMissingWellFormed(s: Session, e: Extraction)
    requires MissingWellFormed(s.missingFields)
    ensures MissingWellFormed(NextMissing(s, e))
  {
    var first := Without(s.missingFields, AcceptedFields(e));
    WithoutWellFormed(s.missingFields, AcceptedFields(e));
    WithoutWellFormed(first, Dropped(Merge(s.collectedData, e)));
  }

  /** The part of `new_data` built once every field but `pending` has been
      looked at. */
  function AcceptedOutside(e: Extraction, pending: set<string>): Dict {
    map f | f in AcceptedFields(e) - pending :: e.extractedFields[f]
  }

  /** One step of the first loop of `generate_response`: looking at `field`
      adds it to `new_data` and removes it from the outstanding list exactly
      when it is accepted. */
  lemma AcceptStep(outstanding: seq<string>, e: Extraction, pending: set<string>, field: string)
    requires Distinct(outstanding)
    requires field in pending && pending <= e.extractedFields.Keys
    ensures var before := Without(outstanding, AcceptedFields(e) - pending);
      var after := Without(outstanding, AcceptedFields(e) - (pending - {field}));
      if Accepts(e, field) then
        && AcceptedOutside(e, pending - {field}) == AcceptedOutside(e, pending)[field := e.extractedFields[field]]
        && after == (if field in before then RemoveFirst(before, field) else before)
      else
        && AcceptedOutside(e, pending - {field}) == AcceptedOutside(e, pending)
        && after == before
  {
    var done := AcceptedFields(e) - pending;
    if Accepts(e, field) {
      assert AcceptedFields(e) - (pending - {field}) == done + {field};
      WithoutOneMore(outstanding, done, field);
    } else {
      assert AcceptedFields(e) - (pending - {field}) == done;
    }
  }

  /** The outstanding list a turn leaves keeps the shape of `missing_fields`. */
  lemma TurnKeepsShape(s: Session, e: Extraction, http: HttpResult)
    requires MissingWellFormed(s.missingFields)
    ensures TurnSpec(s, e, http).Question? ==> MissingWellFormed(TurnSpec(s, e, http).missingFields)
  {
    NextMissingWellFormed(s, e);
  }

  lemma WithoutWellFormed(s: seq<string>, xs: set<string>)
    requires MissingWellFormed(s)
    ensures MissingWellFormed(Without(s, xs))
  {
    WithoutDistinct(s, xs);
    var r := Without(s, xs);
    forall k | 0 <= k < |r|
      ensures r[k] in SchemaFields
    {
      assert r[k] in r;
    }
  }

  // ---------------------------------------------------------------------
  // The agent

  class ConversationalAgent {
    /** `self.sessions`: session id to session entry. */
    var sessions: map<string, Session>

    /** Every session's outstanding list has the shape `create_session`
        gives it and every turn keeps. */
    ghost predicate Valid()
      reads this
    {
      forall id | id in sessions :: MissingWellFormed(sessions[id].missingFields)
    }

    constructor()
      ensures sessions == map[] && Valid()
    {
      sessions := map[];
    }

    /** `create_session`, with the id `uuid4` produced given as `sessionId`:
        stores a new entry under it and leaves every other entry as it was. */
    method CreateSession(sessionId: string) returns (id: string)
      requires Valid()
      modifies this
      ensures Valid()
      ensures id == sessionId
      ensures sessions == old(sessions)[id := NewSession()]
      ensures sessions.Keys == old(sessions).Keys + {id}
      ensures sessions[id].collectedData == map[] && sessions[id].conversationHistory == []
      ensures sessions[id].currentStep == GreetingStep && sessions[id].missingFields == SchemaFields
    {
      id := sessionId;
      sessions := sessions[id := NewSession()];
    }

    /** `get_session`. */
    function GetSession(id: string): (s: Option<Session>)
      reads this
      ensures s.Some? <==> id in sessions
      ensures s.Some? ==> s.value == sessions[id]
    {
      if id in sessions then Some(sessions[id]) else None
    }

    /** `update_session`: overwrites the given fields of an existing entry;
        an unknown id changes nothing. */
    method UpdateSession(id: string, updates: SessionPatch)
      modifies this
      ensures id in old(sessions) ==> sessions == old(sessions)[id := updates.ApplyTo(old(sessions)[id])]
      ensures id !in old(sessions) ==> sessions == old(sessions)
      ensures old(Valid()) && (updates.missingFields.Some? ==> MissingWellFormed(updates.missingFields.value))
              ==> Valid()
    {
      if id in sessions {
        sessions := sessions[id := updates.ApplyTo(sessions[id])];
      }
    }

    /** `start_conversation`: creates a session and asks for the first
        outstanding field, the adult's name. */
    method StartConversation(sessionId: string) returns (g: Greeting)
      requires Valid()
      modifies this
      ensures Valid()
      ensures sessions == old(sessions)[sessionId := NewSession()]
      ensures g == Greeting(sessionId, "adult_name")
      ensures g.askingFor == sessions[sessionId].missingFields[0]
    {
      var id := CreateSession(sessionId);
      g := Greeting(id, "adult_name");
    }

    /** `generate_response`: merges the confident fields, filters the
        outstanding list, and completes or asks. */
    method GenerateResponse(session: Session, extracted: Extraction, http: HttpResult) returns (result: TurnResult)
      requires MissingWellFormed(session.missingFields)
      ensures result == TurnSpec(session, extracted, http)
    {
      var newData, missing := AcceptConfident(session.missingFields, extracted);
      var collected := session.collectedData + newData;
      WithoutWellFormed(session.missingFields, AcceptedFields(extracted));
      var actual := KeepRequired(missing, collected);
      if actual == [] {
        result := Completion(collected, SendWebhook(collected, http));
      } else {
        result := Question(actual[0], collected, actual);
      }
    }

    /** The first loop of `generate_response`: every extracted field that is
        a schema field with confidence above the threshold goes into
        `new_data` and out of the outstanding list. */
    method AcceptConfident(outstanding: seq<string>, extracted: Extraction)
      returns (newData: Dict, missing: seq<string>)
      requires Distinct(outstanding)
      ensures newData == NewData(extracted)
      ensures missing == Without(outstanding, AcceptedFields(extracted))
    {
      newData := map[];
      missing := outstanding;
      var pending := extracted.extractedFields.Keys;
      assert AcceptedFields(extracted) - pending == {};
      WithoutNothing(outstanding, {});
      while pending != {}
        invariant pending <= extracted.extractedFields.Keys
        invariant newData == AcceptedOutside(extracted, pending)
        invariant missing == Without(outstanding, AcceptedFields(extracted) - pending)
        decreases pending
      {
        var field :| field in pending;
        var value := extracted.extractedFields[field];
        AcceptStep(outstanding, extracted, pending, field);
        if field in SchemaFields && Confidence(extracted, field) > Threshold {
          newData := newData[field := value];
          if field in missing {
            missing := RemoveFirst(missing, field);
          }
        }
        pending := pending - {field};
      }
      assert AcceptedFields(extracted) - pending == AcceptedFields(extracted);
    }

    /** The second loop of `generate_response`: keeps, in order, the
        outstanding fields that are still required given `collected`. */
    method KeepRequired(missing: seq<string>, collected: Dict) returns (actual: seq<string>)
      requires MissingWellFormed(missing)
      ensures actual == Without(missing, Dropped(collected))
    {
      actual := [];
      var i := 0;
      while i < |missing|
        invariant 0 <= i <= |missing|
        invariant actual == Without(missing[..i], Dropped(collected))
      {
        var field := missing[i];
        assert missing[..i + 1] == missing[..i] + [field];
        WithoutSnoc(missing[..i], field, Dropped(collected));
        var condition := ConditionOf(field);
        if condition.Some? {
          if Get(collected, condition.value.field) == Str(condition.value.value) {
            actual := actual + [field];
          } else if condition.value.field in collected {
            // the condition has failed: no longer required
          } else {
            actual := actual + [field];
          }
        } else {
          actual := actual + [field];
        }
        i := i + 1;
      }
      assert missing[..|missing|] == missing;
    }

    /** The body of `continue_conversation` on a known session, given what
        was extracted from the user's text: record the text, respond, and
        record the agent's message. */
    method Respond(
      session: Session, userInput: string, extracted: Extraction, http: HttpResult,
      userTime: real, agentTime: real)
      returns (result: TurnResult, after: Session)
      requires MissingWellFormed(session.missingFields)
      ensures result == TurnSpec(session, extracted, http)
      ensures after == AfterTurn(session, userInput, result, userTime, agentTime)
      ensures MissingWellFormed(after.missingFields)
    {
      var history := session.conversationHistory + [Turn(User, userInput, userTime)];
      result := GenerateResponse(session, extracted, http);
      TurnKeepsShape(session, extracted, http);
      history := history + [Turn(Agent, MessageOf(result), agentTime)];
      after := session.(
        collectedData := result.dataCollected,
        conversationHistory := history,
        missingFields := if result.Question? then result.missingFields else []);
    }

    /** `continue_conversation`. An unknown id yields the error reply and
        changes nothing. On a known session: the user's text and then the
        agent's message are appended to its history, its collected data and
        outstanding list become the turn's (an empty list after a
        completion), its step is left alone, no other entry changes, and the
        reply carries the session id. */
    method ContinueConversation(
      sessionId: string, userInput: string,
      reply: Option<string>, decode: string -> Option<Extraction>, http: HttpResult,
      userTime: real, agentTime: real)
      returns (r: Reply)
      requires Valid()
      modifies this
      ensures Valid()
      ensures sessionId !in old(sessions) ==> r == SessionNotFound && sessions == old(sessions)
      ensures sessionId in old(sessions) ==>
        var before := old(sessions)[sessionId];
        var result := TurnSpec(before, ExtractInformation(reply, decode), http);
        && r == Reply(sessionId, result)
        && sessions == old(sessions)[sessionId := AfterTurn(before, userInput, result, userTime, agentTime)]
      ensures sessions.Keys == old(sessions).Keys
      ensures forall id | id in old(sessions) && id != sessionId :: sessions[id] == old(sessions)[id]
    {
      var found := GetSession(sessionId);
      if found.None? {
        return SessionNotFound;
      }
      var extracted := ExtractInformation(reply, decode);
      var result, after := Respond(found.value, userInput, extracted, http, userTime, agentTime);
      var updates := SessionPatch(
        Some(after.collectedData), Some(after.conversationHistory), Some(after.currentStep), Some(after.missingFields));
      assert updates.ApplyTo(found.value) == after;
      UpdateSession(sessionId, updates);
      r := Reply(sessionId, result);
    }
  }
}
