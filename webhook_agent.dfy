/** The single-shot agent: the language model's reply is turned into form
    data (the JSON object it contains, else a keyword scan of its lines),
    validated against the current four-field schema with the legacy field
    names accepted as aliases, and the validated record is posted to the
    webhook. The completion call, `json.loads` and the HTTP POST are inputs:
    the reply text (`None` when the call raised), a decoder, and the result
    of the one POST. */
module WebhookAgent {
  import opened Text
  import opened Values
  import opened Webhook
  import opened JsonLocate

  const AdultNameRequired: string := "Adult name is required"
  const EmailRequired: string := "Email address is required"
  const SignupTypeInvalid: string := "Signup type must be 'self' or 'child'"
  const ChildNameRequired: string := "Child name is required when signup type is 'child'"
  const ExtractionFailed: string := "Failed to extract form data from user input"

  /** The legacy field names the validator still accepts. */
  const LegacyKeys: set<string> := {"name_of_requestor", "request_on_behalf", "name_of_child"}
  /** The fields of a validated record. */
  const RecordKeys: set<string> := {"adult_name", "email_address", "signup_type", "child_name"}

  datatype SignupType = SelfSignup | ChildSignup {
    function Token(): string {
      match this
      case SelfSignup => "self"
      case ChildSignup => "child"
    }
  }

  /** A validated record; `childName` is `None` where the source stores `None`. */
  datatype Record = Record(
    adultName: string,
    emailAddress: string,
    signupType: SignupType,
    childName: Option<string>)

  /** What `_validate_form_data` returns: `{valid: False, error}` or
      `{valid: True, error: None}` plus the record. */
  datatype Validation = Invalid(error: string) | Valid(record: Record)

  /** A record is well-formed when a child name is present exactly for a
      sign-up on behalf of a child. */
  predicate WellFormed(r: Record) {
    r.childName.Some? <==> r.signupType == ChildSignup
  }

  // ---------------------------------------------------------------------
  // Aliasing of legacy field names

  /** `adult_name`, or `name_of_requestor` when `adult_name` is falsy. */
  function AdultNameOf(fd: Dict): (v: Value)
    ensures Truthy(Get(fd, "adult_name")) ==> v == fd["adult_name"]
    ensures !Truthy(Get(fd, "adult_name")) ==> v == Get(fd, "name_of_requestor")
  {
    Or(Get(fd, "adult_name"), Get(fd, "name_of_requestor"))
  }

  /** `signup_type`, or, when that is falsy and `request_on_behalf` is present,
      "child" for a `request_on_behalf` of "y" and "self" for anything else. */
  function SignupTypeOf(fd: Dict): (v: Value)
    ensures Truthy(Get(fd, "signup_type")) || "request_on_behalf" !in fd ==> v == Get(fd, "signup_type")
    ensures !Truthy(Get(fd, "signup_type")) && "request_on_behalf" in fd ==>
      (v == Str("child") <==> fd["request_on_behalf"] == Str("y")) && (v == Str("child") || v == Str("self"))
  {
    var signup := Get(fd, "signup_type");
    if !Truthy(signup) && "request_on_behalf" in fd then
      Str(if fd["request_on_behalf"] == Str("y") then "child" else "self")
    else
      signup
  }

  /** `child_name`, or `name_of_child` when `child_name` is falsy. */
  function ChildNameOf(fd: Dict): (v: Value)
    ensures Truthy(Get(fd, "child_name")) ==> v == fd["child_name"]
    ensures !Truthy(Get(fd, "child_name")) ==> v == Get(fd, "name_of_child")
  {
    Or(Get(fd, "child_name"), Get(fd, "name_of_child"))
  }

  // ---------------------------------------------------------------------
  // The validator

  /** `_validate_form_data`: the adult name, the email address, the sign-up
      type and the conditional child name are checked in that order, and the
      first check that fails decides the error. Strings are `str(v).strip()`
      of their input; nothing is re-checked for emptiness after stripping. */
  function Validate(fd: Dict): (v: Validation)
    ensures v.Valid? ==> WellFormed(v.record)
  {
    var adultName := AdultNameOf(fd);
    var email := Get(fd, "email_address");
    var signup := SignupTypeOf(fd);
    var childName := ChildNameOf(fd);
    if !Truthy(adultName) then Invalid(AdultNameRequired)
    else if !Truthy(email) then Invalid(EmailRequired)
    else if signup != Str("self") && signup != Str("child") then Invalid(SignupTypeInvalid)
    else if signup == Str("child") then
      if !Truthy(childName) then Invalid(ChildNameRequired)
      else Valid(Record(Strip(PyStr(adultName)), Strip(PyStr(email)), ChildSignup, Some(Strip(PyStr(childName)))))
    else
      Valid(Record(Strip(PyStr(adultName)), Strip(PyStr(email)), SelfSignup, None))
  }

  /** Every rule `fd` breaks, in the order of the schema's fields: a reference
      for the validator that does not stop at the first problem. */
  function Problems(fd: Dict): (ps: seq<string>)
    ensures |ps| <= 4
  {
    var signup := SignupTypeOf(fd);
    (if !Truthy(AdultNameOf(fd)) then [AdultNameRequired] else [])
    + (if !Truthy(Get(fd, "email_address")) then [EmailRequired] else [])
    + (if signup != Str("self") && signup != Str("child") then [SignupTypeInvalid] else [])
    + (if signup == Str("child") && !Truthy(ChildNameOf(fd)) then [ChildNameRequired] else [])
  }

  /** The validator fails exactly when some rule is broken, and then reports
      the first broken rule in field order and nothing else. */
  lemma ValidateReportsFirstProblem(fd: Dict)
    ensures Validate(fd).Invalid? <==> Problems(fd) != []
    ensures Validate(fd).Invalid? ==> Validate(fd).error == Problems(fd)[0]
  {
  }

  /** On success the record holds the stripped `str()` of each aliased input,
      the sign-up type is exactly "self" or "child", and the child name is
      present exactly for "child". */
  lemma ValidateSuccess(fd: Dict)
    requires Validate(fd).Valid?
    ensures var r := Validate(fd).record;
      && r.adultName == Strip(PyStr(AdultNameOf(fd)))
      && r.emailAddress == Strip(PyStr(fd["email_address"]))
      && SignupTypeOf(fd) == Str(r.signupType.Token())
      && (r.signupType == SelfSignup ==> r.childName == None)
      && (r.signupType == ChildSignup ==> r.childName == Some(Strip(PyStr(ChildNameOf(fd)))))
  {
    ValidateCases(fd);
    assert Truthy(AdultNameOf(fd)) && Truthy(Get(fd, "email_address"));
    if SignupTypeOf(fd) == Str("self") {
      assert Validate(fd).record.signupType == SelfSignup;
    } else {
      assert SignupTypeOf(fd) == Str("child");
    }
  }

  /** The validator's result, one case per outcome, in terms of the aliased
      inputs. */
  lemma ValidateCases(fd: Dict)
    ensures !Truthy(AdultNameOf(fd)) ==> Validate(fd) == Invalid(AdultNameRequired)
    ensures Truthy(AdultNameOf(fd)) && !Truthy(Get(fd, "email_address")) ==> Validate(fd) == Invalid(EmailRequired)
    ensures Truthy(AdultNameOf(fd)) && Truthy(Get(fd, "email_address")) ==>
      var adult := Strip(PyStr(AdultNameOf(fd)));
      var email := Strip(PyStr(Get(fd, "email_address")));
      && (SignupTypeOf(fd) == Str("self") ==> Validate(fd) == Valid(Record(adult, email, SelfSignup, None)))
      && (SignupTypeOf(fd) == Str("child") && !Truthy(ChildNameOf(fd)) ==> Validate(fd) == Invalid(ChildNameRequired))
      && (SignupTypeOf(fd) == Str("child") && Truthy(ChildNameOf(fd)) ==>
            Validate(fd) == Valid(Record(adult, email, ChildSignup, Some(Strip(PyStr(ChildNameOf(fd)))))))
      && (SignupTypeOf(fd) != Str("self") && SignupTypeOf(fd) != Str("child") ==> Validate(fd) == Invalid(SignupTypeInvalid))
  {
  }

  /** Conditional requirement: a truthy child name is required exactly when
      the (aliased) sign-up type is "child"; under "self" any child name given
      is dropped. */
  lemma ChildNameConditional(fd: Dict)
    requires Truthy(AdultNameOf(fd)) && Truthy(Get(fd, "email_address"))
    ensures SignupTypeOf(fd) == Str("child") ==>
      (Validate(fd).Valid? <==> Truthy(ChildNameOf(fd)))
    ensures SignupTypeOf(fd) == Str("self") ==>
      Validate(fd).Valid? && Validate(fd).record.childName == None
  {
  }

  /** Rewrites the legacy field names into the current ones, as the
      validator reads them. */
  function Migrate(fd: Dict): (m: Dict)
    ensures m.Keys !! LegacyKeys
  {
    (fd - LegacyKeys)["adult_name" := AdultNameOf(fd)]["signup_type" := SignupTypeOf(fd)]["child_name" := ChildNameOf(fd)]
  }

  /** Alias transparency: a record written with legacy field names validates
      exactly as the same record written with the current names. */
  lemma {:induction false} MigrationPreservesValidation(fd: Dict)
    ensures Validate(Migrate(fd)) == Validate(fd)
  {
    var m := Migrate(fd);
    assert Get(m, "email_address") == Get(fd, "email_address");
    assert Truthy(AdultNameOf(m)) <==> Truthy(AdultNameOf(fd));
    assert Truthy(AdultNameOf(fd)) ==> AdultNameOf(m) == AdultNameOf(fd);
    assert "request_on_behalf" !in m;
    assert Truthy(SignupTypeOf(fd)) ==> SignupTypeOf(m) == SignupTypeOf(fd);
    assert Truthy(ChildNameOf(fd)) ==> ChildNameOf(m) == ChildNameOf(fd);
    assert Truthy(ChildNameOf(m)) <==> Truthy(ChildNameOf(fd));
  }

  /** The four fields of a record as the source's dictionary holds them. */
  function RecordDict(r: Record): (d: Dict)
    ensures d.Keys == RecordKeys
  {
    map["adult_name" := Str(r.adultName),
        "email_address" := Str(r.emailAddress),
        "signup_type" := Str(r.signupType.Token()),
        "child_name" := if r.childName.Some? then Str(r.childName.value) else Null]
  }

  /** The dictionary `_validate_form_data` returns. */
  function ValidationDict(v: Validation): (d: Dict)
    ensures d != map[]
    ensures v.Invalid? ==> d == map["valid" := Bool(false), "error" := Str(v.error)]
    ensures v.Valid? ==>
      && d.Keys == {"valid", "error"} + RecordKeys
      && d["valid"] == Bool(true) && d["error"] == Null
      && d - {"valid", "error"} == RecordDict(v.record)
  {
    match v
    case Invalid(e) =>
      var d := map["valid" := Bool(false), "error" := Str(e)];
      assert "valid" in d;
      d
    case Valid(r) =>
      var d := RecordDict(r)["valid" := Bool(true)]["error" := Null];
      assert d - {"valid", "error"} == RecordDict(r);
      d
  }

  // ---------------------------------------------------------------------
  // Validating a validated dictionary again

  /** No stripped field of the record is empty. */
  predicate Filled(r: Record) {
    r.adultName != "" && r.emailAddress != "" && r.childName != Some("")
  }

  /** What a second validation of a validated record reports. */
  function Recheck(r: Record): Validation {
    if r.adultName == "" then Invalid(AdultNameRequired)
    else if r.emailAddress == "" then Invalid(EmailRequired)
    else if r.childName == Some("") then Invalid(ChildNameRequired)
    else Valid(r)
  }

  /** Each string of the record is already stripped. */
  predicate Stripped(r: Record) {
    Trimmed(r.adultName) && Trimmed(r.emailAddress) && (r.childName.Some? ==> Trimmed(r.childName.value))
  }

  /** What the validator reads back from a validated dictionary. */
  lemma ValidatedDictReadsBack(r: Record)
    ensures var d := ValidationDict(Valid(r));
      && AdultNameOf(d) == Or(Str(r.adultName), Null)
      && Get(d, "email_address") == Str(r.emailAddress)
      && SignupTypeOf(d) == Str(r.signupType.Token())
      && ChildNameOf(d) == Or(if r.childName.Some? then Str(r.childName.value) else Null, Null)
  {
    var d := ValidationDict(Valid(r));
    assert d == RecordDict(r)["valid" := Bool(true)]["error" := Null];
    assert "name_of_requestor" !in d && "name_of_child" !in d && "request_on_behalf" !in d;
  }

  /** A stripped, well-formed record validates again to itself unless one of
      its strings is empty. */
  lemma RevalidateRecord(r: Record)
    requires Stripped(r) && WellFormed(r)
    ensures Validate(ValidationDict(Valid(r))) == Recheck(r)
  {
    ValidatedDictReadsBack(r);
    ValidateFields(ValidationDict(Valid(r)), r);
  }

  lemma ValidateFields(d: Dict, r: Record)
    requires Stripped(r) && WellFormed(r)
    requires AdultNameOf(d) == Or(Str(r.adultName), Null)
    requires Get(d, "email_address") == Str(r.emailAddress)
    requires SignupTypeOf(d) == Str(r.signupType.Token())
    requires ChildNameOf(d) == Or(if r.childName.Some? then Str(r.childName.value) else Null, Null)
    ensures Validate(d) == Recheck(r)
  {
    ValidateCases(d);
    if r.adultName == "" {
      assert !Truthy(AdultNameOf(d));
    } else {
      assert AdultNameOf(d) == Str(r.adultName);
      StripTrimmed(r.adultName);
      if r.emailAddress != "" {
        StripTrimmed(r.emailAddress);
        if r.signupType == ChildSignup {
          if r.childName != Some("") {
            assert ChildNameOf(d) == Str(r.childName.value);
            StripTrimmed(r.childName.value);
          }
        }
      }
    }
  }

  /** Validating the validator's own output again: a failure dictionary always
      fails again with "Adult name is required" (it has no name field); a
      success validates to the same record unless stripping emptied a field,
      which the second pass then reports. */
  lemma {:induction false} Revalidate(fd: Dict)
    ensures var v := Validate(fd);
      Validate(ValidationDict(v)) == if v.Invalid? then Invalid(AdultNameRequired) else Recheck(v.record)
  {
    var v := Validate(fd);
    if v.Valid? {
      RevalidateRecord(v.record);
    } else {
      var d := ValidationDict(v);
      assert AdultNameOf(d) == Null;
    }
  }

  // ---------------------------------------------------------------------
  // The keyword fallback parser

  const NameKeywords: seq<string> := ["name", "requestor", "person"]
  const ChildKeywords: seq<string> := ["child"]

  /** Python's `any(k in text for k in keywords)`. */
  predicate MentionsAny(text: string, keywords: seq<string>) {
    exists k | 0 <= k < |keywords| :: Contains(text, keywords[k])
  }

  /** A line the fallback parser takes a value from: it mentions a keyword
      (case-insensitively) and has a `:`. */
  predicate Labelled(line: string, keywords: seq<string>) {
    MentionsAny(Lower(line), keywords) && ':' in line
  }

  /** The value the line scan of `_parse_structured_response` picks: the
      stripped second `:`-separated piece of the first line that mentions a
      keyword and splits into more than one piece. */
  function FirstValue(lines: seq<string>, keywords: seq<string>): Option<string> {
    if lines == [] then None
    else if MentionsAny(Lower(lines[0]), keywords) && |Split(lines[0], ':')| > 1 then
      Some(Strip(Split(lines[0], ':')[1]))
    else
      FirstValue(lines[1..], keywords)
  }

  /** The scan finds nothing exactly when no line is labelled. */
  lemma {:induction false} FirstValueNone(lines: seq<string>, keywords: seq<string>)
    ensures FirstValue(lines, keywords).None? <==>
      forall k :: 0 <= k < |lines| ==> !Labelled(lines[k], keywords)
  {
    if lines != [] {
      SplitAtFirst(lines[0], ':');
      FirstValueNone(lines[1..], keywords);
      assert forall k :: 1 <= k < |lines| ==> lines[k] == lines[1..][k - 1];
    }
  }

  /** Otherwise the value is the stripped text between the first and the
      second `:` of the first labelled line. */
  lemma {:induction false} FirstValueAt(lines: seq<string>, keywords: seq<string>, k: nat)
    requires k < |lines| && Labelled(lines[k], keywords)
    requires forall j :: 0 <= j < k ==> !Labelled(lines[j], keywords)
    ensures FirstValue(lines, keywords) == Some(Strip(Between(lines[k], ':')))
  {
    SplitAtFirst(lines[0], ':');
    if k == 0 {
      SplitSecondPiece(lines[0], ':');
    } else {
      assert !Labelled(lines[0], keywords);
      FirstValueAt(lines[1..], keywords, k - 1);
    }
  }

  /** The "behalf" answer of `_parse_structured_response`. */
  function BehalfAnswer(lowered: string): (answer: Option<string>)
    ensures answer.Some? ==> Contains(lowered, "behalf")
    ensures answer == None || answer == Some("y") || answer == Some("n")
  {
    if !Contains(lowered, "behalf") then None
    else if Contains(lowered, "yes") || Contains(lowered, "y") then Some("y")
    else if Contains(lowered, "no") || Contains(lowered, "n") then Some("n")
    else None
  }

  /** `d` with `key` set to the value when one is present. */
  function Put(d: Dict, key: string, value: Option<string>): (r: Dict)
    ensures r.Keys == if value.Some? then d.Keys + {key} else d.Keys
    ensures forall k :: k in d && k != key ==> r[k] == d[k]
    ensures value.Some? ==> r[key] == Str(value.value)
  {
    if value.Some? then d[key := Str(value.value)] else d
  }

  /** The requestor name the fallback finds in `content`. */
  function RequestorValue(content: string): Option<string> {
    var lowered := Lower(content);
    if Contains(lowered, "name") || Contains(lowered, "requestor")
    then FirstValue(Split(content, '\n'), NameKeywords) else None
  }

  /** The child name the fallback finds in `content`. */
  function ChildValue(content: string): Option<string> {
    var lowered := Lower(content);
    if Contains(lowered, "child") && BehalfAnswer(lowered) == Some("y")
    then FirstValue(Split(content, '\n'), ChildKeywords) else None
  }

  /** What `_parse_structured_response` returns for `content`. */
  function StructuredSpec(content: string): Dict {
    var withName := Put(map[], "name_of_requestor", RequestorValue(content));
    var withBehalf := Put(withName, "request_on_behalf", BehalfAnswer(Lower(content)));
    Put(withBehalf, "name_of_child", ChildValue(content))
  }

  /** The line scan, run once for the requestor and once for the child. */
  method ScanLines(lines: seq<string>, keywords: seq<string>) returns (value: Option<string>)
    ensures value == FirstValue(lines, keywords)
  {
    value := None;
    var i := 0;
    while i < |lines|
      invariant 0 <= i <= |lines|
      invariant FirstValue(lines, keywords) == FirstValue(lines[i..], keywords)
    {
      var line := lines[i];
      assert lines[i..][1..] == lines[i + 1..];
      if MentionsAny(Lower(line), keywords) {
        var parts := Split(line, ':');
        if |parts| > 1 {
          value := Some(Strip(parts[1]));
          return;
        }
      }
      i := i + 1;
    }
  }

  /** `_parse_structured_response`: the keyword fallback used when the reply
      holds no decodable JSON object. */
  method ParseStructuredResponse(content: string) returns (formData: Dict)
    ensures formData == StructuredSpec(content)
  {
    formData := map[];
    var lowered := Lower(content);
    var lines := Split(content, '\n');
    if Contains(lowered, "name") || Contains(lowered, "requestor") {
      var name := ScanLines(lines, NameKeywords);
      if name.Some? {
        formData := formData["name_of_requestor" := Str(name.value)];
      }
    }
    assert formData == Put(map[], "name_of_requestor", RequestorValue(content));
    ghost var withName := formData;
    if Contains(lowered, "behalf") {
      if Contains(lowered, "yes") || Contains(lowered, "y") {
        formData := formData["request_on_behalf" := Str("y")];
      } else if Contains(lowered, "no") || Contains(lowered, "n") {
        formData := formData["request_on_behalf" := Str("n")];
      }
    }
    assert formData == Put(withName, "request_on_behalf", BehalfAnswer(lowered));
    assert Get(formData, "request_on_behalf") == Str("y") <==> BehalfAnswer(lowered) == Some("y");
    if Contains(lowered, "child") && Get(formData, "request_on_behalf") == Str("y") {
      var child := ScanLines(lines, ChildKeywords);
      if child.Some? {
        formData := formData["name_of_child" := Str(child.value)];
      }
    }
  }

  /** The fallback parser only ever produces the three legacy keys, all with
      string values; in particular it never produces an email address. */
  lemma StructuredKeys(content: string)
    ensures StructuredSpec(content).Keys <= LegacyKeys
    ensures forall k :: k in StructuredSpec(content) ==> StructuredSpec(content)[k].Str?
  {
  }

  /** "request_on_behalf" is "y" exactly when the lowered content mentions
      "behalf" and has a `y` anywhere, "n" exactly when it mentions "behalf",
      has no `y` and has an `n`, and absent otherwise. */
  lemma {:induction false} StructuredBehalf(content: string)
    ensures var lowered := Lower(content);
      && (Get(StructuredSpec(content), "request_on_behalf") == Str("y") <==>
            Contains(lowered, "behalf") && 'y' in lowered)
      && (Get(StructuredSpec(content), "request_on_behalf") == Str("n") <==>
            Contains(lowered, "behalf") && 'y' !in lowered && 'n' in lowered)
      && ("request_on_behalf" in StructuredSpec(content) <==>
            Contains(lowered, "behalf") && ('y' in lowered || 'n' in lowered))
  {
    var lowered := Lower(content);
    ContainsChar(lowered, 'y');
    ContainsChar(lowered, 'n');
    if Contains(lowered, "yes") {
      ContainsPrefix(lowered, "yes", 1);
      assert "yes"[..1] == "y";
    }
    if Contains(lowered, "no") {
      ContainsPrefix(lowered, "no", 1);
      assert "no"[..1] == "n";
    }
  }

  /** A child name is only ever taken when the request was found to be on
      behalf of someone and the content mentions "child". */
  lemma StructuredChildOnBehalf(content: string)
    requires "name_of_child" in StructuredSpec(content)
    ensures StructuredSpec(content)["request_on_behalf"] == Str("y")
    ensures Contains(Lower(content), "child")
  {
  }

  /** Since the fallback never yields an email address, validating its output
      always fails, on the name or else on the email address. */
  lemma StructuredNeverValidates(content: string)
    ensures Validate(StructuredSpec(content)).Invalid?
    ensures Validate(StructuredSpec(content)).error in {AdultNameRequired, EmailRequired}
  {
    StructuredKeys(content);
    assert "email_address" !in StructuredSpec(content);
  }

  // ---------------------------------------------------------------------
  // Extraction and the single-shot pipeline

  /** The form data `collect_form_data` hands to the validator: the decoded
      JSON candidate of the stripped reply when there is one and it decodes,
      else the keyword fallback; `None` when the completion call raised. */
  function RawFormData(reply: Option<string>, decode: string -> Option<Dict>): (raw: Option<Dict>)
    ensures raw.Some? <==> reply.Some?
  {
    match reply
    case None => None
    case Some(text) =>
      var content := Strip(text);
      var located := LocateJson(content);
      var decoded := if located.Some? then decode(located.value) else None;
      Some(if decoded.Some? then decoded.value else StructuredSpec(content))
  }

  /** Where the form data comes from: the decoded candidate when the stripped
      reply has a `{`…`}` pair that decodes, else the keyword parse of the
      stripped reply. */
  lemma RawFormDataSource(text: string, decode: string -> Option<Dict>)
    ensures var content := Strip(text);
      var located := LocateJson(content);
      && (located.Some? && decode(located.value).Some? ==> RawFormData(Some(text), decode) == decode(located.value))
      && (located.None? || decode(located.value).None? ==> RawFormData(Some(text), decode) == Some(StructuredSpec(content)))
  {
  }

  /** `collect_form_data`: the validated dictionary, or `{}` when the
      completion call raised. It is empty only in that case, and a reply
      without a `{`/`}` pair never yields a valid form. */
  function CollectFormData(reply: Option<string>, decode: string -> Option<Dict>): (fd: Dict)
    ensures fd == map[] <==> reply.None?
    ensures reply.Some? ==> fd == ValidationDict(Validate(RawFormData(reply, decode).value))
    ensures reply.Some? ==>
      var located := LocateJson(Strip(reply.value));
      located.None? || decode(located.value).None? ==> Get(fd, "valid") == Bool(false)
  {
    match RawFormData(reply, decode)
    case None => map[]
    case Some(raw) =>
      RawFormDataSource(reply.value, decode);
      StructuredNeverValidates(Strip(reply.value));
      ValidationDict(Validate(raw))
  }

  /** What `process_user_input` returns. */
  datatype PipelineResult =
    | Failure(error: string, extractedData: Option<Dict>)
    | Submitted(success: bool, formData: Dict, webhookResult: WebhookOutcome)

  /** `process_user_input`: collect, validate again, and post the record
      without its `valid`/`error` keys. */
  function ProcessUserInput(reply: Option<string>, decode: string -> Option<Dict>, http: HttpResult): (result: PipelineResult)
    ensures result.Submitted? ==> result.webhookResult.sentData == result.formData
    ensures result.Submitted? ==> result.formData.Keys == RecordKeys
  {
    SubmitCollected(CollectFormData(reply, decode), http)
  }

  /** What `process_user_input` does with the dictionary `collect_form_data`
      returned. */
  function SubmitCollected(formData: Dict, http: HttpResult): (result: PipelineResult)
    ensures result.Submitted? ==> result.webhookResult.sentData == result.formData
    ensures result.Submitted? ==> result.formData.Keys == RecordKeys
  {
    if formData == map[] then
      Failure(ExtractionFailed, None)
    else
      var validation := Validate(formData);
      match validation
      case Invalid(e) => Failure(e, Some(formData))
      case Valid(_) =>
        var validated := ValidationDict(validation) - {"valid", "error"};
        var outcome := SendWebhook(validated, http);
        Submitted(outcome.success, validated, outcome)
  }

  /** The second half of the pipeline on a validator's output: a failure
      dictionary fails again on the adult name; a record fails on what
      stripping emptied, or else is posted once as it is. */
  lemma {:induction false} SubmitValidated(raw: Dict, http: HttpResult)
    ensures var first := Validate(raw);
      var collected := ValidationDict(first);
      var result := SubmitCollected(collected, http);
      && (first.Invalid? ==> result == Failure(AdultNameRequired, Some(collected)))
      && (first.Valid? && !Filled(first.record) ==>
            result == Failure(Recheck(first.record).error, Some(collected)))
      && (first.Valid? && Filled(first.record) ==>
            && result.Submitted?
            && result.formData == RecordDict(first.record)
            && result.webhookResult == SendWebhook(RecordDict(first.record), http)
            && (result.success <==> http.Response? && http.statusCode == 200))
  {
    Revalidate(raw);
  }

  /** The pipeline's outcomes: no webhook call and the extraction error when
      the completion call raised; no webhook call and "Adult name is
      required" with the collected dictionary when the first validation
      failed; the second validation's error when stripping emptied a field;
      otherwise exactly one POST of the record, and overall success is the
      webhook's (HTTP 200). */
  lemma ProcessUserInputOutcome(reply: Option<string>, decode: string -> Option<Dict>, http: HttpResult)
    ensures reply.None? ==> ProcessUserInput(reply, decode, http) == Failure(ExtractionFailed, None)
    ensures reply.Some? ==>
      var first := Validate(RawFormData(reply, decode).value);
      var collected := ValidationDict(first);
      var result := ProcessUserInput(reply, decode, http);
      && (first.Invalid? ==> result == Failure(AdultNameRequired, Some(collected)))
      && (first.Valid? && !Filled(first.record) ==>
            result == Failure(Recheck(first.record).error, Some(collected)))
      && (first.Valid? && Filled(first.record) ==>
            && result.Submitted?
            && result.formData == RecordDict(first.record)
            && result.webhookResult == SendWebhook(RecordDict(first.record), http)
            && (result.success <==> http.Response? && http.statusCode == 200))
  {
    if reply.Some? {
      var raw := RawFormData(reply, decode).value;
      assert CollectFormData(reply, decode) == ValidationDict(Validate(raw));
      SubmitValidated(raw, http);
    }
  }

  /** A record that reaches the webhook has a non-empty adult name and email
      address, and a non-empty child name exactly when it is a sign-up for a
      child: the second validation catches what stripping emptied. */
  lemma SubmittedRecordIsFilled(reply: Option<string>, decode: string -> Option<Dict>, http: HttpResult)
    requires ProcessUserInput(reply, decode, http).Submitted?
    ensures var d := ProcessUserInput(reply, decode, http).formData;
      && d["adult_name"].Str? && d["adult_name"].s != ""
      && d["email_address"].Str? && d["email_address"].s != ""
      && (d["signup_type"] == Str("child") <==> d["child_name"].Str?)
      && (d["child_name"].Str? ==> d["child_name"].s != "")
  {
    ProcessUserInputOutcome(reply, decode, http);
    var first := Validate(RawFormData(reply, decode).value);
    assert first.Valid? && Filled(first.record);
    FilledRecordDict(first.record);
  }

  lemma FilledRecordDict(r: Record)
    requires Filled(r) && WellFormed(r)
    ensures var d := RecordDict(r);
      && d["adult_name"].Str? && d["adult_name"].s != ""
      && d["email_address"].Str? && d["email_address"].s != ""
      && (d["signup_type"] == Str("child") <==> d["child_name"].Str?)
      && (d["child_name"].Str? ==> d["child_name"].s != "")
  {
  }

  // ---------------------------------------------------------------------
  // The error the pipeline reports

  /** The reply text of a form that names the adult and nothing else. */
  const NameOnlyText: string := "{\"adult_name\": \"Ann\"}"

  /** What that text decodes to. */
  const NameOnly: Dict := map["adult_name" := Str("Ann")]

  /** As written, `process_user_input` validates the validator's output a
      second time. A failure dictionary has no name field, so a reply that
      names the adult but gives no email address is reported as "Adult name
      is required", not as the missing email address the first validation
      found. */
  lemma ProcessUserInputLosesError(decode: string -> Option<Dict>, http: HttpResult)
    requires decode(NameOnlyText) == Some(NameOnly)
    ensures Validate(NameOnly) == Invalid(EmailRequired)
    ensures ProcessUserInput(Some(NameOnlyText), decode, http) ==
      Failure(AdultNameRequired, Some(ValidationDict(Invalid(EmailRequired))))
  {
    assert Validate(NameOnly) == Invalid(EmailRequired) by {
      assert AdultNameOf(NameOnly) == Str("Ann");
      assert Get(NameOnly, "email_address") == Null;
    }
    NameOnlyReply(decode);
    SubmitValidated(NameOnly, http);
  }

  /** That reply reaches the validator as the dictionary it decodes to. */
  lemma NameOnlyReply(decode: string -> Option<Dict>)
    requires decode(NameOnlyText) == Some(NameOnly)
    ensures RawFormData(Some(NameOnlyText), decode) == Some(NameOnly)
  {
    BracedReply(NameOnlyText, decode);
  }

  /** A reply that starts with `{` and ends with `}` is handed to the decoder
      whole, and its decoding is the form data. */
  lemma BracedReply(text: string, decode: string -> Option<Dict>)
    requires |text| >= 2 && text[0] == '{' && text[|text| - 1] == '}'
    requires decode(text).Some?
    ensures RawFormData(Some(text), decode) == decode(text)
  {
    BracedCandidate(text);
  }

  lemma BracedCandidate(text: string)
    requires |text| >= 2 && text[0] == '{' && text[|text| - 1] == '}'
    ensures LocateJson(Strip(text)) == Some(text)
  {
    StripTrimmed(text);
    LocateJsonSlice(text, 0, |text| - 1);
    assert text[0..|text|] == text;
  }

  /** `process_user_input` reporting the first validation's error, as its
      failure branch evidently means to; a validated record goes through the
      second validation and the POST as before. */
  function ProcessUserInputIntended(reply: Option<string>, decode: string -> Option<Dict>, http: HttpResult): (result: PipelineResult)
    ensures result.Submitted? ==> result.webhookResult.sentData == result.formData
  {
    match RawFormData(reply, decode)
    case None => Failure(ExtractionFailed, None)
    case Some(raw) =>
      var first := Validate(raw);
      if first.Invalid? then Failure(first.error, Some(ValidationDict(first)))
      else ProcessUserInput(reply, decode, http)
  }

  /** The corrected pipeline reports exactly the error the first validation
      found, and agrees with the source whenever that validation succeeds. */
  lemma {:induction false} IntendedReportsFirstError(reply: Option<string>, decode: string -> Option<Dict>, http: HttpResult)
    ensures reply.None? ==> ProcessUserInputIntended(reply, decode, http) == Failure(ExtractionFailed, None)
    ensures reply.Some? ==>
      var first := Validate(RawFormData(reply, decode).value);
      && (first.Invalid? ==>
            ProcessUserInputIntended(reply, decode, http) == Failure(first.error, Some(ValidationDict(first))))
      && (first.Valid? ==> ProcessUserInputIntended(reply, decode, http) == ProcessUserInput(reply, decode, http))
  {
    ProcessUserInputOutcome(reply, decode, http);
  }
}
