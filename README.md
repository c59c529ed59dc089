# Sign-up form agents: a Dafny model

This project models the two agents of a small service that fills in a
birth-certificate fee-waiver sign-up form from free text and posts the result
to a form-filling webhook.

- **`WebhookAgent`** (single-shot) takes the language model's reply to the
  user's text and turns it into form data. It first tries the JSON object in
  the reply: the slice from the first `{` to the last `}`. If there is none,
  or it does not decode, it falls back to a keyword scan of the reply's lines.
  It validates that form data against the four-field schema (adult name,
  email address, sign-up type, child name), accepting the legacy field names
  as aliases. `process_user_input` validates the result a second time and
  posts the record to the webhook.
- **`ConversationalAgent`** (multi-turn) keeps a table of sessions. Each turn
  keeps the extracted fields whose confidence is above 0.7 and works out which
  fields are still outstanding. The child's name stays outstanding only while
  the sign-up type is "child" or not yet known. The turn then either asks for
  the first outstanding field, or posts everything collected to the webhook.

Modules:

- `Text`: the Python string operations the agents use, namely `strip`,
  ASCII `lower`, `in`, `find`, `rfind`, and `split` on one character.
- `Values`: JSON values with Python truthiness, `str()`, `dict.get` and `or`.
- `Webhook`: the outcome mapping of `send_webhook`, which both agents share.
- `JsonLocate`: the `{`…`}` locator, which both agents share.
- `WebhookAgent`: the validator, the keyword parser and the pipeline.
- `Conversation`: the turn specification, its lemmas, and the
  `ConversationalAgent` class, which holds `sessions` as a field its methods
  update.

The outside world becomes inputs:

- The language model's reply is an `Option<string>`. `None` means the
  completion call raised.
- `json.loads` is a decoder function passed in as a parameter.
- The one HTTP POST is an `HttpResult`: a status and body, or a transport
  error.
- `uuid4()` and `time.time()` are passed in as a session id and timestamps.

## Model

| member | source | states |
|---|---|---|
| Text.Strip | webhook_agent.py:73 | `str.strip()`: the result neither starts nor ends with whitespace, and is empty exactly when the input is all whitespace |
| Text.StripKeepsMiddle | webhook_agent.py:73 | `strip()` removes only whitespace: the result is the slice of the input between an all-whitespace prefix and an all-whitespace suffix |
| Text.StripSlice | webhook_agent.py:73 | what `strip()` keeps is a contiguous slice of its input |
| Text.StripIdempotent | webhook_agent.py:144 | stripping twice is stripping once |
| Text.Lower | webhook_agent.py:106 | `lower()` keeps the length and folds each character (ASCII) |
| Text.Find | webhook_agent.py:78 | `find`: -1 exactly when the character is absent, else the index of its first occurrence |
| Text.RFind | webhook_agent.py:79 | `rfind`: -1 exactly when the character is absent, else the index of its last occurrence |
| Text.Split | webhook_agent.py:107 | `split(sep)`: at least one piece, no piece holds the separator, and joining the pieces gives back the input |
| Text.SplitJoin | webhook_agent.py:107 | round trip: split undoes a join of separator-free pieces |
| Text.SplitAtFirst | webhook_agent.py:110-111 | more than one piece exactly when the separator occurs; the first piece is the text before it |
| Text.SplitSecondPiece | webhook_agent.py:110-112 | `parts[1]` exists exactly when `:` occurs, and is the text between the first and second `:` |
| Text.ContainsChar | webhook_agent.py:118 | `"y" in s` for a one-character string is membership of that character |
| Text.ContainsPrefix | webhook_agent.py:118-120 | containing "yes" (or "no") implies containing "y" (or "n") |
| Values.Get | webhook_agent.py:142 | `dict.get`: the stored value, or `None` when the key is absent |
| Values.Truthy | webhook_agent.py:143 | Python's truth test: `None`, `False`, `0` and `""` are falsy, every other string and number is truthy |
| Values.Or | webhook_agent.py:142 | Python `a or b`: the first operand when it is truthy, else the second; truthy iff either is |
| Values.PyStr | webhook_agent.py:144 | Python's `str()`: a string is itself, `None`/`True`/`False` their names, an integer its decimal digits with a sign |
| Values.Digits | webhook_agent.py:144 | `str()` of a non-negative integer: decimal digits without a leading zero |
| Values.DigitsValue | webhook_agent.py:144 | the digits `str()` prints for `n` spell `n` |
| Webhook.SendWebhook | webhook_agent.py:197-224 | success iff status 200; any other status keeps the status and body; a transport error keeps its message; the payload is always reported as sent |
| JsonLocate.LocateJson | webhook_agent.py:78-81 | no candidate exactly when `{` or `}` is missing; a non-empty candidate starts with `{` and ends with `}` |
| JsonLocate.LocateJsonSlice | webhook_agent.py:78-81 | with the first `{` at i, the last `}` at j and i <= j, the candidate is `content[i..j]` inclusive |
| JsonLocate.LocateJsonCrossed | webhook_agent.py:78-81 | when the last `}` comes before the first `{`, the slice is empty |
| JsonLocate.RFindIsLast | webhook_agent.py:79 | the last occurrence is what `rfind` returns |
| WebhookAgent.Validate | webhook_agent.py:135-185 | a successful validation has a child name exactly for a "child" sign-up |
| WebhookAgent.ValidateReportsFirstProblem | webhook_agent.py:137-182 | fails iff some rule is broken, and then reports exactly the first broken rule in the order adult name, email, sign-up type, child name |
| WebhookAgent.ValidateSuccess | webhook_agent.py:142-185 | on success each string is `str(v).strip()` of its aliased input with no emptiness re-check; the sign-up type is exactly "self" or "child"; the child name is `None` for "self" |
| WebhookAgent.ChildNameConditional | webhook_agent.py:165-182 | after the name and email pass, a truthy child name is required iff the sign-up type is "child"; under "self" it is dropped |
| WebhookAgent.AdultNameOf | webhook_agent.py:142 | `adult_name` when it is truthy, else `name_of_requestor` |
| WebhookAgent.SignupTypeOf | webhook_agent.py:160-163 | `signup_type` when it is truthy or there is no `request_on_behalf`; otherwise "child" exactly when `request_on_behalf` is "y", else "self" |
| WebhookAgent.ChildNameOf | webhook_agent.py:173 | `child_name` when it is truthy, else `name_of_child` |
| WebhookAgent.Migrate | webhook_agent.py:142-173 | rewriting legacy names leaves no legacy key |
| WebhookAgent.MigrationPreservesValidation | webhook_agent.py:142-173 | a record with legacy names validates exactly as with the current names: `name_of_requestor`/`name_of_child` only when the current field is falsy, and `request_on_behalf` "y" gives "child", anything else "self" |
| WebhookAgent.RecordDict | webhook_agent.py:184 | a validated record has exactly the keys adult_name, email_address, signup_type, child_name |
| WebhookAgent.ValidationDict | webhook_agent.py:137-185 | failure is exactly `{valid: False, error}` with no field values; success is `valid=True`, `error=None` plus exactly the four record keys |
| WebhookAgent.ValidatedDictReadsBack | webhook_agent.py:246 | what the validator reads back from its own success dictionary |
| WebhookAgent.RevalidateRecord | webhook_agent.py:246 | a stripped record validates again to itself unless one of its strings is empty |
| WebhookAgent.Revalidate | webhook_agent.py:246-252 | validating the validator's output again: a failure dictionary always fails with "Adult name is required"; a success fails only on a field stripping emptied |
| WebhookAgent.FirstValueNone | webhook_agent.py:107-113 | the line scan finds nothing exactly when no line mentions a keyword and has a `:` |
| WebhookAgent.FirstValueAt | webhook_agent.py:107-113 | otherwise it takes the stripped text between the first and second `:` of the first such line |
| WebhookAgent.BehalfAnswer | webhook_agent.py:117-121 | an answer is given only when the lowered text mentions "behalf", and it is "y" or "n" |
| WebhookAgent.Put | webhook_agent.py:112 | setting a found value adds that key only, and leaves the other entries as they were |
| WebhookAgent.ScanLines | webhook_agent.py:107-131 | the loop with `break` returns the value the line-scan specification picks |
| WebhookAgent.ParseStructuredResponse | webhook_agent.py:101-133 | the parser's dictionary equals the specification built from the name scan, the behalf answer and the child scan |
| WebhookAgent.StructuredKeys | webhook_agent.py:101-133 | the parser emits only `name_of_requestor`, `request_on_behalf`, `name_of_child`, all strings |
| WebhookAgent.StructuredBehalf | webhook_agent.py:117-121 | `request_on_behalf` is "y" iff the lowered text has "behalf" and a `y`; "n" iff "behalf", no `y` and an `n`; absent otherwise |
| WebhookAgent.StructuredChildOnBehalf | webhook_agent.py:124 | `name_of_child` is set only when `request_on_behalf` is "y" and the text mentions "child" |
| WebhookAgent.StructuredNeverValidates | webhook_agent.py:101-156 | the parser's output never validates: it fails on the name, or else on the missing email |
| WebhookAgent.RawFormData | webhook_agent.py:62-99 | form data reaches the validator exactly when the completion call returned |
| WebhookAgent.RawFormDataSource | webhook_agent.py:73-95 | the form data is the decoded candidate when the stripped reply has a `{`…`}` pair that decodes; with no pair, or a candidate that does not decode, it is the keyword parse of the stripped reply |
| WebhookAgent.CollectFormData | webhook_agent.py:25-99 | `{}` exactly when the completion call raised; otherwise the validator's dictionary for the extracted form data, which is never valid when there is no `{`…`}` pair or the candidate does not decode |
| WebhookAgent.ProcessUserInput | webhook_agent.py:226-264 | a submission posts exactly the record it reports, with exactly the four record keys |
| WebhookAgent.SubmitCollected | webhook_agent.py:239-264 | same, for the dictionary that `collect_form_data` returned |
| WebhookAgent.SubmitValidated | webhook_agent.py:245-264 | on the validator's output: a failure fails again on the adult name; a record fails on what stripping emptied, or is posted once, and success is the webhook's |
| WebhookAgent.ProcessUserInputOutcome | webhook_agent.py:226-264 | the whole pipeline: raised call gives the extraction error with no POST; failed validation gives "Adult name is required" with the collected dictionary and no POST; otherwise exactly one POST of the record minus valid/error, and success iff HTTP 200 |
| WebhookAgent.SubmittedRecordIsFilled | webhook_agent.py:245-264 | a posted record has a non-empty adult name and email, and a non-empty child name exactly for "child" |
| WebhookAgent.FilledRecordDict | webhook_agent.py:142-185 | the dictionary of a filled, well-formed record has those non-empty strings |
| WebhookAgent.ProcessUserInputLosesError | webhook_agent.py:226-252 | as written: for the reply `{"adult_name": "Ann"}`, the first validation fails on the email, yet the pipeline reports "Adult name is required" |
| WebhookAgent.NameOnlyReply | webhook_agent.py:73-82 | the reply `{"adult_name": "Ann"}` reaches the validator as the dictionary it decodes to |
| WebhookAgent.BracedReply | webhook_agent.py:73-82 | a reply that starts with `{` and ends with `}` goes to the decoder whole, and its decoding is the form data |
| WebhookAgent.BracedCandidate | webhook_agent.py:73-81 | the JSON candidate of such a reply is the whole reply |
| WebhookAgent.ProcessUserInputIntended | webhook_agent.py:245-264 | corrected pipeline: a submission posts exactly the record it reports |
| WebhookAgent.IntendedReportsFirstError | webhook_agent.py:245-252 | corrected pipeline reports the first validation's own error, and agrees with the source whenever that validation succeeds |
| Conversation.SessionPatch.ApplyTo | conversational_agent.py:63-66 | `dict.update`: each field given in the update takes the given value; the fields absent from it keep their values |
| Conversation.NewSession | conversational_agent.py:51-56 | a new entry has empty data and history, and every schema field outstanding, each once, starting with "adult_name" |
| Conversation.RemoveFirst | conversational_agent.py:149 | `list.remove(x)`: one element shorter, with one occurrence of `x` gone and nothing else, when `x` is present; the list unchanged otherwise |
| Conversation.Merge | conversational_agent.py:151 | `collected_data.update(new_data)`: the keys become the old keys plus the accepted fields |
| Conversation.StillRequired | conversational_agent.py:158-170 | an unconditional field is always required; a conditional one while its dependency holds the trigger value or is not collected |
| Conversation.AfterTurn | conversational_agent.py:265-287 | the history gains exactly two entries, the user's text and then an agent entry, the earlier ones kept; the step is unchanged |
| Conversation.CompleteIffNothingOutstanding | conversational_agent.py:174-212 | the reply's `session_complete` flag is set exactly when nothing is outstanding after the turn |
| Conversation.Without | conversational_agent.py:148-172 | filtering a list keeps an element iff it was there and is not filtered out, never lengthening the list |
| Conversation.WithoutIsSubsequence | conversational_agent.py:154-172 | the filtered list keeps the earlier order |
| Conversation.WithoutDistinct | conversational_agent.py:148-149 | filtering keeps a duplicate-free list duplicate-free |
| Conversation.WithoutTwice | conversational_agent.py:148-172 | two filters in a row are one filter by the union |
| Conversation.RemoveFirstDistinct | conversational_agent.py:148-149 | on a duplicate-free list, `list.remove(x)` is filtering out `x` |
| Conversation.WithoutOneMore | conversational_agent.py:148-149 | `if field in missing: missing.remove(field)` filters one more field out |
| Conversation.WithoutSnoc | conversational_agent.py:154-170 | appending then filtering is filtering then appending what survives |
| Conversation.ConfidenceGate | conversational_agent.py:144-151 | a field is merged iff it is a schema key with confidence (default 0) above 0.7; accepted values overwrite, other values stay, no key is removed |
| Conversation.NextMissingSpec | conversational_agent.py:148-172 | the new outstanding list is an order-preserving subsequence of the old one without the accepted fields; `child_name` stays iff the collected sign-up type is "child" or not collected |
| Conversation.TurnOutcome | conversational_agent.py:174-213 | a turn completes iff nothing is outstanding, posting the merged data once with success iff HTTP 200; otherwise it asks for the first outstanding field and returns the list |
| Conversation.CompletionRepeats | conversational_agent.py:175-280 | after a completion the outstanding list is `[]`, so the next turn completes and posts again |
| Conversation.NoExtractionKeepsData | conversational_agent.py:116-151 | a reply without a decodable `{`…`}` object leaves the collected data unchanged |
| Conversation.MergeNothing | conversational_agent.py:144-151 | merging an empty extraction changes nothing |
| Conversation.ExtractInformation | conversational_agent.py:103-130 | a decodable `{`…`}` candidate of the stripped reply is the extraction; fields come only from one, and otherwise the extraction is empty |
| Conversation.UnvalidatedSignupType | conversational_agent.py:144-172 | a confident "myself" is stored as the sign-up type unvalidated and drops the child's name from the outstanding list |
| Conversation.NextMissingWellFormed | conversational_agent.py:154-172 | the outstanding list stays duplicate-free and within the schema |
| Conversation.TurnKeepsShape | conversational_agent.py:206-212 | a question's outstanding list keeps that shape |
| Conversation.WithoutWellFormed | conversational_agent.py:154-172 | filtering keeps the outstanding-list shape |
| Conversation.AcceptStep | conversational_agent.py:145-149 | one iteration of the accepting loop adds the field and removes it from the list exactly when it is accepted |
| Conversation.ConversationalAgent.constructor | conversational_agent.py:46 | the session table starts empty |
| Conversation.ConversationalAgent.CreateSession | conversational_agent.py:48-57 | adds exactly one entry under the new id: empty data and history, step "greeting", all four fields outstanding; other entries unchanged |
| Conversation.ConversationalAgent.GetSession | conversational_agent.py:59-61 | the entry under the id, or none exactly when the id is unknown |
| Conversation.ConversationalAgent.UpdateSession | conversational_agent.py:63-66 | overwrites the given fields of an existing entry; an unknown id is a no-op |
| Conversation.ConversationalAgent.StartConversation | conversational_agent.py:242-252 | creates the session and asks for "adult_name", its first outstanding field |
| Conversation.ConversationalAgent.GenerateResponse | conversational_agent.py:132-213 | the turn's result is the turn specification (confidence gate, filtering, then question or completion) |
| Conversation.ConversationalAgent.AcceptConfident | conversational_agent.py:144-151 | the first loop builds exactly the accepted fields and removes exactly them from the outstanding list |
| Conversation.ConversationalAgent.KeepRequired | conversational_agent.py:153-172 | the second loop keeps, in order, exactly the fields still required |
| Conversation.ConversationalAgent.Respond | conversational_agent.py:265-287 | the result is the specification; history gains the user's then the agent's message; data and outstanding list become the turn's (`[]` after a completion); the step is unchanged |
| Conversation.ConversationalAgent.ContinueConversation | conversational_agent.py:254-294 | unknown id: error reply, table unchanged; known id: reply tagged with the id, only that entry changes, with exactly two history entries appended |

## Left out

- The completion calls and the prompts built for them (webhook_agent.py:35-71, conversational_agent.py:75-111) are not modelled. The model's reply is an input.
- `json.loads` is a decoder passed in as a parameter.
- WebhookAgent.RawFormData: a JSON candidate that decodes to something other than an object is not modelled. In the source the validator's `.get` then raises, and `collect_form_data` returns `{}`. The decoder here yields only objects.
- Conversation.ExtractInformation: likewise, a decoded value other than an object is not modelled. In the source, `generate_response` would raise on it.
- `requests.post`, `time.sleep(1)` and the 30-second timeout become one `HttpResult` per POST. The endpoint URL and its environment configuration are not modelled.
- `uuid4()` and `time.time()` are parameters. Conversation.ConversationalAgent.CreateSession does not require the id to be fresh, since a uuid4 clash is left out. A repeated id overwrites the existing entry, as the dictionary assignment would.
- A non-numeric confidence, which makes the `>` comparison raise, is not modelled. Confidence is a real number compared with 0.7 exactly, with no floating-point rounding.
- Text.Lower: `str.lower()` is modelled for ASCII letters only, not full Unicode case mapping.
- Values.PyStr: floats, lists and objects are carried with their printed form and truth value, not rendered by Python's `repr` rules.
- Conversation.MessageOf: the acknowledgement prefix of a question is not modelled. It lists the new fields in dictionary iteration order. The recorded message is the question, plus the options of the choice field.
- The greeting text of `start_conversation` and the error message text are not modelled. Greeting and SessionNotFound carry the fields the callers use.
- Conversation.ConversationalAgent.GenerateResponse requires a duplicate-free outstanding list of schema fields. Every session has one, because `create_session` creates it and every turn keeps it (`Valid`). A list holding a non-schema field would make the source raise `KeyError`.
- In-place aliasing inside a turn is not modelled. `generate_response` updates the session's own `collected_data` and `missing_fields` objects, and `continue_conversation` appends to the history before extracting. The model computes the new values and writes the entry once. The resulting entry is the same, because nothing in between reads the history, and `continue_conversation` overwrites both fields.
- `update_session` with keys outside the four session fields is not modelled. The session patch covers exactly those four fields.
- The front-ends and scripts (app.py, cli.py, web_app.py, setup.py, debug_test.py) and test_agent.py are not part of this model. test_agent.py's cases call the live services.
- The model follows the code, in particular:
  - The confidence gate keeps an older value when a new one is not confident enough (Conversation.ConfidenceGate).
  - A completed session is not closed, and later turns post again (Conversation.CompletionRepeats).
  - `current_step` stays "greeting".
  - The conversation asks for the email address before the sign-up type, the schema's declaration order.

## Findings

| source | as written | input that shows it | evidently intended | confidence | as-written member | corrected member |
|---|---|---|---|---|---|---|
| webhook_agent.py:246-252 | `process_user_input` validates the dictionary `collect_form_data` returned, which is already the validator's output. A failure dictionary has no name field, so every failed extraction is reported as "Adult name is required". | the reply text `{"adult_name": "Ann"}`, which decodes to that object: the first validation fails with "Email address is required", the pipeline reports "Adult name is required" | report the error the first validation found, and post a valid record as before | medium; not executed | WebhookAgent.ProcessUserInputLosesError | WebhookAgent.IntendedReportsFirstError |
