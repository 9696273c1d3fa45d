# Anonymous messaging API: message and login handlers in Dafny

This project models the two request handlers of a small anonymous-messaging
API that carry rules of their own:

- **Messages** (`MessagesController`). `store` sends a text or a recording to
  the user named in the URL. It looks the user up, fails with not-found if
  there is none, validates the body and appends one row to the messages
  table. `index` is meant to list the messages of the authenticated caller;
  `Index` models that listing (see "## Left out" for what the source line
  actually serialises). The users and messages tables are sequences held by the class
  `Messages.MessageBoard`. `Store` is a method that appends to the messages
  table. `Index` is a function over the table.
- **Login** (`LoginController`). `login` checks the limiter for the request's
  throttle key, then tries the credentials, then clears the key's counter on
  success or adds one to it on failure. A locked-out key gets 429 and its
  credentials are never tried. The limiter is a class over a
  `map<ThrottleKey, nat>` (`Throttle.Limiter`). The token guard is a class with
  an unknown credential check `accepts` and opaque tokens (`Session.Guard`).
  The controller (`Login.LoginController`) holds both plus the threshold.
  `Login.Decide` is the same state machine written as a pure function on the
  counters. The method is proved against it, and the lemmas about lockout,
  clearing, bumping and the other keys are stated on it.

Modules:

- `Values`: request input values, PHP truthiness, and the validator's
  notions of "supplied" and "size".
- `Http`: response texts, the caller, and route middleware.
- `Validation`: Laravel's rule evaluator for the rules `store` uses.
- `Messages`, `Throttle`, `Session`, `Login`: the handlers and their
  collaborators.

Validation follows the framework's rules, not just the rule strings:

- Rules run per attribute, in the order written.
- A rule that is not implicit (`max`, `string`) is skipped when its attribute
  is absent or holds a blank string.
- `required_without` is implicit. When it fails, the attribute's remaining
  rules are skipped.
- When neither `message` nor `record` is supplied, both attributes fail
  `required_without`, and both carry the custom text "You have to write a
  message or record a message.".

## Model

| member | source | states |
|---|---|---|
| `Values.OnlyFields` | app/Http/Controllers/Api/Auth/LoginController.php:41 | the credentials hold exactly those listed fields that the request has, with the request's values |
| `Validation.CheckAttribute` | app/Http/Controllers/Api/MessagesController.php:39-41 | each reported failure is a rule of the attribute that runs and fails; no failures iff no rule of the attribute fails; the first rule's failure is reported first; a failed implicit rule is the last failure reported; every rule that fails before the first failed implicit rule is reported (the order of the reports is pinned exactly only for `store`'s rules, by `Messages.StoreValidationUnfolded`) |
| `Validation.Validate` | app/Http/Controllers/Api/MessagesController.php:39-45 | the input is valid (no failures) iff no rule of any attribute runs and fails |
| `Messages.StoreValidationUnfolded` | app/Http/Controllers/Api/MessagesController.php:39-45 | the failures of `store`'s rules in order: message's `required_without`, else its `max` and `string`; then record's `required_without` |
| `Messages.StoreRulesAccept` | app/Http/Controllers/Api/MessagesController.php:39-41 | valid iff a message or a record was supplied and a present, non-blank message is a string of at most 1500 characters |
| `Messages.MissingPayloadRejected` | app/Http/Controllers/Api/MessagesController.php:39-45 | with neither payload supplied, both fields fail `required_without`, message first, and both report the custom text |
| `Messages.ErrorText` | app/Http/Controllers/Api/MessagesController.php:39-45 | a failure with a custom message reports that message; any other failure reports a translation, and the translation of a failed `max` carries the limit as its `max` parameter |
| `Messages.MissingPayloadText` | app/Http/Controllers/Api/MessagesController.php:42-45 | the `required_without` failure of either field reports "You have to write a message or record a message." |
| `Messages.NonStringMessageRejected` | app/Http/Controllers/Api/MessagesController.php:40 | a present message that is not a string fails `string`, or `required_without` if nothing was supplied |
| `Messages.LongMessageRejected` | app/Http/Controllers/Api/MessagesController.php:40 | a non-blank message longer than 1500 characters fails `max:1500` |
| `Messages.FirstNamed` | app/Http/Controllers/Api/MessagesController.php:38 | the position found is the first user with the username, or the end of the table if none has it |
| `Messages.FindUser` | app/Http/Controllers/Api/MessagesController.php:38 | the lookup fails iff no user has the username; otherwise it returns a user of the table with that username |
| `Messages.RowAsWritten` | app/Http/Controllers/Api/MessagesController.php:48-58 | the source's row: it belongs to the recipient, holds at most one payload, holds the message iff the message is PHP-truthy, and otherwise holds the submitted record |
| `Messages.NewRow` | app/Http/Controllers/Api/MessagesController.php:48-58 | the corrected row: it belongs to the recipient, holds at most one payload, holds the message iff a message was supplied in the validator's sense, and otherwise holds the submitted record |
| `Messages.StoredRowHasOnePayload` | app/Http/Controllers/Api/MessagesController.php:48-58 | for valid input the row belongs to the recipient and holds exactly one supplied payload: the message (a string of at most 1500 characters) when one was supplied, otherwise the record |
| `Messages.ZeroMessageStoresNothing` | app/Http/Controllers/Api/MessagesController.php:48-57 | the source's truthiness test lets the message "0" pass validation and then builds a row with neither message nor record |
| `Messages.CorrectionScope` | app/Http/Controllers/Api/MessagesController.php:48-57 | for valid input, the source's row and the corrected row differ iff the message is "0" or a non-empty blank string |
| `Messages.MessageBoard.Store` | app/Http/Controllers/Api/MessagesController.php:35-60 | unknown username: not-found (404), table unchanged, whatever the body; invalid body: the validator's failures (422), table unchanged; otherwise exactly the new row is appended for the recipient and returned (201) |
| `Messages.AccessRules` | app/Http/Controllers/Api/MessagesController.php:15 | `store` is reachable by every caller; `index` iff the caller is authenticated |
| `Messages.MessageBoard.Index` | app/Http/Controllers/Api/MessagesController.php:23-26 | a guest gets no listing; an authenticated caller gets exactly the rows whose `user_id` is theirs |
| `Messages.OwnedBy` | app/Http/Controllers/Api/MessagesController.php:25 | the listing is no longer than the table and holds only rows of the table whose `user_id` is the caller's |
| `Messages.OwnedByComplete` | app/Http/Controllers/Api/MessagesController.php:25 | every row of the caller's appears in their listing |
| `Messages.OwnedByInOrder` | app/Http/Controllers/Api/MessagesController.php:25 | the listing is the caller's rows at strictly increasing table positions, skipping none of theirs |
| `Messages.OwnedByAppend` | app/Http/Controllers/Api/MessagesController.php:59 | appending a row puts it at the end of its recipient's listing and leaves every other user's listing unchanged |
| `Throttle.Bumped` | app/Http/Controllers/Api/Auth/LoginController.php:48 | a failed attempt adds one to the key's count and leaves every other key's count unchanged |
| `Throttle.Cleared` | app/Http/Controllers/Api/Auth/LoginController.php:63 | clearing sets the key's count to zero and leaves every other key's count unchanged |
| `Throttle.Limiter.Hit` | app/Http/Controllers/Api/Auth/LoginController.php:48 | the counters become the bumped counters, and the new count is returned |
| `Throttle.Limiter.Clear` | app/Http/Controllers/Api/Auth/LoginController.php:63 | the counters become the cleared counters |
| `Session.Guard.Attempt` | app/Http/Controllers/Api/Auth/LoginController.php:41 | the credentials are recorded as presented; a match logs in with a fresh token and returns it; otherwise nothing is returned and the token in force is unchanged |
| `Session.Guard.Logout` | app/Http/Controllers/Api/Auth/LoginController.php:128 | no token is in force afterwards |
| `Login.Username` | app/Http/Controllers/Api/Auth/LoginController.php:105-108 | the identifying field is one of the two credential fields handed to the guard |
| `Login.ThrottleKeyOf` | app/Http/Controllers/Api/Auth/LoginController.php:29-31 | the key pairs the client address with the identifier the guard is given among the credentials |
| `Login.LoginCredentials` | app/Http/Controllers/Api/Auth/LoginController.php:41 | the credentials handed to the guard hold exactly the request's `email` and `password` fields that are present, with the request's values |
| `Throttle.Limiter.TooManyAttempts` | app/Http/Controllers/Api/Auth/LoginController.php:32-35 | locked out iff the key's count has reached the threshold; a key never hit is locked out only at a threshold of 0; the decay timer is left out |
| `Login.Decide` | app/Http/Controllers/Api/Auth/LoginController.php:27-51 | one login on the counters: no key other than the request's own changes |
| `Login.DecideOutcomes` | app/Http/Controllers/Api/Auth/LoginController.php:32-50 | locked out iff the key has used up its attempts (counters unchanged); logged in iff not locked out and the credentials match (count cleared); otherwise failed (count up by exactly one) |
| `Login.LockoutIgnoresCredentials` | app/Http/Controllers/Api/Auth/LoginController.php:32-39 | for a locked-out key the result is the same whatever the credential check says, and the counters are unchanged |
| `Login.OnlyEmailAndPasswordMatter` | app/Http/Controllers/Api/Auth/LoginController.php:29-41 | two requests from one address that agree on `email` and `password` log in the same way, whatever their other fields |
| `Login.RetryCounts` | app/Http/Controllers/Api/Auth/LoginController.php:48 | each repeated failure below the threshold adds exactly one to the key's count |
| `Login.FailuresLockOut` | app/Http/Controllers/Api/Auth/LoginController.php:32-48 | once failures bring a key to the threshold, the next login on that key is locked out, whatever its credentials |
| `Login.ResponseShapes` | app/Http/Controllers/Api/Auth/LoginController.php:74-108 | success is 200 with the token, failure is 422 and lockout is 429; both error bodies are keyed by `email`, and the lockout body carries the limiter's seconds |
| `Login.FailedLoginResponse` | app/Http/Controllers/Api/Auth/LoginController.php:74-79 | status 422, with the `auth.failed` translation under the identifying field |
| `Login.LockoutResponse` | app/Http/Controllers/Api/Auth/LoginController.php:87-98 | status 429, with the `auth.throttle` translation under the identifying field and the limiter's seconds as its `seconds` parameter |
| `Login.LogoutResponse` | app/Http/Controllers/Api/Auth/LoginController.php:129 | status 200 with `{"message": "Successfully logged out"}` |
| `Login.AccessRules` | app/Http/Controllers/Api/Auth/LoginController.php:17-18 | `login`, and every other action outside `me`, `logout` and `refresh`, is reachable iff the caller is a guest; `me`, `logout` and `refresh` iff the caller is authenticated |
| `Login.LoginController.Login` | app/Http/Controllers/Api/Auth/LoginController.php:27-51 | the counters follow `Decide`. Locked out: 429 response, lockout event recorded, counters and guard untouched. Otherwise only `email` and `password` go to the guard. Match: token response, a fresh token in force and counted as issued, key cleared. No match: 422 response, guard token unchanged, key bumped |
| `Login.LoginController.SendLoginResponse` | app/Http/Controllers/Api/Auth/LoginController.php:60-66 | clears the request's key and answers with the token |
| `Login.LoginController.Logout` | app/Http/Controllers/Api/Auth/LoginController.php:126-130 | no token is in force afterwards, the issue count and the record of presented credentials are unchanged, and the answer is `{"message": "Successfully logged out"}` |

## Findings

| source | as written | input that shows it | evidently intended | confidence | as-written member | corrected member |
|---|---|---|---|---|---|---|
| app/Http/Controllers/Api/MessagesController.php:48 | the payload branch tests the message for PHP truthiness, so "0" passes validation as a message and then takes the record branch | body `{"message": "0"}` with no record: the stored row has neither a message nor a record | store the message whenever it was supplied in the validator's sense, so that every stored row holds exactly one payload | not executed; high | `Messages.RowAsWritten` | `Messages.NewRow` |

`Messages.RowAsWritten` is the row exactly as the source builds it, and
`Messages.ZeroMessageStoresNothing` exhibits the input above on it.
`Messages.NewRow` is the corrected row, `Messages.StoredRowHasOnePayload`
proves the one-payload property of it, and `Messages.MessageBoard.Store` uses
it. `Messages.CorrectionScope` shows that the two differ only in these cases:

- the message is "0";
- the message is a non-empty string of whitespace. The validator skips `max`
  and `string` for such a message, so the source would store it and drop the
  record. Whether such input reaches the handler depends on the HTTP kernel's
  input middleware, which is not part of this model.

## Left out

- `Messages.MessageBoard.Store`: builds the row with the corrected payload test (see Findings), not with `if ($request->message)`; the source's own row is `Messages.RowAsWritten`.
- Token handling. Issuing, refreshing and revoking tokens belongs to the JWT guard, and `User::respondWithToken` is not part of this model. The guard is an unknown credential check with opaque serial-numbered tokens. The success body carries only the token, not `token_type` or `expires_in`.
- `me` and `refresh`: the profile resource and token refresh are not part of this model; only their access rules are.
- `show`, `edit`, `update` and `destroy` have empty bodies, so there is no behaviour to model.
- Limiter internals. The lockout test is "count at or above the threshold"; the decay window that later resets a count is not modelled. The seconds remaining (`availableIn`) are a parameter of `Login`. `minutes` is a floating-point division and is omitted. A threshold of 0 would lock out a key that was never hit, where the framework's limiter also needs a lockout timer entry; the controller uses the default threshold of 5, so that case does not arise.
- Throttle key derivation. The key is the submitted `email` value paired with the client address; lower-casing and transliteration of the identifier are not modelled. The source builds the key as the lower-cased string of the identifier joined to the address with `|`; the model keys by the value as submitted, so it keeps apart identifiers the string conversion merges (an absent or null `email` and `""`, an integer and its decimal string), and it does not model the failure of that conversion for an array-valued `email`.
- Lockout event: it is recorded in `lockoutEvents`; its listeners are not modelled.
- Presentation. Translated texts appear as their keys and parameters; the `:attribute` replacement is not modelled. JSON encoding, the response of the `guest` middleware to an authenticated caller, and the framework's validation error envelope are not modelled.
- ORM. Row ids and timestamps are not modelled. The username lookup is exact string equality in table order; database collation and the absence of an `ORDER BY` are not modelled.
- `Messages.MessageBoard.Index`: models the intended listing, the caller's rows in storage order (what the `messages` relation property would give), not what `index` serialises. The source calls the relation method `messages()`, which yields a relation query object rather than its rows; how that object encodes as JSON depends on the `User` model, which is not part of this model, so the discrepancy cannot be confirmed here.
- Input values have no floating-point case. Every uploaded file counts as a valid upload for `max`.
- Global input middleware (string trimming, empty string to null) is not part of this model; handlers see input as submitted.
- Routing: the route table and its matching rules belong to the framework.
