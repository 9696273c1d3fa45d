/**
  The message endpoints: anyone may send a text or a recording to a user
  named in the URL (`store`), and an authenticated user lists the messages
  sent to them (`index`). The users and messages tables are sequences in
  storage order.
*/
module Messages {
  import opened Values
  import opened Validation
  import opened Http

  /** A row of the users table, as far as these handlers read it. */
  datatype User = User(id: nat, username: string)

  /** A row of the messages table: its fillable columns `user_id`, `message`
      and `record`; a column the handler does not fill holds Null. */
  datatype Message = Message(userId: nat, message: Value, record: Value)

  datatype StoreResult = NotFound | Invalid(errors: seq<Failure>) | Created(row: Message)

  datatype IndexResult = Unauthenticated | Listed(rows: seq<Message>)

  /** Middleware the controller registers: `auth:api` for `index` only. */
  const Registrations: seq<Registration> := [Registration(AuthApi, Only({"index"}))]

  /** The validation rules of `store`, in the order written. */
  const StoreRules: RuleSet := [
    ("message", [RequiredWithout("record"), Max(1500), IsString]),
    ("record", [RequiredWithout("message")])
  ]

  const MissingPayload := "You have to write a message or record a message."

  /** The custom messages `store` passes to the validator, keyed `attribute.rule`. */
  const CustomMessages: map<string, string> := map[
    "message.required_without" := MissingPayload,
    "record.required_without" := MissingPayload
  ]

  function RuleName(rule: Rule): string
  {
    match rule
    case RequiredWithout(_) => "required_without"
    case Max(_) => "max"
    case IsString => "string"
  }

  /** The translation key of a failed rule. A size rule such as `max` has one
      key per kind of value: `file` for an upload and otherwise `string`, as
      no attribute of `store` carries a numeric or array rule. */
  function TranslationKey(input: Input, f: Failure): string
  {
    match f.rule
    case Max(_) => "validation.max." + (if Get(input, f.attribute).File? then "file" else "string")
    case _ => "validation." + RuleName(f.rule)
  }

  /** The text reported for a failure: the custom message if there is one,
      otherwise the validator's translation for the rule, with the limit of
      `max` as its `max` parameter. */
  function ErrorText(input: Input, f: Failure): (t: Text)
    ensures f.attribute + "." + RuleName(f.rule) in CustomMessages ==>
      t == Literal(CustomMessages[f.attribute + "." + RuleName(f.rule)])
    ensures f.attribute + "." + RuleName(f.rule) !in CustomMessages ==> t.Translated?
    ensures t.Translated? && f.rule.Max? ==> t.params == map["max" := f.rule.limit]
  {
    var key := f.attribute + "." + RuleName(f.rule);
    if key in CustomMessages then Literal(CustomMessages[key])
    else if f.rule.Max? then Translated(TranslationKey(input, f), map["max" := f.rule.limit])
    else Translated(TranslationKey(input, f), map[])
  }

  /** The status `store` answers with: not-found, a validation failure and a
      created model are 404, 422 and 201 in the framework. */
  function StoreStatus(r: StoreResult): nat
  {
    match r
    case NotFound => 404
    case Invalid(_) => 422
    case Created(_) => 201
  }

  /** Position of the first user with the given username, or |users| if none has it. */
  function FirstNamed(users: seq<User>, username: string): (k: nat)
    ensures k <= |users|
    ensures k < |users| ==> users[k].username == username
    ensures forall j :: 0 <= j < k ==> users[j].username != username
  {
    if users == [] then 0
    else if users[0].username == username then 0
    else 1 + FirstNamed(users[1..], username)
  }

  /** `User::where('username', $username)->first()`. */
  function FindUser(users: seq<User>, username: string): (r: Option<User>)
    ensures r.None? <==> forall u :: u in users ==> u.username != username
    ensures r.Some? ==> r.value in users && r.value.username == username
  {
    var k := FirstNamed(users, username);
    if k < |users| then Some(users[k]) else None
  }

  /** The row `store` builds: the message if it was supplied, otherwise the
      record. The source tests the message for PHP truthiness instead (see
      RowAsWritten); this is the intended test. */
  function NewRow(userId: nat, input: Input): (r: Message)
    ensures r.userId == userId && (r.message == Null || r.record == Null)
    ensures r.message != Null <==> Required(Get(input, "message"))
    ensures r.message != Null ==> r.message == Get(input, "message")
    ensures r.message == Null ==> r.record == Get(input, "record")
  {
    var message := Get(input, "message");
    if Required(message) then Message(userId, message, Null)
    else Message(userId, Null, Get(input, "record"))
  }

  /** The row exactly as the source builds it: `if ($request->message)`. */
  function RowAsWritten(userId: nat, input: Input): (r: Message)
    ensures r.userId == userId && (r.message == Null || r.record == Null)
    ensures r.message != Null <==> Truthy(Get(input, "message"))
    ensures r.message != Null ==> r.message == Get(input, "message")
    ensures r.message == Null ==> r.record == Get(input, "record")
  {
    var message := Get(input, "message");
    if Truthy(message) then Message(userId, message, Null)
    else Message(userId, Null, Get(input, "record"))
  }

  /** The caller's messages, in storage order. */
  function OwnedBy(rows: seq<Message>, userId: nat): (r: seq<Message>)
    ensures |r| <= |rows|
    ensures forall m :: m in r ==> m in rows && m.userId == userId
  {
    if rows == [] then []
    else (if rows[0].userId == userId then [rows[0]] else []) + OwnedBy(rows[1..], userId)
  }

  /** `store` is open to every caller; `index` only to authenticated ones. */
  lemma AccessRules(caller: Caller)
    ensures Reaches(Registrations, "store", caller)
    ensures Reaches(Registrations, "index", caller) <==> caller.Authenticated?
  {
    assert Applies(Registrations[0], "index");
  }

  /** The failures of the message's rules: `max` and `string` are skipped
      once `required_without` fails. */
  function MessageFailures(input: Input): seq<Failure>
  {
    if Fails(input, "message", RequiredWithout("record")) then [Failure("message", RequiredWithout("record"))]
    else
      (if Fails(input, "message", Max(1500)) then [Failure("message", Max(1500))] else [])
      + (if Fails(input, "message", IsString) then [Failure("message", IsString)] else [])
  }

  function RecordFailures(input: Input): seq<Failure>
  {
    if Fails(input, "record", RequiredWithout("message")) then [Failure("record", RequiredWithout("message"))] else []
  }

  /** The failures of `store`'s rules, spelled out rule by rule: the message's
      remaining rules are skipped once its `required_without` fails. */
  lemma StoreValidationUnfolded(input: Input)
    ensures Validate(input, StoreRules) ==
      MessageFailures(input) + RecordFailures(input)
  {
    var rules := [RequiredWithout("record"), Max(1500), IsString];
    var tail := [Max(1500), IsString];
    assert StoreRules[0] == ("message", rules);
    assert rules[1..] == tail && tail[1..] == [IsString] && [IsString][1..] == [];
    assert CheckAttribute(input, "message", [IsString]) ==
      (if Fails(input, "message", IsString) then [Failure("message", IsString)] else []);
    assert CheckAttribute(input, "message", tail) ==
      (if Fails(input, "message", Max(1500)) then [Failure("message", Max(1500))] else [])
      + CheckAttribute(input, "message", [IsString]);
    assert CheckAttribute(input, "message", rules) == MessageFailures(input);
    var recordRules := [RequiredWithout("message")];
    assert StoreRules[1..] == [("record", recordRules)] && recordRules[1..] == [];
    assert CheckAttribute(input, "record", recordRules) == RecordFailures(input);
    assert Validate(input, StoreRules[1..]) == RecordFailures(input) + Validate(input, StoreRules[1..][1..]);
    assert StoreRules[1..][1..] == [];
  }

  /** Validation passes exactly when a payload was supplied and a message that
      is checked at all (present and not blank) is a string of at most 1500
      characters. */
  lemma StoreRulesAccept(input: Input)
    ensures Validate(input, StoreRules) == [] <==>
      && (Required(Get(input, "message")) || Required(Get(input, "record")))
      && (var m := Get(input, "message");
          "message" in input && !(m.Str? && IsBlank(m.text)) ==> m.Str? && |m.text| <= 1500)
  {
    StoreValidationUnfolded(input);
  }

  /** With neither field supplied, both fields fail `required_without`, in
      order, and both carry the custom text. */
  lemma MissingPayloadRejected(input: Input)
    requires !Required(Get(input, "message")) && !Required(Get(input, "record"))
    ensures Validate(input, StoreRules) ==
      [Failure("message", RequiredWithout("record")), Failure("record", RequiredWithout("message"))]
    ensures forall f :: f in Validate(input, StoreRules) ==> ErrorText(input, f) == Literal(MissingPayload)
  {
    StoreValidationUnfolded(input);
    MissingPayloadText(input, "message", "record");
    MissingPayloadText(input, "record", "message");
  }

  lemma MissingPayloadText(input: Input, attribute: string, other: string)
    requires attribute == "message" || attribute == "record"
    ensures ErrorText(input, Failure(attribute, RequiredWithout(other))) == Literal(MissingPayload)
  {
    assert "message" + "." + "required_without" == "message.required_without";
    assert "record" + "." + "required_without" == "record.required_without";
  }

  /** A message that is present but not a string is rejected: by `string`, or
      by `required_without` when nothing was supplied at all. */
  lemma NonStringMessageRejected(input: Input)
    requires "message" in input && !input["message"].Str?
    ensures Failure("message", IsString) in Validate(input, StoreRules)
            || Failure("message", RequiredWithout("record")) in Validate(input, StoreRules)
  {
    StoreValidationUnfolded(input);
  }

  /** A message of more than 1500 characters that is not blank fails `max:1500`. */
  lemma LongMessageRejected(input: Input)
    requires "message" in input && input["message"].Str?
    requires |input["message"].text| > 1500 && !IsBlank(input["message"].text)
    ensures Failure("message", Max(1500)) in Validate(input, StoreRules)
  {
    StoreValidationUnfolded(input);
  }

  /** A valid submission yields a row for the recipient holding exactly one
      supplied payload: the message when one was supplied (a string of at most
      1500 characters), otherwise the record. */
  lemma {:induction false} StoredRowHasOnePayload(userId: nat, input: Input)
    requires Validate(input, StoreRules) == []
    ensures NewRow(userId, input).userId == userId
    ensures Required(NewRow(userId, input).message) != Required(NewRow(userId, input).record)
    ensures NewRow(userId, input).message == Null || NewRow(userId, input).record == Null
    ensures Required(Get(input, "message")) ==>
      NewRow(userId, input).message == Get(input, "message") && Get(input, "message").Str?
      && |Get(input, "message").text| <= 1500
    ensures !Required(Get(input, "message")) ==> NewRow(userId, input).record == Get(input, "record")
  {
    StoreRulesAccept(input);
    var m := Get(input, "message");
    if Required(m) {
      assert "message" in input;
    }
  }

  /** The source's payload test lets a message of "0" pass validation and then
      drops it: with no record supplied, the stored row has neither payload. */
  lemma ZeroMessageStoresNothing(userId: nat)
    ensures Validate(map["message" := Str("0")], StoreRules) == []
    ensures RowAsWritten(userId, map["message" := Str("0")]) == Message(userId, Null, Null)
  {
    var input := map["message" := Str("0")];
    assert !IsBlank("0") by { assert !IsTrimmed("0"[0]); }
    StoreRulesAccept(input);
  }

  /** On valid input the corrected row differs from the source's exactly when
      the message is "0" or a non-empty blank string. */
  lemma {:induction false} CorrectionScope(userId: nat, input: Input)
    requires Validate(input, StoreRules) == []
    ensures RowAsWritten(userId, input) != NewRow(userId, input) <==>
      Get(input, "message").Str? &&
      (Get(input, "message").text == "0" || (Get(input, "message").text != "" && IsBlank(Get(input, "message").text)))
  {
    StoreRulesAccept(input);
    var m := Get(input, "message");
    if m.Str? && m.text == "0" {
      assert !IsBlank(m.text) by { assert !IsTrimmed(m.text[0]); }
    }
  }

  /** Every row of the caller's appears in their listing. */
  lemma {:induction false} OwnedByComplete(rows: seq<Message>, userId: nat)
    ensures forall m :: m in rows && m.userId == userId ==> m in OwnedBy(rows, userId)
  {
    if rows != [] {
      OwnedByComplete(rows[1..], userId);
      forall m | m in rows && m.userId == userId
        ensures m in OwnedBy(rows, userId)
      {
        if m != rows[0] {
          assert m in rows[1..];
        }
      }
    }
  }

  function Shift(ps: seq<nat>): (r: seq<nat>)
    ensures |r| == |ps| && forall k :: 0 <= k < |ps| ==> r[k] == ps[k] + 1
  {
    seq(|ps|, k requires 0 <= k < |ps| => ps[k] + 1)
  }

  /** The positions in the table of the rows `OwnedBy` picks. */
  ghost function OwnedPositions(rows: seq<Message>, userId: nat): (ps: seq<nat>)
    ensures |ps| == |OwnedBy(rows, userId)|
    ensures forall k :: 0 <= k < |ps| ==> ps[k] < |rows|
  {
    if rows == [] then []
    else (if rows[0].userId == userId then [0] else []) + Shift(OwnedPositions(rows[1..], userId))
  }

  lemma {:induction false} OwnedPositionsPick(rows: seq<Message>, userId: nat)
    ensures forall k :: 0 <= k < |OwnedPositions(rows, userId)| ==>
      rows[OwnedPositions(rows, userId)[k]] == OwnedBy(rows, userId)[k]
  {
    if rows != [] {
      OwnedPositionsPick(rows[1..], userId);
      var rest := OwnedPositions(rows[1..], userId);
      var head := if rows[0].userId == userId then [0] else [];
      var ps := OwnedPositions(rows, userId);
      assert ps == head + Shift(rest);
      assert OwnedBy(rows, userId) == (if rows[0].userId == userId then [rows[0]] else []) + OwnedBy(rows[1..], userId);
      forall k | 0 <= k < |ps|
        ensures rows[ps[k]] == OwnedBy(rows, userId)[k]
      {
        if k >= |head| {
          assert ps[k] == rest[k - |head|] + 1;
          assert rows[1..][rest[k - |head|]] == rows[ps[k]];
        }
      }
    }
  }

  lemma {:induction false} OwnedPositionsIncrease(rows: seq<Message>, userId: nat)
    ensures forall k, l :: 0 <= k < l < |OwnedPositions(rows, userId)| ==>
      OwnedPositions(rows, userId)[k] < OwnedPositions(rows, userId)[l]
  {
    if rows != [] {
      OwnedPositionsIncrease(rows[1..], userId);
    }
  }

  lemma {:induction false} OwnedPositionsComplete(rows: seq<Message>, userId: nat)
    ensures forall i :: 0 <= i < |rows| && rows[i].userId == userId ==> i in OwnedPositions(rows, userId)
  {
    if rows != [] {
      OwnedPositionsComplete(rows[1..], userId);
      var rest := OwnedPositions(rows[1..], userId);
      var head := if rows[0].userId == userId then [0] else [];
      var ps := OwnedPositions(rows, userId);
      assert ps == head + Shift(rest);
      forall i | 0 <= i < |rows| && rows[i].userId == userId
        ensures i in ps
      {
        if i == 0 {
          assert ps[0] == 0;
        } else {
          assert rows[1..][i - 1] == rows[i];
          var k :| 0 <= k < |rest| && rest[k] == i - 1;
          assert ps[|head| + k] == i;
        }
      }
    }
  }

  /** The listing keeps storage order: it is the caller's rows picked out at
      strictly increasing positions, and no row of the caller's is skipped. */
  lemma OwnedByInOrder(rows: seq<Message>, userId: nat) returns (positions: seq<nat>)
    ensures |positions| == |OwnedBy(rows, userId)|
    ensures forall k :: 0 <= k < |positions| ==> positions[k] < |rows| && rows[positions[k]] == OwnedBy(rows, userId)[k]
    ensures forall k, l :: 0 <= k < l < |positions| ==> positions[k] < positions[l]
    ensures forall i :: 0 <= i < |rows| && rows[i].userId == userId ==> i in positions
  {
    positions := OwnedPositions(rows, userId);
    OwnedPositionsPick(rows, userId);
    OwnedPositionsIncrease(rows, userId);
    OwnedPositionsComplete(rows, userId);
  }

  /** Storing a row adds it to the end of its recipient's listing and leaves
      every other user's listing as it was. */
  lemma {:induction false} OwnedByAppend(rows: seq<Message>, row: Message, userId: nat)
    ensures OwnedBy(rows + [row], userId) == OwnedBy(rows, userId) + (if row.userId == userId then [row] else [])
  {
    if rows != [] {
      assert (rows + [row])[1..] == rows[1..] + [row];
      OwnedByAppend(rows[1..], row, userId);
    } else {
      assert OwnedBy([row][1..], userId) == [];
    }
  }

  /** The users and messages tables, and the two message handlers. */
  class MessageBoard {
    var users: seq<User>
    var messages: seq<Message>

    constructor(users: seq<User>, messages: seq<Message>)
      ensures this.users == users && this.messages == messages
    {
      this.users := users;
      this.messages := messages;
    }

    /** `store($request, $username)`: resolve the recipient, validate, then
        insert one row. An unknown username is reported before the body is
        looked at; any failure leaves the table as it was. */
    method Store(username: string, input: Input) returns (r: StoreResult)
      modifies this`messages
      ensures FindUser(users, username).None? ==>
        r == NotFound && StoreStatus(r) == 404 && messages == old(messages)
      ensures FindUser(users, username).Some? && Validate(input, StoreRules) != [] ==>
        r == Invalid(Validate(input, StoreRules)) && StoreStatus(r) == 422 && messages == old(messages)
      ensures FindUser(users, username).Some? && Validate(input, StoreRules) == [] ==>
        && r == Created(NewRow(FindUser(users, username).value.id, input)) && StoreStatus(r) == 201
        && messages == old(messages) + [r.row]
    {
      var user := FindUser(users, username);
      if user.None? {
        return NotFound;
      }
      var errors := Validate(input, StoreRules);
      if errors != [] {
        return Invalid(errors);
      }
      var row: Message;
      if Required(Get(input, "message")) {
        row := Message(user.value.id, Get(input, "message"), Null);
      } else {
        row := Message(user.value.id, Null, Get(input, "record"));
      }
      messages := messages + [row];
      return Created(row);
    }

    /** `index()`: behind `auth:api`, the caller's messages in storage order. */
    function Index(caller: Caller): (r: IndexResult)
      reads this
      ensures r.Listed? <==> caller.Authenticated?
      ensures r.Listed? ==> forall m :: m in r.rows <==> m in messages && m.userId == caller.userId
    {
      AccessRules(caller);
      if !Reaches(Registrations, "index", caller) then Unauthenticated
      else
        OwnedByComplete(messages, caller.userId);
        Listed(OwnedBy(messages, caller.userId))
    }
  }
}
