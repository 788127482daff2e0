/**
 * The contact-form rules of the submit handler: each of the three fields is
 * checked by a "not empty" rule and then, only if that passed, a length or
 * format rule. Every field is checked, and the form is valid when none failed.
 */
module Validation {
  import opened Wrappers
  import opened Text
  import opened Email

  /** The three inputs of the contact form, in the order the handler checks them. */
  datatype Field = Name | Email | Message

  /** One inline error: the field it belongs to and the text shown in its error box. */
  datatype FieldError = FieldError(field: Field, text: string)

  const EmptyName := "Please enter your name"
  const ShortName := "Name must be at least 2 characters"
  const EmptyEmail := "Please enter your email address"
  const BadEmail := "Please enter a valid email address"
  const EmptyMessage := "Please enter a message"
  const ShortMessage := "Message must be at least 10 characters"

  const MinNameLength := 2
  const MinMessageLength := 10

  /** The name rule: the error text it produces, if any. */
  function NameCheck(name: string): (r: Option<string>)
    ensures r.None? <==> |name| >= MinNameLength
    ensures r.Some? ==> r.value != ""
  {
    if name == "" then Some(EmptyName)
    else if |name| < MinNameLength then Some(ShortName)
    else None
  }

  /** The email rule: the error text it produces, if any. */
  function EmailCheck(email: string): (r: Option<string>)
    ensures r.None? <==> MatchesPattern(email)
    ensures r.Some? ==> r.value != ""
  {
    if email == "" then Some(EmptyEmail)
    else if !IsValidEmail(email) then Some(BadEmail)
    else None
  }

  /** The message rule: the error text it produces, if any. */
  function MessageCheck(message: string): (r: Option<string>)
    ensures r.None? <==> |message| >= MinMessageLength
    ensures r.Some? ==> r.value != ""
  {
    if message == "" then Some(EmptyMessage)
    else if |message| < MinMessageLength then Some(ShortMessage)
    else None
  }

  /** The error of one field, if its check fails. */
  function CheckField(f: Field, name: string, email: string, message: string): Option<string>
  {
    match f
    case Name => NameCheck(name)
    case Email => EmailCheck(email)
    case Message => MessageCheck(message)
  }

  /** Appends the error for `f` when there is one. */
  function Report(errors: seq<FieldError>, f: Field, check: Option<string>): seq<FieldError>
  {
    match check
    case None => errors
    case Some(text) => errors + [FieldError(f, text)]
  }

  /** The position of a field in the order the handler checks them. */
  function Rank(f: Field): nat
  {
    match f
    case Name => 0
    case Email => 1
    case Message => 2
  }

  /** Errors listed in strictly increasing field order, so at most one per field. */
  predicate InFieldOrder(errors: seq<FieldError>)
  {
    forall i, j | 0 <= i < j < |errors| :: Rank(errors[i].field) < Rank(errors[j].field)
  }

  /** Whether field `f` passes the rule the submit handler enforces for it: a length bound, or the email pattern. */
  ghost predicate Acceptable(f: Field, name: string, email: string, message: string)
  {
    match f
    case Name => |name| >= MinNameLength
    case Email => MatchesPattern(email)
    case Message => |message| >= MinMessageLength
  }

  /**
   * The handler's three checks, run one after another on the (already
   * trimmed) values: the errors in the order name, email, message.
   */
  function Validate(name: string, email: string, message: string): (errors: seq<FieldError>)
    ensures |errors| <= 3
    ensures InFieldOrder(errors)
  {
    var errors := Report([], Name, NameCheck(name));
    var errors := Report(errors, Email, EmailCheck(email));
    Report(errors, Message, MessageCheck(message))
  }

  /** The fields that have an error in `errors`. */
  function FailedFields(errors: seq<FieldError>): set<Field>
  {
    set i | 0 <= i < |errors| :: errors[i].field
  }

  /** The text reported for field `f`, or the empty string when it has none. */
  function ErrorText(errors: seq<FieldError>, f: Field): string
  {
    if errors == [] then ""
    else if errors[0].field == f then errors[0].text
    else ErrorText(errors[1..], f)
  }

  /** The submitted form is accepted exactly when no field produced an error. */
  predicate IsValid(name: string, email: string, message: string)
  {
    Validate(name, email, message) == []
  }

  /** Appending an error for a field not yet reported adds it and leaves the other fields' texts alone. */
  lemma {:induction false} ErrorTextAppend(errors: seq<FieldError>, e: FieldError, f: Field)
    requires e.field !in FailedFields(errors)
    ensures ErrorText(errors + [e], f) == if f == e.field then e.text else ErrorText(errors, f)
  {
    if errors != [] {
      assert (errors + [e])[1..] == errors[1..] + [e];
      assert FailedFields(errors[1..]) <= FailedFields(errors) by {
        forall i | 0 <= i < |errors[1..]| ensures errors[1..][i].field in FailedFields(errors) {
          assert errors[1..][i] == errors[i + 1];
        }
      }
      assert errors[0].field in FailedFields(errors);
      ErrorTextAppend(errors[1..], e, f);
    }
  }

  /** A field with no error has the empty text. */
  lemma {:induction false} ErrorTextAbsent(errors: seq<FieldError>, f: Field)
    requires f !in FailedFields(errors)
    ensures ErrorText(errors, f) == ""
  {
    if errors != [] {
      assert errors[0].field in FailedFields(errors);
      assert FailedFields(errors[1..]) <= FailedFields(errors) by {
        forall i | 0 <= i < |errors[1..]| ensures errors[1..][i].field in FailedFields(errors) {
          assert errors[1..][i] == errors[i + 1];
        }
      }
      ErrorTextAbsent(errors[1..], f);
    }
  }

  /**
   * Per field, the validator reports exactly the error of that field's own
   * check: the field fails iff its check gives a text, and the text shown is
   * that one. No other field's value affects it.
   */
  lemma ValidateReportsEachField(f: Field, name: string, email: string, message: string)
    ensures var errors := Validate(name, email, message);
      && (f in FailedFields(errors) <==> CheckField(f, name, email, message).Some?)
      && ErrorText(errors, f) == (match CheckField(f, name, email, message)
                                  case Some(text) => text
                                  case None => "")
      && (f in FailedFields(errors) <==> ErrorText(errors, f) != "")
  {
    assert |EmptyName| > 0 && |ShortName| > 0 && |EmptyEmail| > 0;
    assert |BadEmail| > 0 && |EmptyMessage| > 0 && |ShortMessage| > 0;
    var e0 := Report([], Name, NameCheck(name));
    var e1 := Report(e0, Email, EmailCheck(email));
    var e2 := Report(e1, Message, MessageCheck(message));
    assert FailedFields(e0) == if NameCheck(name).Some? then {Name} else {} by {
      assert FailedFields([]) == {};
      if NameCheck(name).Some? { AppendFailed([], FieldError(Name, NameCheck(name).value)); }
    }
    assert FailedFields(e1) == FailedFields(e0) + if EmailCheck(email).Some? then {Email} else {} by {
      if EmailCheck(email).Some? { AppendFailed(e0, FieldError(Email, EmailCheck(email).value)); }
    }
    assert FailedFields(e2) == FailedFields(e1) + if MessageCheck(message).Some? then {Message} else {} by {
      if MessageCheck(message).Some? { AppendFailed(e1, FieldError(Message, MessageCheck(message).value)); }
    }
    ErrorTextAbsent([], f);
    if EmailCheck(email).Some? { ErrorTextAppend(e0, FieldError(Email, EmailCheck(email).value), f); }
    if MessageCheck(message).Some? { ErrorTextAppend(e1, FieldError(Message, MessageCheck(message).value), f); }
    if f !in FailedFields(e2) { ErrorTextAbsent(e2, f); }
  }

  /** The fields of `errors + [e]` are those of `errors` and `e`'s. */
  lemma AppendFailed(errors: seq<FieldError>, e: FieldError)
    ensures FailedFields(errors + [e]) == FailedFields(errors) + {e.field}
  {
    var all := errors + [e];
    assert all[|errors|] == e;
    forall g | g in FailedFields(all) ensures g in FailedFields(errors) + {e.field} {
      var i :| 0 <= i < |all| && all[i].field == g;
      if i < |errors| { assert all[i] == errors[i]; }
    }
    forall i | 0 <= i < |errors| ensures errors[i].field in FailedFields(all) {
      assert all[i] == errors[i];
    }
  }

  /** The form is valid exactly when none of the three checks reports an error. */
  lemma ValidIffNoCheckFails(name: string, email: string, message: string)
    ensures IsValid(name, email, message) <==>
      (NameCheck(name).None? && EmailCheck(email).None? && MessageCheck(message).None?)
  {
  }

  /** A field's check passes exactly when the field satisfies its stated rule. */
  lemma CheckFieldIffAcceptable(f: Field, name: string, email: string, message: string)
    ensures CheckField(f, name, email, message).None? <==> Acceptable(f, name, email, message)
  {
  }

  /**
   * The form is valid iff the name has at least 2 characters, the email
   * matches the pattern and the message has at least 10 characters.
   */
  lemma ValidIffAllAcceptable(name: string, email: string, message: string)
    ensures IsValid(name, email, message) <==>
      (|name| >= MinNameLength && MatchesPattern(email) && |message| >= MinMessageLength)
  {
  }

  /** The number of errors is the number of fields whose rule fails. */
  lemma ErrorCountIsFailures(name: string, email: string, message: string)
    ensures |Validate(name, email, message)| ==
      |set f: Field | !Acceptable(f, name, email, message)|
  {
    var errors := Validate(name, email, message);
    forall f: Field ensures f in FailedFields(errors) <==> !Acceptable(f, name, email, message) {
      ValidateReportsEachField(f, name, email, message);
      CheckFieldIffAcceptable(f, name, email, message);
    }
    assert FailedFields(errors) == set f: Field | !Acceptable(f, name, email, message);
    DistinctFieldsCount(errors);
  }

  /** Errors in field order name each field at most once, so there are as many as failed fields. */
  lemma {:induction false} DistinctFieldsCount(errors: seq<FieldError>)
    requires InFieldOrder(errors)
    ensures |FailedFields(errors)| == |errors|
  {
    if errors != [] {
      var rest := errors[1..];
      assert InFieldOrder(rest) by {
        forall i, j | 0 <= i < j < |rest| ensures Rank(rest[i].field) < Rank(rest[j].field) {
          assert rest[i] == errors[i + 1] && rest[j] == errors[j + 1];
        }
      }
      DistinctFieldsCount(rest);
      assert FailedFields(errors) == {errors[0].field} + FailedFields(rest) by {
        forall i | 0 <= i < |rest| ensures rest[i].field in FailedFields(errors) {
          assert rest[i] == errors[i + 1];
        }
        forall g | g in FailedFields(errors) ensures g in {errors[0].field} + FailedFields(rest) {
          var i :| 0 <= i < |errors| && errors[i].field == g;
          if i > 0 { assert rest[i - 1] == errors[i]; }
        }
      }
      assert errors[0].field !in FailedFields(rest) by {
        forall i | 0 <= i < |rest| ensures rest[i].field != errors[0].field {
          assert rest[i] == errors[i + 1];
        }
      }
    }
  }

  /**
   * The name rule: empty gives only the "enter your name" text, one character
   * only the "at least 2 characters" text, two or more no name error.
   */
  lemma NameRule(name: string, email: string, message: string)
    ensures var errors := Validate(name, email, message);
      && (|name| == 0 ==> Name in FailedFields(errors) && ErrorText(errors, Name) == EmptyName)
      && (|name| == 1 ==> Name in FailedFields(errors) && ErrorText(errors, Name) == ShortName)
      && (|name| >= 2 ==> Name !in FailedFields(errors))
  {
    ValidateReportsEachField(Name, name, email, message);
  }

  /**
   * The email rule: empty gives the "enter your email address" text; a
   * non-empty address fails, with the "valid email address" text, exactly
   * when it does not match the pattern.
   */
  lemma EmailRule(name: string, email: string, message: string)
    ensures var errors := Validate(name, email, message);
      && (email == "" ==> Email in FailedFields(errors) && ErrorText(errors, Email) == EmptyEmail)
      && (email != "" ==>
            && (Email in FailedFields(errors) <==> !MatchesPattern(email))
            && (!MatchesPattern(email) ==> ErrorText(errors, Email) == BadEmail))
  {
    ValidateReportsEachField(Email, name, email, message);
  }

  /**
   * The message rule: empty gives the "enter a message" text, 1 to 9
   * characters the "at least 10 characters" text, 10 or more no message error.
   */
  lemma MessageRule(name: string, email: string, message: string)
    ensures var errors := Validate(name, email, message);
      && (|message| == 0 ==> Message in FailedFields(errors) && ErrorText(errors, Message) == EmptyMessage)
      && (1 <= |message| < 10 ==> Message in FailedFields(errors) && ErrorText(errors, Message) == ShortMessage)
      && (|message| >= 10 ==> Message !in FailedFields(errors))
  {
    ValidateReportsEachField(Message, name, email, message);
  }

  /** Validating values that are already trimmed gives what validating them once trimmed gives. */
  lemma ValidateTrimmedIsStable(name: string, email: string, message: string)
    ensures Validate(Trim(Trim(name)), Trim(Trim(email)), Trim(Trim(message)))
         == Validate(Trim(name), Trim(email), Trim(message))
  {
    TrimIdempotent(name);
    TrimIdempotent(email);
    TrimIdempotent(message);
  }

  /** Three empty fields: one "please enter" error per field, in field order. */
  lemma ScenarioAllEmpty()
    ensures Validate("", "", "") ==
      [FieldError(Name, EmptyName), FieldError(Email, EmptyEmail), FieldError(Message, EmptyMessage)]
  {
  }

  /** The shortest accepted name with a short address and a 12-character message is valid. */
  lemma ScenarioShortButValid()
    ensures Validate("Jo", "jo@x.com", "Hello there!") == []
  {
    assert PatternSplit("jo@x.com", 2, 4);
    assert NameCheck("Jo") == None;
    assert EmailCheck("jo@x.com") == None;
    assert MessageCheck("Hello there!") == None;
  }

  /** A form failing every second-stage rule gets one error per field. */
  lemma ScenarioAllTooShort()
    ensures Validate("J", "bad-email", "short") ==
      [FieldError(Name, ShortName), FieldError(Email, BadEmail), FieldError(Message, ShortMessage)]
  {
    var bad := "bad-email";
    assert forall i | 0 <= i < |bad| :: bad[i] != '@';
    assert !IsValidEmail(bad);
    assert NameCheck("J") == Some(ShortName);
    assert EmailCheck(bad) == Some(BadEmail);
    assert MessageCheck("short") == Some(ShortMessage);
  }

  /** A typical complete form is valid. */
  lemma ScenarioTypical()
    ensures Validate("Jordan", "jordan@test.org", "This is a sufficiently long message.") == []
  {
    assert PatternSplit("jordan@test.org", 6, 11);
    assert NameCheck("Jordan") == None;
    assert EmailCheck("jordan@test.org") == None;
    assert MessageCheck("This is a sufficiently long message.") == None;
  }
}
