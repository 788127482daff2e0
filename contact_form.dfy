/**
 * The contact form as the submit handler sees it: which inputs carry the
 * `error` class, the text of each inline error box, and whether the form and
 * the success box are displayed.
 */
module ContactPage {
  import opened Wrappers
  import opened Text
  import opened Email
  import opened Validation

  /** The form's inputs and textarea, in document order. */
  const Inputs: seq<Field> := [Name, Email, Message]

  const ThanksPrefix := "Thanks for reaching out, "
  const ThanksSuffix := "! I'll get back to you soon."

  /** The alert shown after a valid submission, with the trimmed name in it. */
  function Thanks(name: string): (notice: string)
    ensures |notice| == |ThanksPrefix| + |name| + |ThanksSuffix|
    ensures notice[..|ThanksPrefix|] == ThanksPrefix
    ensures notice[|notice| - |ThanksSuffix|..] == ThanksSuffix
    ensures notice[|ThanksPrefix|..|notice| - |ThanksSuffix|] == name
  {
    ThanksPrefix + name + ThanksSuffix
  }

  /** Different names give different alerts: the name can be read back from the alert. */
  lemma ThanksIsInjective(a: string, b: string)
    requires Thanks(a) == Thanks(b)
    ensures a == b
  {
    var n := |Thanks(a)|;
    assert a == Thanks(a)[|ThanksPrefix|..n - |ThanksSuffix|];
  }

  /** The error display after `showError` is called for `f` when its check fails, and left alone otherwise. */
  function Shown(display: (set<Field>, map<Field, string>), f: Field, check: Option<string>)
    : (shown: (set<Field>, map<Field, string>))
    ensures shown.0 == if check.Some? then display.0 + {f} else display.0
    ensures shown.1.Keys == display.1.Keys
    ensures forall g | g in shown.1 :: shown.1[g] == if g == f && check.Some? then check.value else display.1[g]
  {
    match check
    case None => display
    case Some(text) =>
      var (marked, boxes) := display;
      (marked + {f}, if f in boxes then boxes[f := text] else boxes)
  }

  /** The error display after the three checks have shown their errors, in handler order, starting from `cleared`. */
  function ShownAll(cleared: map<Field, string>, name: string, email: string, message: string)
    : (set<Field>, map<Field, string>)
  {
    var afterName := Shown(({}, cleared), Name, NameCheck(name));
    var afterEmail := Shown(afterName, Email, EmailCheck(email));
    Shown(afterEmail, Message, MessageCheck(message))
  }

  /** After the three checks, each field's marker and box depend on that field's own check only. */
  lemma ShownAllAt(cleared: map<Field, string>, name: string, email: string, message: string, f: Field)
    requires forall g | g in cleared :: cleared[g] == ""
    ensures var shown := ShownAll(cleared, name, email, message);
      var check := CheckField(f, name, email, message);
      && (f in shown.0 <==> check.Some?)
      && (f in shown.1 <==> f in cleared)
      && (f in shown.1 ==> shown.1[f] == match check case Some(text) => text case None => "")
  {
    var afterName := Shown(({}, cleared), Name, NameCheck(name));
    var afterEmail := Shown(afterName, Email, EmailCheck(email));
    var shown := Shown(afterEmail, Message, MessageCheck(message));
    var check := CheckField(f, name, email, message);
    if f in cleared {
      match f
      case Name =>
        assert afterName.1[f] == if check.Some? then check.value else "";
        assert shown.1[f] == afterName.1[f];
      case Email =>
        assert afterName.1[f] == "";
        assert shown.1[f] == if check.Some? then check.value else "";
      case Message =>
        assert afterEmail.1[f] == "";
        assert shown.1[f] == if check.Some? then check.value else "";
    }
  }

  /**
   * Starting from cleared boxes, showing the errors of the three checks in
   * turn marks exactly the failing fields and fills each present box with its
   * own field's error text, or leaves it empty.
   */
  lemma ShownAllIsValidate(cleared: map<Field, string>, name: string, email: string, message: string)
    requires forall f | f in cleared :: cleared[f] == ""
    ensures var errors := Validate(name, email, message);
      var shown := ShownAll(cleared, name, email, message);
      && shown.0 == FailedFields(errors)
      && shown.1.Keys == cleared.Keys
      && (forall f | f in shown.1 :: shown.1[f] == ErrorText(errors, f))
      && (forall f | f in shown.1 :: (f in shown.0 <==> shown.1[f] != ""))
  {
    var errors := Validate(name, email, message);
    var shown := ShownAll(cleared, name, email, message);
    forall f: Field ensures (f in shown.0 <==> f in FailedFields(errors))
      && (f in shown.1 ==> shown.1[f] == ErrorText(errors, f) && (f in shown.0 <==> shown.1[f] != ""))
    {
      ValidateReportsEachField(f, name, email, message);
      ShownAllAt(cleared, name, email, message, f);
    }
  }

  class ContactForm {
    /** The inputs whose class list contains `error`. */
    var marked: set<Field>
    /** The text of each error box; a field without a box in the page has no key. */
    var boxes: map<Field, string>
    /** Whether the form is displayed (`style.display` is not `none`). */
    var formVisible: bool
    /** Whether the success box is displayed. */
    var successVisible: bool
    /** Whether the page has a success box at all. */
    const hasSuccessBox: bool

    /** An input carries `error` exactly when its error box shows a text. */
    predicate Consistent()
      reads this
    {
      forall f | f in boxes :: (f in marked <==> boxes[f] != "")
    }

    /** A freshly loaded page: no errors, form shown, success box hidden. */
    constructor (boxFields: set<Field>, hasSuccessBox: bool)
      ensures marked == {} && boxes == map f | f in boxFields :: ""
      ensures formVisible && !successVisible && this.hasSuccessBox == hasSuccessBox
      ensures Consistent()
    {
      marked := {};
      boxes := map f | f in boxFields :: "";
      formVisible, successVisible := true, false;
      this.hasSuccessBox := hasSuccessBox;
    }

    /** `clearErrors`: strip `error` from every input and blank every error box. */
    method ClearErrors()
      modifies this
      ensures marked == {}
      ensures boxes.Keys == old(boxes.Keys) && forall f | f in boxes :: boxes[f] == ""
      ensures formVisible == old(formVisible) && successVisible == old(successVisible)
      ensures Consistent()
    {
      for i := 0 to |Inputs|
        invariant marked == old(marked) - set j | 0 <= j < i :: Inputs[j]
        invariant boxes == old(boxes)
        invariant formVisible == old(formVisible) && successVisible == old(successVisible)
      {
        marked := marked - {Inputs[i]};
      }
      forall f: Field ensures f !in marked {
        assert Inputs[Rank(f)] == f;
      }
      var pending := boxes.Keys;
      while pending != {}
        invariant pending <= boxes.Keys && boxes.Keys == old(boxes.Keys)
        invariant forall f | f in boxes && f !in pending :: boxes[f] == ""
        invariant marked == {}
        invariant formVisible == old(formVisible) && successVisible == old(successVisible)
        decreases pending
      {
        var f :| f in pending;
        boxes := boxes[f := ""];
        pending := pending - {f};
      }
    }

    /** `showError`: mark the input and, if its error box exists, put the text in it. */
    method ShowError(f: Field, text: string)
      modifies this
      ensures (marked, boxes) == Shown(old((marked, boxes)), f, Some(text))
      ensures formVisible == old(formVisible) && successVisible == old(successVisible)
    {
      marked := marked + {f};
      if f in boxes {
        boxes := boxes[f := text];
      }
    }

    /**
     * The three field checks of the submit handler, on trimmed values: each
     * failing check calls `showError` for its field, and the result says
     * whether all three passed.
     */
    method CheckFields(name: string, email: string, message: string) returns (isValid: bool)
      requires marked == {}
      modifies this
      ensures (marked, boxes) == ShownAll(old(boxes), name, email, message)
      ensures isValid == (NameCheck(name).None? && EmailCheck(email).None? && MessageCheck(message).None?)
      ensures formVisible == old(formVisible) && successVisible == old(successVisible)
    {
      ghost var start := ({}, boxes);
      isValid := true;

      if name == "" {
        ShowError(Name, EmptyName);
        isValid := false;
      } else if |name| < MinNameLength {
        ShowError(Name, ShortName);
        isValid := false;
      }
      ghost var afterName := Shown(start, Name, NameCheck(name));
      assert (marked, boxes) == afterName && isValid == NameCheck(name).None?;

      if email == "" {
        ShowError(Email, EmptyEmail);
        isValid := false;
      } else if !IsValidEmail(email) {
        ShowError(Email, BadEmail);
        isValid := false;
      }
      ghost var afterEmail := Shown(afterName, Email, EmailCheck(email));
      assert (marked, boxes) == afterEmail;
      assert isValid == (NameCheck(name).None? && EmailCheck(email).None?);

      if message == "" {
        ShowError(Message, EmptyMessage);
        isValid := false;
      } else if |message| < MinMessageLength {
        ShowError(Message, ShortMessage);
        isValid := false;
      }
      assert (marked, boxes) == Shown(afterEmail, Message, MessageCheck(message));
    }

    /**
     * The submit handler. The errors of any earlier submission are cleared,
     * then exactly the failing fields are marked, each box shows its own
     * field's error (or nothing), and only a fully valid form is swapped for
     * the success box and answered with the thank-you alert.
     */
    method Submit(rawName: string, rawEmail: string, rawMessage: string)
      returns (isValid: bool, notice: Option<string>)
      modifies this
      ensures var errors := Validate(Trim(rawName), Trim(rawEmail), Trim(rawMessage));
        && isValid == (errors == [])
        && marked == FailedFields(errors)
        && boxes.Keys == old(boxes.Keys)
        && (forall f | f in boxes :: boxes[f] == ErrorText(errors, f))
      ensures formVisible == (old(formVisible) && !isValid)
      ensures successVisible == (old(successVisible) || (isValid && hasSuccessBox))
      ensures notice == if isValid then Some(Thanks(Trim(rawName))) else None
      ensures Consistent()
    {
      ClearErrors();
      ghost var cleared := boxes;

      var name := Trim(rawName);
      var email := Trim(rawEmail);
      var message := Trim(rawMessage);

      isValid := CheckFields(name, email, message);

      notice := None;
      if isValid {
        formVisible := false;
        if hasSuccessBox {
          successVisible := true;
        }
        notice := Some(Thanks(name));
      }

      ShownAllIsValidate(cleared, name, email, message);
      ValidIffNoCheckFails(name, email, message);
    }
  }
}
