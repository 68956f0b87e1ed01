/**
  The contact form of the page controller (`XylocopeModern`): validation
  of one field and of the whole form, the error marker each field carries,
  the submit flow with its loading state, and the saved contact details
  with their 30-day expiry.  The constants are those of the site
  configuration.
 */
module ContactForm {
  import opened Common
  import opened Validators

  const MessageMinLength: int := 10
  /** 30 days in milliseconds. */
  const ContactDataExpiry: int := 30 * 24 * 60 * 60 * 1000
  const LoadingText: string := "Envoi..."
  const LoadingOpacity: string := "0.7"

  /** `VALIDATION.ERROR_MESSAGES`. */
  datatype FieldErrorMessage = RequiredMessage | InvalidEmailMessage | MessageTooShortMessage

  /** An input or textarea: its `name` attribute, its current value and
      the default value the markup gives it, whether it has the `required`
      attribute and the `error` class, and the texts of the `.field-error`
      nodes in its container, in document order. */
  datatype Field = Field(
    name: Option<string>,
    value: string,
    defaultValue: string,
    required: bool,
    errorClass: bool,
    errorNodes: seq<FieldErrorMessage>)

  /** `clearFieldError`: drops the `error` class and the FIRST `.field-error`
      node of the container. */
  function ClearFieldError(f: Field): (g: Field)
    ensures !g.errorClass && |g.errorNodes| == if |f.errorNodes| == 0 then 0 else |f.errorNodes| - 1
    ensures g.(errorClass := f.errorClass, errorNodes := f.errorNodes) == f
  {
    f.(errorClass := false, errorNodes := if |f.errorNodes| == 0 then [] else f.errorNodes[1..])
  }

  /** `showFieldError`: adds the class and appends one node. */
  function ShowFieldError(f: Field, m: FieldErrorMessage): (g: Field)
    ensures g.errorClass && g.errorNodes == f.errorNodes + [m]
  {
    f.(errorClass := true, errorNodes := f.errorNodes + [m])
  }

  /** The message of the last failing check of `validateField`, if any;
      each check overwrites the message of the earlier ones. */
  function FailingCheck(f: Field): Option<FieldErrorMessage>
  {
    var value := Trim(f.value);
    var afterRequired := if f.required && !Required(value) then Some(RequiredMessage) else None;
    var afterEmail :=
      if f.name == Some("email") && |value| > 0 && !IsEmail(value) then Some(InvalidEmailMessage)
      else afterRequired;
    if f.name == Some("message") && |value| > 0 && !MinLength(value, MessageMinLength) then Some(MessageTooShortMessage)
    else afterEmail
  }

  datatype Validated = Validated(field: Field, valid: bool)

  /** `validateField`. */
  function ValidateField(f: Field): (r: Validated)
    ensures r.valid <==>
      && !(f.required && !HasNonSpace(f.value))
      && !(f.name == Some("email") && HasNonSpace(f.value) && !IsEmail(Trim(f.value)))
      && !(f.name == Some("message") && HasNonSpace(f.value) && Utf16Length(Trim(f.value)) < MessageMinLength)
    ensures r.field.errorClass <==> !r.valid
    ensures r.field.value == f.value && r.field.name == f.name && r.field.required == f.required
  {
    TrimNonEmptyIff(f.value);
    TrimIdempotent(f.value);
    var cleared := ClearFieldError(f);
    match FailingCheck(f)
    case None => Validated(cleared, true)
    case Some(m) => Validated(ShowFieldError(cleared, m), false)
  }

  /** The message shown: an empty required field always gets the
      "required" message, whatever its name; a non-empty one fails at most
      one of the other two checks, according to its name. */
  lemma ShownMessage(f: Field)
    ensures var r := ValidateField(f);
      && (f.required && !HasNonSpace(f.value) ==>
            r.field.errorNodes[|r.field.errorNodes| - 1] == RequiredMessage)
      && (f.name == Some("email") && HasNonSpace(f.value) && !IsEmail(Trim(f.value)) ==>
            r.field.errorNodes[|r.field.errorNodes| - 1] == InvalidEmailMessage)
      && (f.name == Some("message") && HasNonSpace(f.value) && Utf16Length(Trim(f.value)) < MessageMinLength ==>
            r.field.errorNodes[|r.field.errorNodes| - 1] == MessageTooShortMessage)
  {
    TrimNonEmptyIff(f.value);
    var r := ValidateField(f);
    var m := FailingCheck(f);
    if m.Some? {
      assert r.field.errorNodes[|r.field.errorNodes| - 1] == m.value;
    }
  }

  /** The message minimum counts UTF-16 code units, as JavaScript's
      `length` does: five emoji are a long enough message, five letters are
      not. */
  lemma ShortEmojiMessageAccepted()
    ensures ValidateField(Field(Some("message"), "\U{1F600}\U{1F600}\U{1F600}\U{1F600}\U{1F600}", "", true, false, [])).valid
    ensures !ValidateField(Field(Some("message"), "hello", "", true, false, [])).valid
  {
    AstralCharactersCountTwice();
    var s := "\U{1F600}\U{1F600}\U{1F600}\U{1F600}\U{1F600}";
    assert !IsSpace(s[0]) && !IsSpace(s[4]);
    assert Trim(s) == s;
    var h := "hello";
    assert !IsSpace(h[0]) && !IsSpace(h[4]);
    assert Trim(h) == h;
  }

  /** A field with at most one error node (every field the code itself has
      marked) ends with exactly one node when invalid and none when valid:
      a stale error is cleared before the new one is shown. */
  lemma ErrorNodeCount(f: Field)
    requires |f.errorNodes| <= 1
    ensures |ValidateField(f).field.errorNodes| == if ValidateField(f).valid then 0 else 1
  {
  }

  /** Validating twice leaves what validating once leaves. */
  lemma ValidateIdempotent(f: Field)
    requires |f.errorNodes| <= 1
    ensures ValidateField(ValidateField(f).field) == ValidateField(f)
  {
    var r := ValidateField(f);
    assert FailingCheck(r.field) == FailingCheck(f);
    if !r.valid {
      assert r.field.errorNodes[1..] == [];
    }
    assert ClearFieldError(r.field) == ClearFieldError(f);
  }

  /** `validateAllFields`: every field is validated, also after a failure,
      and the result is the conjunction. */
  method ValidateAllFields(fields: seq<Field>) returns (out: seq<Field>, ok: bool)
    ensures |out| == |fields|
    ensures forall i :: 0 <= i < |fields| ==> out[i] == ValidateField(fields[i]).field
    ensures ok <==> forall i :: 0 <= i < |fields| ==> ValidateField(fields[i]).valid
  {
    out, ok := ValidateEach(fields, ValidateField);
  }

  /** The `forEach` of `validateAllFields`, over a given validation. */
  method ValidateEach(fields: seq<Field>, validate: Field -> Validated) returns (out: seq<Field>, ok: bool)
    ensures |out| == |fields|
    ensures forall i :: 0 <= i < |fields| ==> out[i] == validate(fields[i]).field
    ensures ok <==> forall i :: 0 <= i < |fields| ==> validate(fields[i]).valid
  {
    out := [];
    ok := true;
    var i := 0;
    while i < |fields|
      invariant 0 <= i <= |fields|
      invariant |out| == i
      invariant forall j :: 0 <= j < i ==> out[j] == validate(fields[j]).field
      invariant ok <==> forall j :: 0 <= j < i ==> validate(fields[j]).valid
    {
      var r := validate(fields[i]);
      out := out + [r.field];
      ok := ok && r.valid;
      i := i + 1;
    }
  }

  // ---------------------------------------------------------------- submit

  /** The submit button: its `span` text, `disabled` and `style.opacity`. */
  datatype Button = Button(caption: string, disabled: bool, opacity: string)

  /** `showNotification` messages of the submit flow. */
  datatype Notice = ValidationErrorNotice | SuccessNotice | ErrorNotice

  datatype SavedContact = SavedContact(name: Option<string>, email: Option<string>, timestamp: Option<int>)

  datatype Submitted = Submitted(
    fields: seq<Field>,
    buttonStates: seq<Button>,     // every state the button goes through
    notices: seq<Notice>,
    saved: Option<SavedContact>)

  /** `setLoadingState(submitBtn, true)`: returns the caption it replaces. */
  function StartLoading(b: Button): (r: (Button, string))
    ensures r.0 == Button(LoadingText, true, LoadingOpacity) && r.1 == b.caption
  {
    (Button(LoadingText, true, LoadingOpacity), b.caption)
  }

  /** `setLoadingState(submitBtn, false, originalText)`. */
  function StopLoading(b: Button, original: string): (r: Button)
    ensures r == Button(original, false, "1")
  {
    Button(original, false, "1")
  }

  /** Entering and leaving the loading state puts the caption back and
      re-enables the button; a button that was idle (enabled, fully opaque)
      comes back exactly as it was.  While loading, the button is disabled
      and shows the loading text whatever it showed before. */
  lemma LoadingRoundTrip(b: Button)
    ensures var (busy, saved) := StartLoading(b);
            && busy.disabled && busy.caption == LoadingText && busy.opacity == LoadingOpacity
            && StopLoading(busy, saved) == b.(disabled := false, opacity := "1")
            && (!b.disabled && b.opacity == "1" ==> StopLoading(busy, saved) == b)
  {
  }

  /** The value `Object.fromEntries(new FormData(form))` keeps for a name:
      that of the last field carrying it. */
  function FormValue(fields: seq<Field>, name: string): (v: Option<string>)
    ensures v.Some? ==> exists i :: 0 <= i < |fields| && fields[i].name == Some(name) && fields[i].value == v.value &&
                          forall j :: i < j < |fields| ==> fields[j].name != Some(name)
    ensures v.None? ==> forall i :: 0 <= i < |fields| ==> fields[i].name != Some(name)
  {
    if |fields| == 0 then None
    else
      var rest := FormValue(fields[1..], name);
      if rest.Some? then
        var i :| 0 <= i < |fields[1..]| && fields[1..][i].name == Some(name) && fields[1..][i].value == rest.value &&
                 forall j :: i < j < |fields[1..]| ==> fields[1..][j].name != Some(name);
        assert fields[i + 1] == fields[1..][i];
        assert forall j :: i + 1 < j < |fields| ==> fields[j] == fields[1..][j - 1];
        rest
      else if fields[0].name == Some(name) then Some(fields[0].value)
      else
        assert forall i :: 1 <= i < |fields| ==> fields[i] == fields[1..][i - 1];
        None
  }

  /** `form.reset()`: every control gets its default value back, and
      nothing else about it changes. */
  function ResetValues(fields: seq<Field>): (r: seq<Field>)
    ensures |r| == |fields|
    ensures forall i :: 0 <= i < |fields| ==> r[i].value == fields[i].defaultValue
    ensures forall i :: 0 <= i < |fields| ==> r[i].(value := fields[i].value) == fields[i]
  {
    if |fields| == 0 then [] else [fields[0].(value := fields[0].defaultValue)] + ResetValues(fields[1..])
  }

  /** Resetting a reset form changes nothing. */
  lemma ResetIdempotent(fields: seq<Field>)
    ensures ResetValues(ResetValues(fields)) == ResetValues(fields)
  {
  }

  /** `handleFormSubmit`, with the outcome of the simulated request as a
      parameter (`fails` takes the `catch` branch) and `now` the clock. */
  method HandleFormSubmit(fields: seq<Field>, button: Button, fails: bool, now: int) returns (s: Submitted)
    ensures s.buttonStates == [] <==> exists i :: 0 <= i < |fields| && !ValidateField(fields[i]).valid
    ensures s.buttonStates == [] ==> s.notices == [ValidationErrorNotice] && s.saved.None?
    ensures s.buttonStates != [] ==>
      && s.buttonStates == [Button(LoadingText, true, LoadingOpacity), Button(button.caption, false, "1")]
      && s.notices == [if fails then ErrorNotice else SuccessNotice]
      && (s.saved.Some? <==> !fails)
    ensures s.saved.Some? ==> s.saved.value.timestamp == Some(now)
    ensures |s.fields| == |fields|
    ensures forall i :: 0 <= i < |fields| ==>
              s.fields[i].value == if s.saved.Some? then fields[i].defaultValue else fields[i].value
  {
    var validated, ok := ValidateAllFields(fields);
    if !ok {
      return Submitted(validated, [], [ValidationErrorNotice], None);
    }
    var loading := StartLoading(button);
    var saved: Option<SavedContact> := None;
    var notices: seq<Notice>;
    var after := validated;
    if fails {
      notices := [ErrorNotice];
    } else {
      notices := [SuccessNotice];
      after := ResetValues(validated);
      saved := Some(SavedContact(FormValue(fields, "name"), FormValue(fields, "email"), Some(now)));
    }
    var restored := StopLoading(loading.0, loading.1);
    s := Submitted(after, [loading.0, restored], notices, saved);
  }

  // ------------------------------------------------------ saved contact data

  /** `isContactDataValid`: a missing timestamp gives `NaN`, which fails
      the comparison. */
  predicate ContactDataValid(saved: SavedContact, now: int)
  {
    saved.timestamp.Some? && now - saved.timestamp.value < ContactDataExpiry
  }

  /** `savedData.name || ''`. */
  function OrEmpty(v: Option<string>): string
  {
    match v case Some(s) => s case None => ""
  }

  /** `loadSavedContactData`: the values of `#name` and `#email` afterwards
      (`None` when the element is absent). */
  function LoadSavedContactData(saved: Option<SavedContact>, now: int, name: Option<string>, email: Option<string>)
    : (r: (Option<string>, Option<string>))
    ensures r.0.Some? == name.Some? && r.1.Some? == email.Some?
    ensures saved.None? || !ContactDataValid(saved.value, now) ==> r == (name, email)
    ensures name.Some? && name.value != "" ==> r.0 == name
    ensures email.Some? && email.value != "" ==> r.1 == email
    ensures saved.Some? && ContactDataValid(saved.value, now) && name == Some("") ==> r.0 == Some(OrEmpty(saved.value.name))
    ensures saved.Some? && ContactDataValid(saved.value, now) && email == Some("") ==> r.1 == Some(OrEmpty(saved.value.email))
  {
    if saved.None? || !ContactDataValid(saved.value, now) then (name, email)
    else
      var n := if name.Some? && name.value == "" then Some(OrEmpty(saved.value.name)) else name;
      var e := if email.Some? && email.value == "" then Some(OrEmpty(saved.value.email)) else email;
      (n, e)
  }

  /** Details saved by a successful submission at time `t` are offered
      again at time `now` exactly when less than 30 days have passed. */
  lemma SavedDataLifetime(fields: seq<Field>, t: int, now: int)
    ensures var saved := SavedContact(FormValue(fields, "name"), FormValue(fields, "email"), Some(t));
            LoadSavedContactData(Some(saved), now, Some(""), Some("")) ==
              if now - t < ContactDataExpiry
              then (Some(OrEmpty(FormValue(fields, "name"))), Some(OrEmpty(FormValue(fields, "email"))))
              else (Some(""), Some(""))
  {
  }

  /** The expiry is 2 592 000 000 ms. */
  lemma ExpiryValue()
    ensures ContactDataExpiry == 2592000000
  {
  }
}
