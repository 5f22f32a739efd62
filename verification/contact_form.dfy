/** The contact form on the page: its fields with their class lists and
    error elements, the labels of the required fields, and the submit
    button's text. validateField, showError, validateForm (both loop
    variants), clearFormErrors, the label asterisks, the input re-check
    and the submit button's messages change these objects in place; the
    decisions they take come from FormRules. */
module ContactForms {
  import opened FormRules

  /** A label element: its markup and its text content. */
  class Label {
    var html: string
    var text: string

    constructor (html: string, text: string)
      ensures this.html == html && this.text == text
    {
      this.html := html;
      this.text := text;
    }
  }

  /** An input, select or textarea of the form, with the error element
      validateField keeps after it (`<id>-error`). */
  class Field {
    /** The name attribute: the FormData key and the name in messages. */
    const name: string
    const required: bool
    /** type="email" */
    const isEmail: bool
    /** The minlength attribute; None when absent. */
    const minLength: Option<nat>
    /** label[for=<id>], when the form has one. */
    const fieldLabel: Label?
    /** What form.reset() restores. */
    const defaultValue: string
    var value: string
    var classes: set<string>
    /** Whether the error element exists yet, its text, and whether it
        carries the `hidden` class. */
    var hasErrorBox: bool
    var errorText: string
    var errorHidden: bool

    /** A field as the page ships it. The page may already carry an
        `<id>-error` element, which validateField then finds by its id. */
    constructor (name: string, required: bool, isEmail: bool, minLength: Option<nat>,
                 fieldLabel: Label?, defaultValue: string, classes: set<string>,
                 hasErrorBox: bool, errorText: string, errorHidden: bool)
      ensures this.name == name && this.required == required && this.isEmail == isEmail
      ensures this.minLength == minLength && this.fieldLabel == fieldLabel && this.defaultValue == defaultValue
      ensures value == defaultValue && this.classes == classes
      ensures this.hasErrorBox == hasErrorBox && this.errorText == errorText && this.errorHidden == errorHidden
    {
      this.name, this.required, this.isEmail, this.minLength := name, required, isEmail, minLength;
      this.fieldLabel, this.defaultValue := fieldLabel, defaultValue;
      value := defaultValue;
      this.classes := classes;
      this.hasErrorBox, this.errorText, this.errorHidden := hasErrorBox, errorText, errorHidden;
    }

    function Spec(): FieldSpec
    {
      FieldSpec(name, required, isEmail, minLength)
    }

    /** What validateField decides on the current value: a field with
        none of the three attributes always passes. */
    function Check(): (r: Option<Failure>)
      reads this
      ensures !required && !isEmail && minLength.None? ==> r.None?
    {
      Verdict(Spec(), value)
    }

    /** The field displays verdict v: for a pass an empty hidden error
        and the neutral border; for a failure its message, shown, and the
        error border. Never both border classes. */
    ghost predicate Shows(theme: Theme, v: Option<Failure>)
      reads this
    {
      && hasErrorBox
      && (v.None? ==> errorText == [] && errorHidden
                      && theme.OkBorder() in classes && theme.ErrorBorder() !in classes)
      && (v.Some? ==> errorText == Message(name, v.value) && !errorHidden
                      && theme.ErrorBorder() in classes && theme.OkBorder() !in classes)
    }
  }

  /** The required fields, in document order. */
  function RequiredOf(fs: seq<Field>): (r: seq<Field>)
    ensures forall f | f in r :: f in fs && f.required
    ensures forall f | f in fs && f.required :: f in r
  {
    if fs == [] then []
    else if fs[0].required then [fs[0]] + RequiredOf(fs[1..])
    else RequiredOf(fs[1..])
  }

  /** Filtering keeps distinct objects distinct. */
  lemma {:induction false} RequiredOfDistinct(fs: seq<Field>)
    requires forall i, j | 0 <= i < j < |fs| :: fs[i] != fs[j]
    ensures forall i, j | 0 <= i < j < |RequiredOf(fs)| :: RequiredOf(fs)[i] != RequiredOf(fs)[j]
  {
    if fs != [] {
      var tail := fs[1..];
      assert forall i, j | 0 <= i < j < |tail| :: tail[i] != tail[j] by {
        forall i, j | 0 <= i < j < |tail| ensures tail[i] != tail[j] {
          assert tail[i] == fs[i + 1] && tail[j] == fs[j + 1];
        }
      }
      RequiredOfDistinct(tail);
      var rest := RequiredOf(tail);
      forall j | 0 <= j < |rest| ensures rest[j] != fs[0] {
        assert rest[j] in rest;
        var m :| 0 <= m < |tail| && tail[m] == rest[j];
        assert tail[m] == fs[m + 1];
      }
      if fs[0].required {
        var r := [fs[0]] + rest;
        assert RequiredOf(fs) == r;
        forall i, j | 0 <= i < j < |r| ensures r[i] != r[j] {
          assert r[j] == rest[j - 1];
          if i > 0 {
            assert r[i] == rest[i - 1];
          }
        }
      }
    }
  }

  /** The text content of a required field's label after the star is
      added: unchanged when it already holds a '*'. */
  function Starred(text: string): (r: string)
    ensures '*' in r
    ensures '*' in text ==> r == text
    ensures '*' !in text ==> r == text + " *"
  {
    if '*' in text then text
    else assert (text + " *")[|text| + 1] == '*'; text + " *"
  }

  /** A required field's label markup after the star is added. */
  function StarredHtml(theme: Theme, text: string, html: string): string
  {
    if '*' in text then html else html + theme.Star()
  }


  /** Replacing a by b and then b by a leaves a in place of b. */
  lemma BordersSwapBack(c: set<string>, a: string, b: string)
    requires a != b
    ensures (c - {b} + {a}) - {a} + {b} == c - {a} + {b}
  {
  }

  /** Whether each field passes, in order. */
  ghost function Passes(fs: seq<Field>): (p: seq<bool>)
    reads fs
    ensures |p| == |fs|
  {
    seq(|fs|, k requires 0 <= k < |fs| reads fs => fs[k].Check().None?)
  }

  /** Passes works field by field. */
  lemma PassesCons(fs: seq<Field>)
    requires fs != []
    ensures Passes(fs) == [Passes(fs)[0]] + Passes(fs[1..])
  {
  }

  /** Entry k of Passes is the k-th field's own decision. */
  lemma PassesAt(fs: seq<Field>, k: nat)
    requires k < |fs|
    ensures Passes(fs)[k] == fs[k].Check().None?
  {
  }


  /** `submit.textContent` and `submit.disabled`, with the text captured
      when the form was sent. */
  class SubmitButton {
    var text: string
    var disabled: bool
    var origText: string

    constructor (text: string)
      ensures this.text == text && !disabled && origText == text
    {
      this.text := text;
      disabled := false;
      origText := text;
    }

    /** showMessage: good news as given, bad news upper-cased. */
    method ShowMessage(good: bool, message: string)
      modifies this`text
      ensures text == Shown(good, message)
    {
      text := if good then message else ToUpper(message);
    }

    /** clearMessage: back to the text from before sending. */
    method ClearMessage()
      modifies this`text
      ensures text == origText
    {
      text := origText;
    }
  }

  class ContactForm {
    const theme: Theme
    /** The form's inputs, selects and textareas in document order. */
    const fields: seq<Field>
    /** The fields with a required attribute, collected once at start-up. */
    const required: seq<Field>
    const button: SubmitButton

    /** Each element appears once, and `required` is the required fields
        in document order. */
    ghost predicate Valid()
    {
      && (forall i, j | 0 <= i < j < |fields| :: fields[i] != fields[j])
      && required == RequiredOf(fields)
      && (forall i, j | 0 <= i < j < |required| :: required[i] != required[j])
    }

    constructor (theme: Theme, fields: seq<Field>, button: SubmitButton)
      requires forall i, j | 0 <= i < j < |fields| :: fields[i] != fields[j]
      ensures Valid() && this.theme == theme && this.fields == fields && this.button == button
    {
      this.theme, this.fields, this.button := theme, fields, button;
      required := RequiredOf(fields);
      new;
      RequiredOfDistinct(fields);
    }

    /** showError: the message, shown, and the error border in place of
        the neutral one. */
    method ShowError(f: Field, message: string)
      modifies f`errorText, f`errorHidden, f`classes
      ensures f.errorText == message && !f.errorHidden
      ensures f.classes == old(f.classes) - {theme.OkBorder()} + {theme.ErrorBorder()}
    {
      f.errorText := message;
      f.errorHidden := false;
      f.classes := f.classes - {theme.OkBorder()} + {theme.ErrorBorder()};
    }

    /** The start of validateField: create the error element if it is
        missing, empty and hide it, and put the neutral border in place of
        the error border. */
    method ClearFieldError(f: Field)
      modifies f`hasErrorBox, f`errorText, f`errorHidden, f`classes
      ensures f.hasErrorBox && f.errorText == [] && f.errorHidden
      ensures f.classes == old(f.classes) - {theme.ErrorBorder()} + {theme.OkBorder()}
    {
      if !f.hasErrorBox {
        f.hasErrorBox, f.errorText, f.errorHidden := true, "", true;
      }
      f.errorText := "";
      f.errorHidden := true;
      f.classes := f.classes - {theme.ErrorBorder()} + {theme.OkBorder()};
    }

    /** validateField: clear the field's error, then report the first
        failing rule on the trimmed value. Classes other than the two
        borders are left alone. */
    method ValidateField(f: Field) returns (ok: bool)
      modifies f`hasErrorBox, f`errorText, f`errorHidden, f`classes
      ensures ok <==> f.Check().None?
      ensures f.Shows(theme, f.Check()) && f.Check() == old(f.Check())
      ensures ok ==> f.classes == old(f.classes) - {theme.ErrorBorder()} + {theme.OkBorder()}
      ensures !ok ==> f.classes == old(f.classes) - {theme.OkBorder()} + {theme.ErrorBorder()}
    {
      ThemeClassesDiffer(theme);
      var value := Trim(f.value);
      ghost var v := f.Check();
      ghost var c0 := f.classes;
      ClearFieldError(f);
      if f.required && value == [] {
        assert v == Some(Missing);
        ShowError(f, Message(f.name, Missing));
        BordersSwapBack(c0, theme.OkBorder(), theme.ErrorBorder());
        return false;
      }
      if f.isEmail && value != [] {
        if !EmailTest(value) {
          assert v == Some(BadEmail);
          ShowError(f, Message(f.name, BadEmail));
          BordersSwapBack(c0, theme.OkBorder(), theme.ErrorBorder());
          return false;
        }
      }
      if f.minLength.Some? && |value| < f.minLength.value {
        assert v == Some(TooShort(f.minLength.value));
        ShowError(f, Message(f.name, TooShort(f.minLength.value)));
        BordersSwapBack(c0, theme.OkBorder(), theme.ErrorBorder());
        return false;
      }
      assert v == None;
      return true;
    }

    /** validateForm with `let i`: validate the required fields in order
        and stop at the first failure; later fields are not touched. */
    method ValidateForm() returns (ok: bool)
      requires Valid()
      modifies required
      ensures ok <==> AllPass(old(Passes(required)))
      ensures ok ==> forall k | 0 <= k < |required| :: required[k].Shows(theme, None)
      ensures !ok ==> var n := Checked(old(Passes(required))) - 1;
              && 0 <= n < |required|
              && (forall k | 0 <= k < n :: required[k].Shows(theme, None))
              && required[n].Shows(theme, old(required[n].Check()))
              && (forall k | n < k < |required| :: unchanged(required[k]))
    {
      ghost var p := Passes(required);
      var i := 0;
      while i < |required|
        invariant 0 <= i <= |required|
        invariant forall k | 0 <= k < i :: p[k] && required[k].Shows(theme, None)
        invariant forall k | i <= k < |required| :: unchanged(required[k])
        invariant Passes(required[i..]) == p[i..]
      {
        PassesCons(required[i..]);
        assert required[i..][1..] == required[i + 1..];
        assert p[i..][0] == p[i];
        var pass := ValidateRequired(i);
        assert pass == p[i];
        if !pass {
          CheckedStopsAt(p, i);
          return false;
        }
        assert p[i + 1..] == p[i..][1..];
        i := i + 1;
      }
      AllPassWhenNoneFails(p);
      return true;
    }

    /** One turn of validateForm's loop: validate the i-th required
        field; no other required field changes. */
    method ValidateRequired(i: nat) returns (pass: bool)
      requires Valid() && i < |required|
      modifies required[i]
      ensures pass == old(Passes(required[i..]))[0]
      ensures pass ==> required[i].Shows(theme, None)
      ensures !pass ==> required[i].Shows(theme, old(required[i].Check()))
      ensures forall k | 0 <= k < |required| && k != i :: required[k] != required[i]
      ensures Passes(required[i + 1..]) == old(Passes(required[i + 1..]))
    {
      PassesAt(required[i..], 0);
      pass := ValidateField(required[i]);
    }

    /** validateForm with `const i`, as swarmag.js and scripts/swarmag.js
        have it: the body runs for i = 0, then `i++` throws. */
    method ValidateFormConst() returns (r: Outcome)
      requires Valid()
      modifies required
      ensures r == ConstLoopOutcome(Passes(required))
      ensures |required| > 0 ==> required[0].Shows(theme, required[0].Check())
      ensures forall k | 1 <= k < |required| :: unchanged(required[k])
    {
      var i := 0;
      if i < |required| {
        var pass := ValidateField(required[i]);
        if !pass {
          return Returned(false);
        }
        return Threw(CONST_ASSIGNMENT);
      }
      return Returned(true);
    }

    /** clearFormErrors: empty and hide every error element, then put the
        neutral border in place of the error border on every field. */
    method ClearFormErrors()
      requires Valid()
      modifies fields
      ensures forall f | f in fields ::
                && (f.hasErrorBox ==> f.errorText == [] && f.errorHidden)
                && f.classes == old(f.classes) - {theme.ErrorBorder()} + {theme.OkBorder()}
                && theme.OkBorder() in f.classes && theme.ErrorBorder() !in f.classes
                && f.value == old(f.value) && f.hasErrorBox == old(f.hasErrorBox)
    {
      ThemeClassesDiffer(theme);
      HideErrors();
      ResetBorders();
    }

    /** The first loop of clearFormErrors, over the error elements. */
    method HideErrors()
      requires Valid()
      modifies fields
      ensures forall f | f in fields ::
                && (f.hasErrorBox ==> f.errorText == [] && f.errorHidden)
                && f.classes == old(f.classes) && f.value == old(f.value) && f.hasErrorBox == old(f.hasErrorBox)
    {
      for i := 0 to |fields|
        invariant forall k | 0 <= k < i :: fields[k].hasErrorBox ==> fields[k].errorText == [] && fields[k].errorHidden
        invariant forall f | f in fields :: f.value == old(f.value) && f.hasErrorBox == old(f.hasErrorBox) && f.classes == old(f.classes)
      {
        if fields[i].hasErrorBox {
          fields[i].errorText := "";
          fields[i].errorHidden := true;
        }
      }
    }

    /** The second loop of clearFormErrors, over the fields. */
    method ResetBorders()
      requires Valid()
      modifies fields
      ensures forall f | f in fields ::
                && f.classes == old(f.classes) - {theme.ErrorBorder()} + {theme.OkBorder()}
                && f.value == old(f.value) && f.hasErrorBox == old(f.hasErrorBox)
                && f.errorText == old(f.errorText) && f.errorHidden == old(f.errorHidden)
    {
      for i := 0 to |fields|
        invariant forall k | 0 <= k < i :: fields[k].classes == old(fields[k].classes) - {theme.ErrorBorder()} + {theme.OkBorder()}
        invariant forall k | i <= k < |fields| :: fields[k].classes == old(fields[k].classes)
        invariant forall f | f in fields ::
                    && f.value == old(f.value) && f.hasErrorBox == old(f.hasErrorBox)
                    && f.errorText == old(f.errorText) && f.errorHidden == old(f.errorHidden)
      {
        fields[i].classes := fields[i].classes - {theme.ErrorBorder()} + {theme.OkBorder()};
      }
    }

    /** The labels of the required fields. */
    function RequiredLabels(): set<Label>
    {
      set f | f in required && f.fieldLabel != null :: f.fieldLabel
    }

    /** Append the star to each required field's label unless its text
        already holds a '*'. A label shared by two fields is starred once. */
    method MarkRequiredLabels()
      modifies RequiredLabels()
      ensures forall l | l in RequiredLabels() ::
                l.text == Starred(old(l.text)) && l.html == StarredHtml(theme, old(l.text), old(l.html))
    {
      ghost var labels := RequiredLabels();
      for i := 0 to |required|
        invariant forall l | l in labels ::
                    || (l.text == old(l.text) && l.html == old(l.html))
                    || (l.text == Starred(old(l.text)) && l.html == StarredHtml(theme, old(l.text), old(l.html)))
        invariant forall k | 0 <= k < i && required[k].fieldLabel != null :: '*' in required[k].fieldLabel.text
      {
        var l := required[i].fieldLabel;
        if l != null {
          assert l in labels;
          StarLabel(l);
        }
      }
      forall l | l in labels ensures '*' in l.text {
        var k :| 0 <= k < |required| && required[k].fieldLabel == l;
      }
    }

    /** One label: append the star unless the text already holds a '*'. */
    method StarLabel(l: Label)
      modifies l
      ensures l.text == Starred(old(l.text)) && l.html == StarredHtml(theme, old(l.text), old(l.html))
    {
      if '*' !in l.text {
        l.html := l.html + theme.Star();
        l.text := l.text + " *";
      }
    }

    /** On `input`: re-validate only a field that shows the error border. */
    method OnInput(f: Field)
      modifies f`hasErrorBox, f`errorText, f`errorHidden, f`classes
      ensures theme.ErrorBorder() !in old(f.classes) ==> unchanged(f)
      ensures theme.ErrorBorder() in old(f.classes) ==> f.Shows(theme, f.Check())
    {
      if theme.ErrorBorder() in f.classes {
        var _ := ValidateField(f);
      }
    }

    /** The submit handler up to the email service: when the form passes,
        keep the button's text, show "Sending...", disable the button and
        build the payload from the form's entries. */
    method Submit() returns (payload: Option<Payload>)
      requires Valid()
      modifies required, button
      ensures payload.Some? <==> AllPass(old(Passes(required)))
      ensures payload.Some? ==> forall k | 0 <= k < |required| :: required[k].Shows(theme, None)
      ensures payload.None? ==> var n := Checked(old(Passes(required))) - 1;
              && 0 <= n < |required|
              && (forall k | 0 <= k < n :: required[k].Shows(theme, None))
              && required[n].Shows(theme, old(required[n].Check()))
              && (forall k | n < k < |required| :: unchanged(required[k]))
      ensures payload.Some? ==>
                && button.text == SENDING && button.disabled && button.origText == old(button.text)
                && payload.value == FormPayload(fields)
      ensures payload.None? ==> unchanged(button)
    {
      var ok := ValidateForm();
      if !ok {
        return None;
      }
      button.origText := button.text;
      button.ShowMessage(true, SENDING);
      button.disabled := true;
      payload := Some(FormPayload(fields));
    }

    /** The email service failed: the notice upper-cased, the button
        enabled again. */
    method SendFailed()
      modifies button`text, button`disabled
      ensures button.text == Shown(false, SEND_FAILED) && !button.disabled
    {
      button.ShowMessage(false, SEND_FAILED);
      button.disabled := false;
    }

    /** The email service succeeded. */
    method SendSucceeded()
      modifies button`text
      ensures button.text == SENT
    {
      button.ShowMessage(true, SENT);
    }

    /** Two seconds after a success: the button's old text, the fields'
        default values and no error shown. The button stays disabled. */
    method ResetAfterSuccess()
      requires Valid()
      modifies button`text, fields
      ensures button.text == button.origText && button.disabled == old(button.disabled)
      ensures forall f | f in fields ::
                && f.value == f.defaultValue
                && (f.hasErrorBox ==> f.errorText == [] && f.errorHidden)
                && f.classes == old(f.classes) - {theme.ErrorBorder()} + {theme.OkBorder()}
    {
      button.ClearMessage();
      for i := 0 to |fields|
        invariant forall k | 0 <= k < i :: fields[k].value == fields[k].defaultValue
        invariant button.text == button.origText && button.disabled == old(button.disabled)
        invariant forall f | f in fields :: f.classes == old(f.classes) && f.hasErrorBox == old(f.hasErrorBox)
      {
        fields[i].value := fields[i].defaultValue;
      }
      ClearFormErrors();
    }

    /** The reset two seconds after a success in modules/contact.js and the
        two swarmag copies: as ResetAfterSuccess, and the button is enabled
        again. */
    method ResetAndEnable()
      requires Valid()
      modifies button`text, button`disabled, fields
      ensures button.text == button.origText && !button.disabled
      ensures forall f | f in fields ::
                && f.value == f.defaultValue
                && (f.hasErrorBox ==> f.errorText == [] && f.errorHidden)
                && f.classes == old(f.classes) - {theme.ErrorBorder()} + {theme.OkBorder()}
    {
      ResetAfterSuccess();
      button.disabled := false;
    }

    /** One successful send on modules/page-contact.js as written: submit,
        the service succeeds, the reset fires. A form that was sent ends
        with its old button text but the button still disabled, so no
        second message can be sent before the page reloads. */
    method SendRound() returns (payload: Option<Payload>)
      requires Valid()
      modifies required, button, fields
      ensures payload.Some? <==> AllPass(old(Passes(required)))
      ensures payload.Some? ==> button.text == old(button.text) && button.disabled
      ensures payload.Some? ==> forall f | f in fields :: f.value == f.defaultValue
    {
      payload := Submit();
      if payload.Some? {
        SendSucceeded();
        ResetAfterSuccess();
      }
    }

    /** The same round with the reset of modules/contact.js: a form that
        was sent ends with the button as the submit found it, enabled. */
    method SendRoundReenabled() returns (payload: Option<Payload>)
      requires Valid()
      modifies required, button, fields
      ensures payload.Some? <==> AllPass(old(Passes(required)))
      ensures payload.Some? ==> button.text == old(button.text) && !button.disabled
      ensures payload.Some? ==> forall f | f in fields :: f.value == f.defaultValue
    {
      payload := Submit();
      if payload.Some? {
        SendSucceeded();
        ResetAndEnable();
      }
    }
  }

  const SENDING: string := "Sending..."
  const SENT: string := "Message Sent!"
  const SEND_FAILED: string := "Send Failed - Try Again"

  /** The values sent to the email service: name, email and phone as the
      form holds them, and a non-empty text for the other three, which
      falls back to the default when the form has no such field. */
  function FormPayload(fs: seq<Field>): (p: Payload)
    reads fs
    ensures p.name == Entry(fs, "full-name") && p.email == Entry(fs, "email") && p.phone == Entry(fs, "phone")
    ensures p.service != [] && p.property != [] && p.message != []
    ensures (forall f | f in fs :: f.name != "service-type") ==> p.service == NOT_SPECIFIED
    ensures (forall f | f in fs :: f.name != "property-size") ==> p.property == NOT_SPECIFIED
    ensures (forall f | f in fs :: f.name != "message") ==> p.message == NO_MESSAGE
  {
    MakePayload(Entry(fs, "full-name"), Entry(fs, "email"), Entry(fs, "phone"),
                Entry(fs, "service-type"), Entry(fs, "property-size"), Entry(fs, "message"))
  }

  /** FormData.get(key): the value of the first field with that name, or
      None when there is none. */
  function Entry(fs: seq<Field>, key: string): (v: Option<string>)
    reads fs
    ensures v.None? <==> forall f | f in fs :: f.name != key
    ensures v.Some? ==> exists k | 0 <= k < |fs| ::
                          && fs[k].name == key && fs[k].value == v.value
                          && forall j | 0 <= j < k :: fs[j].name != key
  {
    if fs == [] then None
    else if fs[0].name == key then Some(fs[0].value)
    else
      var rest := Entry(fs[1..], key);
      if rest.Some? then
        var k :| 0 <= k < |fs[1..]| && fs[1..][k].name == key && fs[1..][k].value == rest.value
                 && forall j | 0 <= j < k :: fs[1..][j].name != key;
        assert fs[k + 1] == fs[1..][k];
        assert forall j | 1 <= j < k + 1 :: fs[j] == fs[1..][j - 1];
        rest
      else rest
  }

  /** A form whose every field passes is accepted. */
  lemma AllPassWhenNoneFails(p: seq<bool>)
    requires forall k | 0 <= k < |p| :: p[k]
    ensures AllPass(p) && Checked(p) == |p|
  {
  }

  /** Where validateForm stops: the index of the first failure, plus one. */
  lemma CheckedStopsAt(p: seq<bool>, i: nat)
    requires i < |p| && !p[i] && forall k | 0 <= k < i :: p[k]
    ensures Checked(p) == i + 1 && !AllPass(p)
  {
    if i > 0 {
      CheckedStopsAt(p[1..], i - 1);
    }
  }
}
