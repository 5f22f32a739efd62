/** The decisions of the contact form, apart from the page: which
    characters trim() and the regex `\s` treat as white space, the email
    pattern, the order of the three field rules and their messages, the
    class names of the two stylings, the payload defaults and the submit
    button's text. */
module FormRules {

  // ---------------------------------------------------------------------
  // White space and trim()

  /** ECMAScript WhiteSpace and LineTerminator: what String.prototype.trim
      strips and what `\s` matches. */
  predicate IsSpace(c: char)
  {
    || c == '\t' || c == '\n' || c == '\U{000B}' || c == '\U{000C}' || c == '\r' || c == ' '
    || c == '\U{00A0}' || c == '\U{1680}' || ('\U{2000}' <= c <= '\U{200A}')
    || c == '\U{2028}' || c == '\U{2029}' || c == '\U{202F}' || c == '\U{205F}'
    || c == '\U{3000}' || c == '\U{FEFF}'
  }

  predicate AllSpace(s: string)
  {
    forall k | 0 <= k < |s| :: IsSpace(s[k])
  }

  /** s without its leading white space. */
  function TrimStart(s: string): string
  {
    if s != [] && IsSpace(s[0]) then TrimStart(s[1..]) else s
  }

  /** TrimStart drops a run of white space from the front and stops at
      the first other character. */
  lemma {:induction false} TrimStartDropsSpace(s: string)
    ensures var r := TrimStart(s);
            && |r| <= |s| && r == s[|s| - |r|..]
            && AllSpace(s[..|s| - |r|])
            && (r == [] || !IsSpace(r[0]))
  {
    if s != [] && IsSpace(s[0]) {
      TrimStartDropsSpace(s[1..]);
      var r := TrimStart(s[1..]);
      assert s[1..][..|s| - 1 - |r|] == s[1..|s| - |r|];
    }
  }

  /** s without its trailing white space. */
  function TrimEnd(s: string): string
  {
    if s != [] && IsSpace(s[|s| - 1]) then TrimEnd(s[..|s| - 1]) else s
  }

  /** TrimEnd drops a run of white space from the back and stops at the
      last other character. */
  lemma {:induction false} TrimEndDropsSpace(s: string)
    ensures var r := TrimEnd(s);
            && |r| <= |s| && r == s[..|r|]
            && AllSpace(s[|r|..])
            && (r == [] || !IsSpace(r[|r| - 1]))
  {
    if s != [] && IsSpace(s[|s| - 1]) {
      TrimEndDropsSpace(s[..|s| - 1]);
      var r := TrimEnd(s[..|s| - 1]);
      assert s[..|s| - 1][|r|..] == s[|r|..|s| - 1];
    }
  }

  /** String.prototype.trim: never longer than the value, and neither
      starting nor ending with white space. */
  function Trim(s: string): (r: string)
    ensures |r| <= |s|
    ensures r == [] || (!IsSpace(r[0]) && !IsSpace(r[|r| - 1]))
  {
    TrimStartDropsSpace(s);
    TrimEndDropsSpace(TrimStart(s));
    var r := TrimEnd(TrimStart(s));
    assert r != [] ==> r[0] == TrimStart(s)[0];
    r
  }

  /** trim() keeps one infix of s: everything before and after it is
      white space. */
  lemma TrimIsInfix(s: string)
    ensures exists i, j | 0 <= i <= j <= |s| ::
              && Trim(s) == s[i..j] && AllSpace(s[..i]) && AllSpace(s[j..])
  {
    var t := TrimStart(s);
    var i := |s| - |t|;
    var r := TrimEnd(t);
    TrimStartDropsSpace(s);
    TrimEndDropsSpace(t);
    var j := i + |r|;
    assert s[i..j] == t[..|r|];
    assert s[j..] == t[|r|..];
    assert r != [] ==> r[0] == t[0];
  }

  /** Two runs of white space make one. */
  lemma AllSpaceConcat(a: string, b: string)
    requires AllSpace(a) && AllSpace(b)
    ensures AllSpace(a + b)
  {
    var c := a + b;
    forall k | 0 <= k < |c| ensures IsSpace(c[k]) {
      if k >= |a| {
        assert c[k] == b[k - |a|];
      }
    }
  }

  /** A value counts as empty exactly when it is all white space. */
  lemma TrimEmptyIffAllSpace(s: string)
    ensures Trim(s) == [] <==> AllSpace(s)
  {
    var t := TrimStart(s);
    var p := |s| - |t|;
    TrimStartDropsSpace(s);
    TrimEndDropsSpace(t);
    assert t != [] ==> t[0] == s[p];
    assert s == s[..p] + t;
    assert t[0..] == t;
    if TrimEnd(t) == [] {
      AllSpaceConcat(s[..p], t);
    }
  }

  /** Trimming twice is trimming once. */
  lemma TrimIdempotent(s: string)
    ensures Trim(Trim(s)) == Trim(s)
  {
    var t := TrimStart(s);
    var r := TrimEnd(t);
    TrimStartDropsSpace(s);
    TrimEndDropsSpace(t);
    assert r != [] ==> r[0] == t[0];
    assert TrimStart(r) == r;
    assert TrimEnd(r) == r;
  }

  // ---------------------------------------------------------------------
  // The email pattern /^[^\s@]+@[^\s@]+\.[^\s@]+$/

  /** A character of the class [^\s@]. */
  predicate Plain(c: char)
  {
    !IsSpace(c) && c != '@'
  }

  predicate AllPlain(s: string)
  {
    forall k | 0 <= k < |s| :: Plain(s[k])
  }

  /** What the pattern denotes: a non-empty run of [^\s@], '@', a
      non-empty run, '.', a non-empty run, and nothing else. The shortest
      such text is `a@b.c`. */
  ghost function EmailPattern(s: string): (b: bool)
    ensures b ==> 5 <= |s| && '@' in s && '.' in s
  {
    exists at, dot | 0 < at && at + 1 < dot && dot + 1 < |s| ::
      && AllPlain(s[..at]) && s[at] == '@'
      && AllPlain(s[at + 1..dot]) && s[dot] == '.'
      && AllPlain(s[dot + 1..])
  }

  /** The index of the first '@', or |s| when there is none. */
  function FirstAt(s: string): (i: nat)
    ensures i <= |s| && (i < |s| ==> s[i] == '@')
    ensures forall k | 0 <= k < i :: s[k] != '@'
  {
    if s == [] then 0
    else if s[0] == '@' then 0
    else 1 + FirstAt(s[1..])
  }

  /** The first '@' is the one with none before it. */
  lemma FirstAtIs(s: string, at: nat)
    requires at < |s| && s[at] == '@' && forall k | 0 <= k < at :: s[k] != '@'
    ensures FirstAt(s) == at
  {
    var f := FirstAt(s);
    assert f <= at;
  }

  /** The pattern's test as a scan: text before the first '@', a domain
      after it with no white space and no second '@', and a '.' that is
      neither the domain's first nor its last character. It accepts no
      text shorter than `a@b.c`, and none without an '@'. */
  function EmailTest(s: string): (b: bool)
    ensures b ==> 5 <= |s| && '@' in s
  {
    var at := FirstAt(s);
    && 0 < at < |s|
    && AllPlain(s[..at])
    && AllPlain(s[at + 1..])
    && |s[at + 1..]| >= 3 && '.' in s[at + 2..|s| - 1]
  }

  /** What the scan accepts, the pattern matches. */
  lemma EmailTestImpliesPattern(s: string)
    requires EmailTest(s)
    ensures EmailPattern(s)
  {
    var at := FirstAt(s);
    var domain := s[at + 1..];
    var inner := s[at + 2..|s| - 1];
    var m :| 0 <= m < |inner| && inner[m] == '.';
    var dot := at + 2 + m;
    assert s[dot] == '.';
    var host := s[at + 1..dot];
    forall k | 0 <= k < |host| ensures Plain(host[k]) {
      assert host[k] == domain[k];
    }
    var top := s[dot + 1..];
    forall k | 0 <= k < |top| ensures Plain(top[k]) {
      assert top[k] == domain[k + dot - at];
    }
  }

  /** What the pattern matches, the scan accepts. */
  lemma PatternImpliesEmailTest(s: string)
    requires EmailPattern(s)
    ensures EmailTest(s)
  {
    var at, dot :| 0 < at && at + 1 < dot && dot + 1 < |s|
                   && AllPlain(s[..at]) && s[at] == '@'
                   && AllPlain(s[at + 1..dot]) && s[dot] == '.'
                   && AllPlain(s[dot + 1..]);
    forall k | 0 <= k < at ensures s[k] != '@' {
      assert s[..at][k] == s[k];
    }
    FirstAtIs(s, at);
    DomainPlain(s, at, dot);
    assert s[at + 2..|s| - 1][dot - at - 2] == '.';
  }

  /** A domain made of two runs of [^\s@] around a '.' is one run. */
  lemma DomainPlain(s: string, at: nat, dot: nat)
    requires at < dot < |s| && s[dot] == '.'
    requires AllPlain(s[at + 1..dot]) && AllPlain(s[dot + 1..])
    ensures AllPlain(s[at + 1..])
  {
    var domain := s[at + 1..];
    var host := s[at + 1..dot];
    var top := s[dot + 1..];
    forall k | 0 <= k < |domain| ensures Plain(domain[k]) {
      if at + 1 + k < dot {
        assert domain[k] == host[k];
      } else if at + 1 + k > dot {
        assert domain[k] == top[k - (dot - at)];
      } else {
        assert domain[k] == '.';
      }
    }
  }

  /** The scan accepts exactly the strings the pattern matches. */
  lemma EmailTestMatchesPattern(s: string)
    ensures EmailTest(s) <==> EmailPattern(s)
  {
    if EmailTest(s) {
      EmailTestImpliesPattern(s);
    }
    if EmailPattern(s) {
      PatternImpliesEmailTest(s);
    }
  }

  /** Every accepted address holds exactly one '@', with text before it. */
  lemma EmailHasOneAt(s: string)
    requires EmailTest(s)
    ensures 0 < FirstAt(s) && forall k | 0 <= k < |s| && k != FirstAt(s) :: s[k] != '@'
  {
    var at := FirstAt(s);
    forall k | 0 <= k < |s| && k != at ensures s[k] != '@' {
      if k > at {
        assert s[k] == s[at + 1..][k - at - 1];
        assert Plain(s[at + 1..][k - at - 1]);
      }
    }
  }

  /** Addresses are rejected for white space anywhere. */
  lemma EmailRejectsSpace(s: string, k: nat)
    requires k < |s| && IsSpace(s[k])
    ensures !EmailTest(s)
  {
    var at := FirstAt(s);
    assert k < at ==> s[..at][k] == s[k];
    assert at < k ==> s[at + 1..][k - at - 1] == s[k];
  }

  // ---------------------------------------------------------------------
  // The three rules of validateField

  /** The attributes validateField reads: name, `required`, type="email"
      and `minlength` (None: the attribute is absent). */
  datatype FieldSpec = FieldSpec(name: string, required: bool, isEmail: bool, minLength: Option<nat>)

  datatype Option<T> = None | Some(value: T)

  /** The rule a value breaks. */
  datatype Failure = Missing | BadEmail | TooShort(min: nat)

  const EMAIL_MESSAGE: string := "Please enter a valid email address"

  /** The decimal form of n, as the attribute's text reads for a number
      without leading zeros. */
  function Decimal(n: nat): (r: string)
    ensures |r| >= 1 && forall k | 0 <= k < |r| :: '0' <= r[k] <= '9'
  {
    if n < 10 then [Digit(n)] else Decimal(n / 10) + [Digit(n % 10)]
  }

  function Digit(d: nat): (c: char)
    requires d < 10
    ensures '0' <= c <= '9'
  {
    match d
    case 0 => '0' case 1 => '1' case 2 => '2' case 3 => '3' case 4 => '4'
    case 5 => '5' case 6 => '6' case 7 => '7' case 8 => '8' case _ => '9'
  }

  /** The text showError puts in the field's error element: the fixed
      email text, or a sentence that starts with the field's name. */
  function Message(name: string, failure: Failure): (r: string)
    ensures failure.BadEmail? ==> r == EMAIL_MESSAGE
    ensures !failure.BadEmail? ==> |name| < |r| && r[..|name|] == name
  {
    match failure
    case Missing => name + " is required"
    case BadEmail => EMAIL_MESSAGE
    case TooShort(n) => name + " must be at least " + Decimal(n) + " characters"
  }

  /** The three messages differ for every field name: each ends in its own
      way ("d", "ss", "rs"). */
  lemma MessagesDiffer(name: string, n: nat)
    ensures Message(name, Missing) != Message(name, BadEmail)
    ensures Message(name, Missing) != Message(name, TooShort(n))
    ensures Message(name, BadEmail) != Message(name, TooShort(n))
  {
    var missing := Message(name, Missing);
    var short := Message(name, TooShort(n));
    assert missing[|missing| - 1] == 'd';
    assert short[|short| - 1] == 's' && short[|short| - 2] == 'r';
    assert EMAIL_MESSAGE[|EMAIL_MESSAGE| - 2] == 's';
  }

  /** validateField's decision on the raw value: the first rule that
      fails (required, then email, then minlength), or None. A field only
      ever fails a rule it carries, and a minlength failure names a
      positive minimum. */
  function Verdict(f: FieldSpec, raw: string): (r: Option<Failure>)
    ensures r == Some(Missing) ==> f.required
    ensures r == Some(BadEmail) ==> f.isEmail
    ensures r.Some? && r.value.TooShort? ==> f.minLength == Some(r.value.min) && 0 < r.value.min
  {
    var value := Trim(raw);
    if f.required && value == [] then Some(Missing)
    else if f.isEmail && value != [] && !EmailTest(value) then Some(BadEmail)
    else if f.minLength.Some? && |value| < f.minLength.value then Some(TooShort(f.minLength.value))
    else None
  }

  /** A field passes exactly when all three rules hold of its trimmed
      value: present if required, an address if an email field with
      text, and at least minlength characters. */
  lemma PassesIffAllRulesHold(f: FieldSpec, raw: string)
    ensures Verdict(f, raw) == None <==>
              && (f.required ==> !AllSpace(raw))
              && (f.isEmail && !AllSpace(raw) ==> EmailPattern(Trim(raw)))
              && (f.minLength.Some? ==> |Trim(raw)| >= f.minLength.value)
  {
    TrimEmptyIffAllSpace(raw);
    EmailTestMatchesPattern(Trim(raw));
  }

  /** Which failure is reported: a rule's failure exactly when it is
      broken and every earlier rule holds. */
  lemma FirstFailureWins(f: FieldSpec, raw: string)
    ensures Verdict(f, raw) == Some(Missing) <==> f.required && AllSpace(raw)
    ensures Verdict(f, raw) == Some(BadEmail) <==> f.isEmail && !AllSpace(raw) && !EmailPattern(Trim(raw))
    ensures forall n: nat :: Verdict(f, raw) == Some(TooShort(n)) <==>
              && !(f.required && AllSpace(raw))
              && !(f.isEmail && !AllSpace(raw) && !EmailPattern(Trim(raw)))
              && f.minLength == Some(n) && |Trim(raw)| < n
  {
    TrimEmptyIffAllSpace(raw);
    EmailTestMatchesPattern(Trim(raw));
  }

  /** A field that is not required still fails on an empty value when
      minlength is positive, and passes on it otherwise. */
  lemma EmptyOptionalField(f: FieldSpec, raw: string)
    requires !f.required && AllSpace(raw)
    ensures f.minLength.Some? && f.minLength.value > 0 ==> Verdict(f, raw) == Some(TooShort(f.minLength.value))
    ensures (f.minLength.None? || f.minLength.value == 0) ==> Verdict(f, raw) == None
  {
    TrimEmptyIffAllSpace(raw);
  }

  /** The verdict only depends on the trimmed value. */
  lemma VerdictIgnoresSurroundingSpace(f: FieldSpec, raw: string)
    ensures Verdict(f, Trim(raw)) == Verdict(f, raw)
  {
    TrimIdempotent(raw);
  }

  // ---------------------------------------------------------------------
  // validateForm over the required fields' verdicts

  /** The let-loop of validateForm, on the verdicts of the required
      fields in order: true when every one passes. */
  function AllPass(passes: seq<bool>): (ok: bool)
    ensures ok <==> forall k | 0 <= k < |passes| :: passes[k]
  {
    if passes == [] then true else passes[0] && AllPass(passes[1..])
  }

  /** How many fields the loop validates: up to and including the first
      failure. */
  function Checked(passes: seq<bool>): (n: nat)
    ensures n <= |passes| && forall k | 0 <= k < n - 1 :: passes[k]
    ensures AllPass(passes) ==> n == |passes|
    ensures !AllPass(passes) ==> 0 < n && !passes[n - 1]
  {
    if passes == [] then 0
    else if !passes[0] then 1
    else 1 + Checked(passes[1..])
  }

  /** The outcome of a call that may throw. */
  datatype Outcome = Returned(value: bool) | Threw(error: string)

  const CONST_ASSIGNMENT: string := "TypeError: Assignment to constant variable."

  /** The `for (const i = 0; ...; i++)` loop: the test and the body run
      for i = 0, then `i++` assigns to a constant and throws. */
  function ConstLoopOutcome(passes: seq<bool>): (r: Outcome)
    ensures passes == [] ==> r == Returned(true)
    ensures passes != [] && !passes[0] ==> r == Returned(false)
    ensures passes != [] && passes[0] ==> r == Threw(CONST_ASSIGNMENT)
  {
    if passes == [] then Returned(true)
    else if !passes[0] then Returned(false)
    else Threw(CONST_ASSIGNMENT)
  }

  /** The const loop never reports a passing form with a required field:
      one valid required field already makes it throw where the let loop
      returns true. */
  lemma ConstLoopThrowsOnValidForm()
    ensures ConstLoopOutcome([true]) == Threw(CONST_ASSIGNMENT)
    ensures AllPass([true])
  {
  }

  /** The two loops agree exactly when the form has no required field or
      its first one fails. */
  lemma ConstLoopAgreesOnlyBeforeFirstPass(passes: seq<bool>)
    ensures ConstLoopOutcome(passes) == Returned(AllPass(passes)) <==> passes == [] || !passes[0]
  {
  }

  // ---------------------------------------------------------------------
  // Stylings

  /** Tailwind classes (swarmag.js, scripts/swarmag.js, modules/contact.js)
      or the site's own short classes (modules/page-contact.js). */
  datatype Theme = Tailwind | Plain
  {
    function ErrorBorder(): string
    {
      if this == Tailwind then "border-red-500" else "border-red"
    }

    function OkBorder(): string
    {
      if this == Tailwind then "border-gray-300" else "border-gray"
    }

    /** The markup appended to a required field's label. */
    function Star(): string
    {
      if this == Tailwind then " <span class=\"text-red-500\">*</span>" else " <span class=\"text-red\">*</span>"
    }
  }

  /** The two border classes differ in both stylings, and the appended
      star's text is " *". */
  lemma ThemeClassesDiffer(t: Theme)
    ensures t.ErrorBorder() != t.OkBorder()
    ensures '*' in t.Star()
  {
    assert t.ErrorBorder()[7] != t.OkBorder()[7];
    assert t.Star()[|t.Star()| - 8] == '*';
  }

  // ---------------------------------------------------------------------
  // Payload and button text

  const NOT_SPECIFIED: string := "Not specified"
  const NO_MESSAGE: string := "No message provided"

  /** `fields.get(key) || fallback`: FormData yields null for a missing
      key, and null and "" are both falsy. */
  function OrDefault(v: Option<string>, fallback: string): (r: string)
    ensures r == fallback <==> v.None? || v.value == [] || v.value == fallback
    ensures r != fallback ==> v == Some(r)
  {
    if v.None? || v.value == [] then fallback else v.value
  }

  /** The values object sent with the email. */
  datatype Payload = Payload(name: Option<string>, email: Option<string>, phone: Option<string>,
                             service: string, property: string, message: string)

  /** The payload from the form's entries for full-name, email, phone,
      service-type, property-size and message. */
  function MakePayload(fullName: Option<string>, email: Option<string>, phone: Option<string>,
                       serviceType: Option<string>, propertySize: Option<string>,
                       message: Option<string>): (p: Payload)
    ensures p.name == fullName && p.email == email && p.phone == phone
    ensures p.service != [] && p.property != [] && p.message != []
    ensures p.service == NOT_SPECIFIED <==> serviceType.None? || serviceType.value in {[], NOT_SPECIFIED}
    ensures p.property == NOT_SPECIFIED <==> propertySize.None? || propertySize.value in {[], NOT_SPECIFIED}
    ensures p.message == NO_MESSAGE <==> message.None? || message.value in {[], NO_MESSAGE}
  {
    Payload(fullName, email, phone,
            OrDefault(serviceType, NOT_SPECIFIED), OrDefault(propertySize, NOT_SPECIFIED),
            OrDefault(message, NO_MESSAGE))
  }

  /** toUpperCase on the ASCII letters. */
  function Upper(c: char): (u: char)
    ensures !('a' <= u <= 'z')
    ensures 'a' <= c <= 'z' ==> 'A' <= u <= 'Z' && u as int == c as int - 32
    ensures !('a' <= c <= 'z') ==> u == c
  {
    if 'a' <= c <= 'z' then (c as int - 32) as char else c
  }

  function ToUpper(s: string): (r: string)
    ensures |r| == |s| && forall k | 0 <= k < |s| :: r[k] == Upper(s[k])
  {
    seq(|s|, k requires 0 <= k < |s| => Upper(s[k]))
  }

  /** showMessage: the text as given for good news, upper-cased for bad. */
  function Shown(good: bool, message: string): (r: string)
    ensures |r| == |message|
    ensures good ==> r == message
    ensures !good ==> r == ToUpper(message)
    ensures !good ==> forall k | 0 <= k < |r| :: !('a' <= r[k] <= 'z')
  {
    if good then message else ToUpper(message)
  }

  /** Upper-casing twice changes nothing more. */
  lemma ToUpperIdempotent(s: string)
    ensures ToUpper(ToUpper(s)) == ToUpper(s)
  {
    assert forall k | 0 <= k < |s| :: Upper(Upper(s[k])) == Upper(s[k]);
  }

  /** The failure notice reads as the upper-cased literal. */
  lemma ShownFailure(notice: string)
    requires notice == "Send Failed - Try Again"
    ensures Shown(false, notice) == "SEND FAILED - TRY AGAIN"
  {
    var r := ToUpper(notice);
    forall k | 0 <= k < |notice| ensures r[k] == "SEND FAILED - TRY AGAIN"[k] {
    }
  }
}
