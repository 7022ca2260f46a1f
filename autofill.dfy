/**
 * Login-form detection and autofill over the abstract DOM: the keyword tables,
 * the field classifier, the three detection phases (login-selector forms, else
 * all forms, else one virtual form per password input), the submit-button
 * choice, and the two page-changing operations, filling and submitting.
 */
module Autofill {
  import opened Wrappers
  import opened Seqs
  import opened Text
  import opened Dom
  import opened Records

  const UsernameKeywords: seq<string> :=
    ["user", "email", "login", "id", "identifier", "account", "customer", "phone", "mail"]

  const PasswordKeywords: seq<string> := ["pass", "pwd", "secret"]

  /** `keywords.some(k => id.includes(k) || name.includes(k) || placeholder.includes(k))`. */
  predicate MentionsKeyword(keywords: seq<string>, id: string, name: string, placeholder: string) {
    exists k | 0 <= k < |keywords| ::
      Contains(id, keywords[k]) || Contains(name, keywords[k]) || Contains(placeholder, keywords[k])
  }

  /** The login-form selector list: a form whose action, id, class or name attribute contains
      one of the listed words, or whose class list holds one of the listed tokens. Attribute
      values are compared case-sensitively. */
  predicate IsLoginForm(e: Element) {
    && e.tag == FormTag
    && (|| Contains(e.action, "login") || Contains(e.action, "signin")
        || Contains(e.action, "sign-in") || Contains(e.action, "auth")
        || Contains(e.id, "login") || Contains(e.id, "signin") || Contains(e.id, "auth")
        || Contains(e.className, "login") || Contains(e.className, "signin")
        || HasClassToken(e.className, "login") || HasClassToken(e.className, "signin")
        || Contains(e.name, "login")
        || HasClassToken(e.className, "sign-in") || HasClassToken(e.className, "auth"))
  }

  /** The login selectors match substrings: a form posting to "/oauth" is a login form. */
  lemma LoginSelectorSubstring(e: Element)
    requires e.tag == FormTag && e.action == "/oauth"
    ensures IsLoginForm(e)
  {
    assert StartsWith(e.action[2..], "auth");
    assert Contains(e.action[2..], "auth");
    assert e.action[1..][1..] == e.action[2..];
    assert Contains(e.action[1..], "auth");
  }

  predicate IsForm(e: Element) { e.tag == FormTag }

  /** `input[type="password"]`. */
  predicate IsPasswordInput(e: Element) { e.tag == InputTag && TypeAttrIs(e, "password") }

  /** `div, section, main`. */
  predicate IsContainer(e: Element) { e.tag == DivTag || e.tag == SectionTag || e.tag == MainTag }

  /** `button, input[type="submit"], [role="button"]`. */
  predicate IsButtonLike(e: Element) {
    e.tag == ButtonTag || (e.tag == InputTag && TypeAttrIs(e, "submit")) || e.role == Some("button")
  }

  /** The submit-button test: the lower-cased text mentions signing in, logging in, entering or
      submitting, or the `type` attribute is exactly "submit". */
  predicate IsSubmitChoice(e: Element) {
    var t := ToLower(e.text);
    || Contains(t, "sign in") || Contains(t, "login") || Contains(t, "log in")
    || Contains(t, "enter") || Contains(t, "submit")
    || e.typeAttr == Some("submit")
  }

  /** A control the form phase keeps: an enabled input, select or text area that is not hidden. */
  predicate IsFieldCandidate(e: Element) {
    (e.tag == InputTag || e.tag == SelectTag || e.tag == TextAreaTag) && !e.disabled && TypeOf(e) != "hidden"
  }

  /** An input the fallback phase may take as the username: enabled and not hidden, a checkbox
      or a radio button. */
  predicate IsUsernameCandidate(e: Element) {
    e.tag == InputTag && TypeOf(e) != "hidden" && TypeOf(e) != "checkbox" && TypeOf(e) != "radio" && !e.disabled
  }

  datatype FormField = FormField(
    element: nat, fieldType: string, id: string, name: string, className: string,
    isPassword: bool, isUsername: bool)

  /** A detected form: its container node, the chosen fields and button, and the classified
      fields of the form phase (empty for a virtual form). */
  datatype DetectedForm = DetectedForm(
    element: nat,
    usernameField: Option<FormField>,
    passwordField: Option<FormField>,
    submitButton: Option<nat>,
    fields: seq<FormField>)

  /** Select elements have no `placeholder` property, so they contribute "". */
  function PlaceholderOf(e: Element): string {
    if e.tag == SelectTag then "" else e.placeholder
  }

  /** The form-phase classification of the control `e` at node i. */
  function Classify(i: nat, e: Element): (r: FormField)
    ensures r.element == i && r.fieldType == TypeOf(e)
    ensures (r.id, r.name, r.className) == (e.id, e.name, e.className)
  {
    var id, name, placeholder := ToLower(e.id), ToLower(e.name), ToLower(PlaceholderOf(e));
    FormField(i, TypeOf(e), e.id, e.name, e.className,
      TypeOf(e) == "password" || MentionsKeyword(PasswordKeywords, id, name, placeholder),
      MentionsKeyword(UsernameKeywords, id, name, placeholder) || TypeOf(e) == "email")
  }

  /** The fallback phase's username test as it is written there: the placeholder is consulted
      only when non-empty, and the type is lower-cased again. */
  predicate FallbackLooksLikeUsername(e: Element) {
    var id, name := ToLower(e.id), ToLower(e.name);
    || (exists k | 0 <= k < |UsernameKeywords| ::
          || Contains(id, UsernameKeywords[k]) || Contains(name, UsernameKeywords[k])
          || (e.placeholder != "" && Contains(ToLower(e.placeholder), UsernameKeywords[k])))
    || ToLower(TypeOf(e)) == "email"
  }

  /** The classified fields of the form rooted at node f, in document order. */
  function Fields(nodes: seq<Element>, f: nat): (r: seq<FormField>)
    ensures forall k :: 0 <= k < |r| ==>
      && r[k].element < |nodes| && IsDescendant(nodes, r[k].element, f)
      && IsFieldCandidate(nodes[r[k].element])
      && r[k] == Classify(r[k].element, nodes[r[k].element])
    ensures forall i: nat :: i < |nodes| && IsDescendant(nodes, i, f) && IsFieldCandidate(nodes[i]) ==>
      exists k :: 0 <= k < |r| && r[k].element == i
    ensures forall k, l :: 0 <= k < l < |r| ==> r[k].element < r[l].element
  {
    var r := ClassifyMatches(nodes, Some(f), IsFieldCandidate);
    assert forall i: nat :: i < |nodes| && IsDescendant(nodes, i, f) && IsFieldCandidate(nodes[i]) ==>
      Matches(nodes, Some(f), IsFieldCandidate, i);
    r
  }

  /** Entries whose elements are `c`, position by position, include one for each member of `c`. */
  lemma Covers(c: seq<nat>, r: seq<FormField>, i: nat)
    requires |r| == |c| && forall k :: 0 <= k < |r| ==> r[k].element == c[k]
    requires i in c
    ensures exists k :: 0 <= k < |r| && r[k].element == i
  {
    var k :| 0 <= k < |c| && c[k] == i;
    assert r[k].element == i;
  }

  /** The classification of every node matching `m` in `scope`, in document order. */
  function ClassifyMatches(nodes: seq<Element>, scope: Option<nat>, m: Element -> bool): (r: seq<FormField>)
    ensures forall k :: 0 <= k < |r| ==>
      && r[k].element < |nodes| && Matches(nodes, scope, m, r[k].element)
      && r[k] == Classify(r[k].element, nodes[r[k].element])
    ensures forall i: nat :: i < |nodes| && Matches(nodes, scope, m, i) ==>
      exists k :: 0 <= k < |r| && r[k].element == i
    ensures forall k, l :: 0 <= k < l < |r| ==> r[k].element < r[l].element
  {
    var c := QueryAll(nodes, scope, m);
    var r := ClassifyAll(nodes, c);
    forall i: nat | i < |nodes| && Matches(nodes, scope, m, i)
      ensures exists k :: 0 <= k < |r| && r[k].element == i
    {
      Covers(c, r, i);
    }
    r
  }

  /** `.map(...)`: each listed node classified. */
  function ClassifyAll(nodes: seq<Element>, c: seq<nat>): (r: seq<FormField>)
    requires forall k :: 0 <= k < |c| ==> c[k] < |nodes|
    ensures |r| == |c|
    ensures forall k :: 0 <= k < |r| ==> r[k].element == c[k] && r[k] == Classify(c[k], nodes[c[k]])
  {
    seq(|c|, k requires 0 <= k < |c| => Classify(c[k], nodes[c[k]]))
  }

  /** The submit button of the form or container at node `scope`. */
  function SubmitButton(nodes: seq<Element>, scope: nat): (r: Option<nat>)
    ensures r.Some? ==>
      && r.value < |nodes| && IsDescendant(nodes, r.value, scope)
      && IsButtonLike(nodes[r.value]) && IsSubmitChoice(nodes[r.value])
    ensures r.Some? ==> forall j: nat ::
      j < r.value && IsDescendant(nodes, j, scope) && IsButtonLike(nodes[j]) ==> !IsSubmitChoice(nodes[j])
    ensures r.None? ==> forall j: nat ::
      j < |nodes| && IsDescendant(nodes, j, scope) && IsButtonLike(nodes[j]) ==> !IsSubmitChoice(nodes[j])
  {
    var q := (i: nat) => i < |nodes| && IsSubmitChoice(nodes[i]);
    var r := FirstMatch(nodes, Some(scope), IsButtonLike, q);
    assert forall j: nat :: q(j) == (j < |nodes| && IsSubmitChoice(nodes[j]));
    assert forall j: nat :: j < |nodes| ==> (Matches(nodes, Some(scope), IsButtonLike, j) == (IsButtonLike(nodes[j]) && IsDescendant(nodes, j, scope)));
    r
  }

  /** `fields.find(field => field.isUsername)`: the first username-like field. */
  function FirstUsername(fields: seq<FormField>): (r: Option<FormField>)
    ensures r.None? <==> forall k :: 0 <= k < |fields| ==> !fields[k].isUsername
    ensures r.Some? ==>
      exists k :: 0 <= k < |fields| && r.value == fields[k] &&
        fields[k].isUsername && forall j :: 0 <= j < k ==> !fields[j].isUsername
  {
    match FindIndex(fields, (x: FormField) => x.isUsername)
    case None => None
    case Some(k) => Some(fields[k])
  }

  /** `fields.find(field => field.isPassword)`: the first password-like field. */
  function FirstPassword(fields: seq<FormField>): (r: Option<FormField>)
    ensures r.None? <==> forall k :: 0 <= k < |fields| ==> !fields[k].isPassword
    ensures r.Some? ==>
      exists k :: 0 <= k < |fields| && r.value == fields[k] &&
        fields[k].isPassword && forall j :: 0 <= j < k ==> !fields[j].isPassword
  {
    match FindIndex(fields, (x: FormField) => x.isPassword)
    case None => None
    case Some(k) => Some(fields[k])
  }

  /** The form phase applied to the form at node f. */
  function ProcessForm(nodes: seq<Element>, f: nat): (r: DetectedForm)
    ensures r.element == f && r.fields == Fields(nodes, f) && r.submitButton == SubmitButton(nodes, f)
    ensures r.usernameField == FirstUsername(r.fields) && r.passwordField == FirstPassword(r.fields)
  {
    var fields := Fields(nodes, f);
    DetectedForm(f, FirstUsername(fields), FirstPassword(fields), SubmitButton(nodes, f), fields)
  }

  /** The node a virtual form is built around: the nearest `div`, `section` or `main` ancestor of
      the password input, else the body. */
  function ContainerOf(nodes: seq<Element>, body: nat, pw: nat): (c: nat)
    requires pw < |nodes|
    ensures (forall a: nat :: a < |nodes| && IsDescendant(nodes, pw, a) ==> !IsContainer(nodes[a])) ==> c == body
    ensures (exists a: nat :: a < |nodes| && IsDescendant(nodes, pw, a) && IsContainer(nodes[a])) ==>
      c < pw && IsDescendant(nodes, pw, c) && IsContainer(nodes[c])
    ensures (exists a: nat :: a < |nodes| && IsDescendant(nodes, pw, a) && IsContainer(nodes[a])) ==>
      forall a: nat :: a < |nodes| && IsDescendant(nodes, pw, a) && IsDescendant(nodes, a, c) ==> !IsContainer(nodes[a])
  {
    match Closest(nodes, pw, IsContainer)
    case Some(c) => c
    case None => body
  }

  /** The fallback username of the virtual form around the password input at node pw. */
  function FallbackUsername(nodes: seq<Element>, container: nat, pw: nat): (r: Option<nat>)
    ensures r.Some? ==>
      && r.value < |nodes| && r.value != pw && IsDescendant(nodes, r.value, container)
      && IsUsernameCandidate(nodes[r.value]) && FallbackLooksLikeUsername(nodes[r.value])
    ensures r.Some? ==> forall j: nat ::
      j < r.value && j != pw && IsDescendant(nodes, j, container) && IsUsernameCandidate(nodes[j]) ==>
      !FallbackLooksLikeUsername(nodes[j])
    ensures r.None? ==> forall j: nat ::
      j < |nodes| && j != pw && IsDescendant(nodes, j, container) && IsUsernameCandidate(nodes[j]) ==>
      !FallbackLooksLikeUsername(nodes[j])
  {
    var q := (i: nat) => i != pw && i < |nodes| && FallbackLooksLikeUsername(nodes[i]);
    var r := FirstMatch(nodes, Some(container), IsUsernameCandidate, q);
    assert forall j: nat :: q(j) == (j != pw && j < |nodes| && FallbackLooksLikeUsername(nodes[j]));
    assert forall j: nat :: j < |nodes| ==>
      (Matches(nodes, Some(container), IsUsernameCandidate, j) == (IsUsernameCandidate(nodes[j]) && IsDescendant(nodes, j, container)));
    r
  }

  /** The virtual form of the fallback phase for the password input at node pw. */
  function Fallback(nodes: seq<Element>, body: nat, pw: nat): (r: DetectedForm)
    requires pw < |nodes|
    ensures r.fields == [] && r.element == ContainerOf(nodes, body, pw)
    ensures r.passwordField == Some(FormField(pw, "password", nodes[pw].id, nodes[pw].name, nodes[pw].className, true, false))
    ensures r.submitButton == SubmitButton(nodes, r.element)
    ensures r.usernameField.Some? <==> FallbackUsername(nodes, r.element, pw).Some?
    ensures r.usernameField.Some? ==>
      var u := FallbackUsername(nodes, r.element, pw).value;
      r.usernameField == Some(FormField(u, TypeOf(nodes[u]), nodes[u].id, nodes[u].name, nodes[u].className, false, true))
  {
    var container := ContainerOf(nodes, body, pw);
    var e := nodes[pw];
    var user := FallbackUsername(nodes, container, pw);
    DetectedForm(container,
      match user
      case None => None
      case Some(u) => Some(FormField(u, TypeOf(nodes[u]), nodes[u].id, nodes[u].name, nodes[u].className, false, true)),
      Some(FormField(pw, "password", e.id, e.name, e.className, true, false)),
      SubmitButton(nodes, container),
      [])
  }

  /** `detectForms()`: the login-selector forms; if there are none, every form; if there are no
      forms, one virtual form per password input. `body` is the node of `document.body`. */
  function DetectForms(nodes: seq<Element>, body: nat): (r: seq<DetectedForm>)
    ensures r == [] <==> forall i: nat :: i < |nodes| ==> !IsForm(nodes[i]) && !IsPasswordInput(nodes[i])
  {
    var forms := FormsToProcess(nodes);
    QueryAllEmpty(nodes, IsPasswordInput);
    if forms != [] then ProcessAll(nodes, forms)
    else FallbackAll(nodes, body, QueryAll(nodes, None, IsPasswordInput))
  }

  /** A document-wide query is empty exactly when no node matches. */
  lemma QueryAllEmpty(nodes: seq<Element>, m: Element -> bool)
    ensures QueryAll(nodes, None, m) == [] <==> forall i: nat :: i < |nodes| ==> !m(nodes[i])
  {
    var r := QueryAll(nodes, None, m);
    if r != [] {
      assert m(nodes[r[0]]);
    }
    forall i: nat | i < |nodes| && m(nodes[i]) ensures r != [] {
      assert Matches(nodes, None, m, i);
    }
  }

  /** The forms of the first two phases: the login-selector forms, or every form if there is
      no login-selector form. */
  function FormsToProcess(nodes: seq<Element>): (r: seq<nat>)
    ensures Increasing(r)
    ensures (exists i: nat :: i < |nodes| && IsLoginForm(nodes[i])) ==> r == QueryAll(nodes, None, IsLoginForm)
    ensures (forall i: nat :: i < |nodes| ==> !IsLoginForm(nodes[i])) ==> r == QueryAll(nodes, None, IsForm)
    ensures r == [] <==> forall i: nat :: i < |nodes| ==> !IsForm(nodes[i])
  {
    var login := QueryAll(nodes, None, IsLoginForm);
    var forms := QueryAll(nodes, None, IsForm);
    QueryAllEmpty(nodes, IsLoginForm);
    QueryAllEmpty(nodes, IsForm);
    if login != [] then login else forms
  }

  function ProcessAll(nodes: seq<Element>, forms: seq<nat>): (r: seq<DetectedForm>)
    ensures |r| == |forms| && forall k :: 0 <= k < |r| ==> r[k] == ProcessForm(nodes, forms[k])
  {
    seq(|forms|, k requires 0 <= k < |forms| => ProcessForm(nodes, forms[k]))
  }

  function FallbackAll(nodes: seq<Element>, body: nat, passwords: seq<nat>): (r: seq<DetectedForm>)
    requires forall k :: 0 <= k < |passwords| ==> passwords[k] < |nodes|
    ensures |r| == |passwords| && forall k :: 0 <= k < |r| ==> r[k] == Fallback(nodes, body, passwords[k])
    ensures forall k :: 0 <= k < |r| ==>
      && r[k].passwordField.Some? && r[k].passwordField.value.element == passwords[k]
      && r[k].passwordField.value.isPassword && !r[k].passwordField.value.isUsername
      && r[k].fields == []
  {
    seq(|passwords|, k requires 0 <= k < |passwords| => Fallback(nodes, body, passwords[k]))
  }

  // ---- properties of detection ------------------------------------------------

  /** One field may be both the username and the password: a password input whose id mentions
      "user". */
  lemma BothFlagsMayHold(i: nat, e: Element)
    requires e.tag == InputTag && e.typeAttr == Some("password") && e.id == "user"
    ensures Classify(i, e).isPassword && Classify(i, e).isUsername
  {
    ToLowerOfLower(e.id);
    ToLowerOfLower(e.typeAttr.value);
    assert StartsWith(ToLower(e.id), UsernameKeywords[0]);
    assert Contains(ToLower(e.id), UsernameKeywords[0]);
    assert MentionsKeyword(UsernameKeywords, ToLower(e.id), ToLower(e.name), ToLower(PlaceholderOf(e)));
  }

  /** A control whose type is "password" is password-like, whatever its id, name or
      placeholder say. */
  lemma PasswordTypeIsPassword(i: nat, e: Element)
    requires TypeOf(e) == "password"
    ensures Classify(i, e).isPassword
  {
  }

  /** A control whose type is "email" is username-like, whatever its id, name or placeholder say. */
  lemma EmailTypeIsUsername(i: nat, e: Element)
    requires TypeOf(e) == "email"
    ensures Classify(i, e).isUsername
  {
  }

  /** Neither flag sees letter case: controls of one type whose id, name and placeholder agree
      after lower-casing are classified alike. */
  lemma ClassifyIgnoresCase(i: nat, e1: Element, e2: Element)
    requires TypeOf(e1) == TypeOf(e2)
    requires ToLower(e1.id) == ToLower(e2.id) && ToLower(e1.name) == ToLower(e2.name)
    requires ToLower(PlaceholderOf(e1)) == ToLower(PlaceholderOf(e2))
    ensures Classify(i, e1).isPassword == Classify(i, e2).isPassword
    ensures Classify(i, e1).isUsername == Classify(i, e2).isUsername
  {
  }

  /** A control that is not of type "password" and whose lower-cased id, name and placeholder
      contain none of "pass", "pwd" and "secret" is not password-like. */
  lemma NoPasswordKeywordNotPassword(i: nat, e: Element)
    requires TypeOf(e) != "password"
    requires forall k :: 0 <= k < |PasswordKeywords| ==>
      && !Contains(ToLower(e.id), PasswordKeywords[k]) && !Contains(ToLower(e.name), PasswordKeywords[k])
      && !Contains(ToLower(PlaceholderOf(e)), PasswordKeywords[k])
    ensures !Classify(i, e).isPassword
  {
  }

  /** A control whose lower-cased id, name or placeholder contains one of "pass", "pwd" and
      "secret" is password-like, whatever its type. */
  lemma PasswordKeywordIsPassword(i: nat, e: Element, k: nat)
    requires k < |PasswordKeywords|
    requires || Contains(ToLower(e.id), PasswordKeywords[k]) || Contains(ToLower(e.name), PasswordKeywords[k])
             || Contains(ToLower(PlaceholderOf(e)), PasswordKeywords[k])
    ensures Classify(i, e).isPassword
  {
  }

  /** A control whose lower-cased id, name or placeholder contains one of the username keywords
      is username-like, whatever its type. */
  lemma UsernameKeywordIsUsername(i: nat, e: Element, k: nat)
    requires k < |UsernameKeywords|
    requires || Contains(ToLower(e.id), UsernameKeywords[k]) || Contains(ToLower(e.name), UsernameKeywords[k])
             || Contains(ToLower(PlaceholderOf(e)), UsernameKeywords[k])
    ensures Classify(i, e).isUsername
  {
  }

  /** A control that is not of type "email" and whose lower-cased id, name and placeholder
      contain none of the username keywords is not username-like. */
  lemma NoUsernameKeywordNotUsername(i: nat, e: Element)
    requires TypeOf(e) != "email"
    requires forall k :: 0 <= k < |UsernameKeywords| ==>
      && !Contains(ToLower(e.id), UsernameKeywords[k]) && !Contains(ToLower(e.name), UsernameKeywords[k])
      && !Contains(ToLower(PlaceholderOf(e)), UsernameKeywords[k])
    ensures !Classify(i, e).isUsername
  {
  }

  /** The keyword test ignores case: a text input with id "PWD" is password-like. */
  lemma UpperCaseKeywordIsPassword(i: nat, e: Element)
    requires e.tag == InputTag && e.typeAttr.None? && e.id == "PWD"
    ensures Classify(i, e).isPassword
  {
    assert ToLower(e.id) == "pwd";
    assert StartsWith(ToLower(e.id), PasswordKeywords[1]);
    assert Contains(ToLower(e.id), PasswordKeywords[1]);
  }

  /** On an input, the fallback phase's username test and the form phase's agree. */
  lemma FallbackAgreesWithClassify(i: nat, e: Element)
    requires e.tag == InputTag
    ensures FallbackLooksLikeUsername(e) == Classify(i, e).isUsername
  {
    ToLowerOfLower(TypeOf(e));
    var id, name, ph := ToLower(e.id), ToLower(e.name), ToLower(e.placeholder);
    forall k | 0 <= k < |UsernameKeywords|
      ensures (e.placeholder != "" && Contains(ph, UsernameKeywords[k])) == Contains(ph, UsernameKeywords[k])
    {
      if e.placeholder == "" {
        ContainsLonger(ph, UsernameKeywords[k]);
      }
    }
  }

  /** A query lists every matching node. */
  lemma QueryAllHas(nodes: seq<Element>, m: Element -> bool, i: nat)
    requires i < |nodes| && m(nodes[i])
    ensures exists k :: 0 <= k < |QueryAll(nodes, None, m)| && QueryAll(nodes, None, m)[k] == i
  {
    var r := QueryAll(nodes, None, m);
    assert Matches(nodes, None, m, i);
    assert i in r;
    var k :| 0 <= k < |r| && r[k] == i;
  }

  /** Processing the result of a document-wide query for `m` yields one detected form per
      matching node, each the form phase applied to that node, in document order. */
  lemma ProcessedExactly(nodes: seq<Element>, r: seq<DetectedForm>, m: Element -> bool)
    requires r == ProcessAll(nodes, QueryAll(nodes, None, m))
    ensures forall k :: 0 <= k < |r| ==>
      r[k].element < |nodes| && m(nodes[r[k].element]) && r[k] == ProcessForm(nodes, r[k].element)
    ensures forall i: nat :: i < |nodes| && m(nodes[i]) ==> exists k :: 0 <= k < |r| && r[k].element == i
    ensures forall k, l :: 0 <= k < l < |r| ==> r[k].element < r[l].element
  {
    var forms := QueryAll(nodes, None, m);
    forall i: nat | i < |nodes| && m(nodes[i]) ensures exists k :: 0 <= k < |r| && r[k].element == i {
      QueryAllHas(nodes, m, i);
      var k :| 0 <= k < |forms| && forms[k] == i;
      assert r[k].element == i;
    }
  }

  /** Phase one: when a login-selector form exists, exactly those forms are processed, one
      detected form each, in document order. */
  lemma LoginPhase(nodes: seq<Element>, body: nat)
    requires exists i: nat :: i < |nodes| && IsLoginForm(nodes[i])
    ensures var r := DetectForms(nodes, body);
      && (forall k :: 0 <= k < |r| ==>
            r[k].element < |nodes| && IsLoginForm(nodes[r[k].element]) && r[k] == ProcessForm(nodes, r[k].element))
      && (forall i: nat :: i < |nodes| && IsLoginForm(nodes[i]) ==> exists k :: 0 <= k < |r| && r[k].element == i)
      && (forall k, l :: 0 <= k < l < |r| ==> r[k].element < r[l].element)
  {
    var login := QueryAll(nodes, None, IsLoginForm);
    assert FormsToProcess(nodes) == login;
    var i0: nat :| i0 < |nodes| && IsLoginForm(nodes[i0]);
    assert IsForm(nodes[i0]);
    ProcessedExactly(nodes, DetectForms(nodes, body), IsLoginForm);
  }

  /** Phase two: with no login-selector form, every form is processed, whether or not it holds a
      password field, one detected form each, in document order. */
  lemma FormPhase(nodes: seq<Element>, body: nat)
    requires forall i: nat :: i < |nodes| ==> !IsLoginForm(nodes[i])
    requires exists i: nat :: i < |nodes| && IsForm(nodes[i])
    ensures var r := DetectForms(nodes, body);
      && (forall k :: 0 <= k < |r| ==>
            r[k].element < |nodes| && IsForm(nodes[r[k].element]) && r[k] == ProcessForm(nodes, r[k].element))
      && (forall i: nat :: i < |nodes| && IsForm(nodes[i]) ==> exists k :: 0 <= k < |r| && r[k].element == i)
      && (forall k, l :: 0 <= k < l < |r| ==> r[k].element < r[l].element)
  {
    assert FormsToProcess(nodes) == QueryAll(nodes, None, IsForm);
    ProcessedExactly(nodes, DetectForms(nodes, body), IsForm);
  }

  /** Building virtual forms around the result of a document-wide query for `m` yields one
      form per matching node, with that node as its password field, in document order. */
  lemma FallbacksExactly(nodes: seq<Element>, body: nat, r: seq<DetectedForm>, m: Element -> bool)
    requires r == FallbackAll(nodes, body, QueryAll(nodes, None, m))
    ensures forall k :: 0 <= k < |r| ==>
      && r[k].passwordField.Some?
      && var pw := r[k].passwordField.value.element;
         && pw < |nodes| && m(nodes[pw]) && r[k] == Fallback(nodes, body, pw)
         && r[k].fields == [] && r[k].passwordField.value.isPassword && !r[k].passwordField.value.isUsername
    ensures forall i: nat :: i < |nodes| && m(nodes[i]) ==>
      exists k :: 0 <= k < |r| && r[k].passwordField.Some? && r[k].passwordField.value.element == i
    ensures forall k, l :: 0 <= k < l < |r| ==>
      && r[k].passwordField.Some? && r[l].passwordField.Some?
      && r[k].passwordField.value.element < r[l].passwordField.value.element
  {
    var passwords := QueryAll(nodes, None, m);
    forall i: nat | i < |nodes| && m(nodes[i])
      ensures exists k :: 0 <= k < |r| && r[k].passwordField.Some? && r[k].passwordField.value.element == i
    {
      QueryAllHas(nodes, m, i);
      var k :| 0 <= k < |passwords| && passwords[k] == i;
      assert r[k].passwordField.value.element == i;
    }
  }

  /** Phase three: with no form at all, one virtual form per password input, in document order,
      each carrying that input as its password field and no classified fields. */
  lemma FallbackPhase(nodes: seq<Element>, body: nat)
    requires forall i: nat :: i < |nodes| ==> !IsForm(nodes[i])
    ensures var r := DetectForms(nodes, body);
      && (forall k :: 0 <= k < |r| ==>
            && r[k].passwordField.Some?
            && var pw := r[k].passwordField.value.element;
               && pw < |nodes| && IsPasswordInput(nodes[pw]) && r[k] == Fallback(nodes, body, pw)
               && r[k].fields == [] && r[k].passwordField.value.isPassword && !r[k].passwordField.value.isUsername)
      && (forall i: nat :: i < |nodes| && IsPasswordInput(nodes[i]) ==>
            exists k :: 0 <= k < |r| && r[k].passwordField.Some? && r[k].passwordField.value.element == i)
      && (forall k, l :: 0 <= k < l < |r| ==>
            && r[k].passwordField.Some? && r[l].passwordField.Some?
            && r[k].passwordField.value.element < r[l].passwordField.value.element)
  {
    assert FormsToProcess(nodes) == [];
    FallbacksExactly(nodes, body, DetectForms(nodes, body), IsPasswordInput);
  }

  // ---- filling and submitting ---------------------------------------------------

  /** Every node a detected form names exists. */
  predicate RefsValid(form: DetectedForm, n: nat) {
    && form.element < n
    && (form.usernameField.Some? ==> form.usernameField.value.element < n)
    && (form.passwordField.Some? ==> form.passwordField.value.element < n)
    && (form.submitButton.Some? ==> form.submitButton.value < n)
    && (forall k :: 0 <= k < |form.fields| ==> form.fields[k].element < n)
  }

  /** The forms `detectForms` returns name only existing nodes, so they can be filled and
      submitted. */
  lemma DetectedRefsValid(nodes: seq<Element>, body: nat)
    requires body < |nodes|
    ensures forall k :: 0 <= k < |DetectForms(nodes, body)| ==> RefsValid(DetectForms(nodes, body)[k], |nodes|)
  {
    var r := DetectForms(nodes, body);
    forall k | 0 <= k < |r| ensures RefsValid(r[k], |nodes|) {
      var forms := FormsToProcess(nodes);
      if forms != [] {
        ProcessedRefsValid(nodes, forms[k]);
      } else {
        var passwords := QueryAll(nodes, None, IsPasswordInput);
        FallbackRefsValid(nodes, body, passwords[k]);
      }
    }
  }

  /** A processed form and a virtual form name only nodes of the document. */
  lemma ProcessedRefsValid(nodes: seq<Element>, f: nat)
    requires f < |nodes|
    ensures RefsValid(ProcessForm(nodes, f), |nodes|)
  {
  }

  lemma FallbackRefsValid(nodes: seq<Element>, body: nat, pw: nat)
    requires body < |nodes| && pw < |nodes|
    ensures RefsValid(Fallback(nodes, body, pw), |nodes|)
  {
  }

  datatype Event = InputEvent(target: nat) | ChangeEvent(target: nat) | ClickEvent(target: nat) | SubmitEvent(target: nat)

  /** The node that receives the username: the username field, when there is one and the
      credential's username is non-empty. */
  function UsernameTarget(form: DetectedForm, c: LoginCredential): Option<nat> {
    if form.usernameField.Some? && c.username != [] then Some(form.usernameField.value.element) else None
  }

  function PasswordTarget(form: DetectedForm, c: LoginCredential): Option<nat> {
    if form.passwordField.Some? && c.password != [] then Some(form.passwordField.value.element) else None
  }

  /** The events of one write: `input`, then `change`, on the written node. */
  function WriteEvents(target: Option<nat>): seq<Event> {
    match target
    case None => []
    case Some(t) => [InputEvent(t), ChangeEvent(t)]
  }

  /** The node i after filling: the password is written after the username, so a field that
      is both ends up holding the password. */
  function FilledNode(e: Element, i: nat, form: DetectedForm, c: LoginCredential): (r: Element)
    ensures r.(value := e.value) == e
  {
    if PasswordTarget(form, c) == Some(i) then e.(value := c.password)
    else if UsernameTarget(form, c) == Some(i) then e.(value := c.username)
    else e
  }

  class Page {
    var nodes: seq<Element>
    var log: seq<Event>
    const body: nat

    ghost predicate Valid()
      reads this
    {
      body < |nodes| && nodes[body].tag == BodyTag
    }

    constructor (nodes: seq<Element>, body: nat)
      requires body < |nodes| && nodes[body].tag == BodyTag
      ensures Valid() && this.nodes == nodes && this.body == body && log == []
    {
      this.nodes := nodes;
      this.body := body;
      log := [];
    }

    /** `detectForms()` on this page. */
    function Detect(): (r: seq<DetectedForm>)
      reads this
      requires Valid()
      ensures r == DetectForms(nodes, body)
      ensures forall k :: 0 <= k < |r| ==> RefsValid(r[k], |nodes|)
    {
      DetectedRefsValid(nodes, body);
      DetectForms(nodes, body)
    }

    /** `fillForm(form, credential)`: writes the non-empty username and password into the
        chosen fields, each write followed by an `input` and a `change` event, and reports
        whether anything was written. No other node and no other property changes. */
    method FillForm(form: DetectedForm, credential: LoginCredential) returns (filled: bool)
      requires Valid() && RefsValid(form, |nodes|)
      modifies this
      ensures Valid()
      ensures filled <==> UsernameTarget(form, credential).Some? || PasswordTarget(form, credential).Some?
      ensures |nodes| == |old(nodes)|
      ensures forall i :: 0 <= i < |nodes| ==> nodes[i] == FilledNode(old(nodes)[i], i, form, credential)
      ensures log == old(log) + WriteEvents(UsernameTarget(form, credential)) + WriteEvents(PasswordTarget(form, credential))
    {
      filled := false;
      if form.usernameField.Some? && credential.username != [] {
        var el := form.usernameField.value.element;
        nodes := nodes[el := nodes[el].(value := credential.username)];
        log := log + [InputEvent(el), ChangeEvent(el)];
        filled := true;
      }
      if form.passwordField.Some? && credential.password != [] {
        var el := form.passwordField.value.element;
        nodes := nodes[el := nodes[el].(value := credential.password)];
        log := log + [InputEvent(el), ChangeEvent(el)];
        filled := true;
      }
    }

    /** `submitForm(form)`: clicks the submit button if there is one, else submits the container
        when it is a form, else does nothing and reports false. */
    method SubmitForm(form: DetectedForm) returns (submitted: bool)
      requires Valid() && RefsValid(form, |nodes|)
      modifies this
      ensures Valid() && nodes == old(nodes)
      ensures form.submitButton.Some? ==> submitted && log == old(log) + [ClickEvent(form.submitButton.value)]
      ensures form.submitButton.None? && nodes[form.element].tag == FormTag ==>
        submitted && log == old(log) + [SubmitEvent(form.element)]
      ensures form.submitButton.None? && nodes[form.element].tag != FormTag ==> !submitted && log == old(log)
    {
      if form.submitButton.Some? {
        log := log + [ClickEvent(form.submitButton.value)];
        return true;
      } else if nodes[form.element].tag == FormTag {
        log := log + [SubmitEvent(form.element)];
        return true;
      }
      return false;
    }
  }
}
