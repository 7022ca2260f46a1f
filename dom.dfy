/**
 * An abstract DOM: the document is a sequence of elements in document order,
 * each naming its parent by index. Element queries are modelled as filters over
 * that sequence, so their results come back in document order as
 * `querySelectorAll` returns them.
 */
module Dom {
  import opened Wrappers
  import opened Seqs
  import Text

  datatype Tag = FormTag | InputTag | SelectTag | TextAreaTag | ButtonTag
               | DivTag | SectionTag | MainTag | BodyTag | OtherTag

  /** The attributes and state the autofill code reads or writes. `typeAttr` and `role` are
      the content attributes (absent as `None`). `id`, `name`, `className` and `placeholder`
      read as "" when absent, as their reflecting properties do. `action` is the content
      attribute, "" when absent, which is what the `[action*=...]` selectors test (the
      `action` property would give the document URL instead). `text` is the element's
      `textContent` and `value` its current value. */
  datatype Element = Element(
    tag: Tag,
    parent: Option<nat>,
    typeAttr: Option<string>,
    id: string,
    name: string,
    className: string,
    action: string,
    placeholder: string,
    role: Option<string>,
    disabled: bool,
    multiple: bool,
    text: string,
    value: string)

  /** The parent of node i. In document order a parent precedes its children, so a link that
      does not point backwards is treated as no parent. */
  function ParentOf(nodes: seq<Element>, i: nat): (r: Option<nat>)
    requires i < |nodes|
    ensures r.Some? ==> r.value < i && nodes[i].parent == r
  {
    match nodes[i].parent
    case Some(p) => if p < i then Some(p) else None
    case None => None
  }

  /** Node d lies strictly inside node a. */
  predicate IsDescendant(nodes: seq<Element>, d: nat, a: nat)
    decreases d
    ensures IsDescendant(nodes, d, a) ==> a < d < |nodes|
  {
    d < |nodes| &&
    match ParentOf(nodes, d)
    case None => false
    case Some(p) => p == a || IsDescendant(nodes, p, a)
  }

  /** `Element.closest(selector)` started at the parent of node i: the nearest proper ancestor
      matching `m`, or `None` when no ancestor matches. */
  function Closest(nodes: seq<Element>, i: nat, m: Element -> bool): (r: Option<nat>)
    requires i < |nodes|
    decreases i
    ensures r.Some? ==>
      && r.value < i && IsDescendant(nodes, i, r.value) && m(nodes[r.value])
      && forall a: nat :: a < |nodes| && IsDescendant(nodes, i, a) && IsDescendant(nodes, a, r.value) ==> !m(nodes[a])
    ensures r.None? ==> forall a: nat :: a < |nodes| && IsDescendant(nodes, i, a) ==> !m(nodes[a])
  {
    match ParentOf(nodes, i)
    case None => None
    case Some(p) => if m(nodes[p]) then Some(p) else Closest(nodes, p, m)
  }

  /** Node i is matched by a query for `m` in `scope`: the whole document (`None`) or the
      descendants of one node. */
  predicate Matches(nodes: seq<Element>, scope: Option<nat>, m: Element -> bool, i: nat)
    requires i < |nodes|
  {
    m(nodes[i]) && (scope.None? || IsDescendant(nodes, i, scope.value))
  }

  function QueryFrom(nodes: seq<Element>, scope: Option<nat>, m: Element -> bool, from: nat): (r: seq<nat>)
    requires from <= |nodes|
    decreases |nodes| - from
    ensures forall k :: 0 <= k < |r| ==> from <= r[k] < |nodes| && Matches(nodes, scope, m, r[k])
    ensures forall i :: from <= i < |nodes| && Matches(nodes, scope, m, i) ==> i in r
    ensures Increasing(r)
  {
    if from == |nodes| then []
    else (if Matches(nodes, scope, m, from) then [from] else []) + QueryFrom(nodes, scope, m, from + 1)
  }

  /** `querySelectorAll`: every matching node of the scope, each once, in document order. */
  function QueryAll(nodes: seq<Element>, scope: Option<nat>, m: Element -> bool): (r: seq<nat>)
    ensures forall k :: 0 <= k < |r| ==> r[k] < |nodes| && Matches(nodes, scope, m, r[k])
    ensures forall i :: 0 <= i < |nodes| && Matches(nodes, scope, m, i) ==> i in r
    ensures Increasing(r)
  {
    QueryFrom(nodes, scope, m, 0)
  }

  /** In an increasing list, an entry before the first one satisfying `p` does not satisfy it. */
  lemma FirstInOrder(s: seq<nat>, p: nat -> bool, j: nat)
    requires Increasing(s) && Find(s, p).Some?
    requires j in s && j < Find(s, p).value
    ensures !p(j)
  {
    var k :| IsFirst(s, p, k) && Find(s, p).value == s[k];
    var jj :| 0 <= jj < |s| && s[jj] == j;
    assert s[jj] < s[k];
    assert jj < k;
  }

  /** `Array.from(scope.querySelectorAll(m)).find(q)`: the first node of the scope in document
      order that matches `m` and satisfies `q`. */
  function FirstMatch(nodes: seq<Element>, scope: Option<nat>, m: Element -> bool, q: nat -> bool): (r: Option<nat>)
    ensures r.Some? ==>
      && r.value < |nodes| && Matches(nodes, scope, m, r.value) && q(r.value)
      && forall j: nat :: j < r.value && Matches(nodes, scope, m, j) ==> !q(j)
    ensures r.None? ==> forall j: nat :: j < |nodes| && Matches(nodes, scope, m, j) ==> !q(j)
  {
    var candidates := QueryAll(nodes, scope, m);
    var r := Find(candidates, q);
    if r.Some? then
      assert forall j: nat :: j < r.value && Matches(nodes, scope, m, j) ==> !q(j) by {
        forall j: nat | j < r.value && Matches(nodes, scope, m, j) ensures !q(j) {
          FirstInOrder(candidates, q, j);
        }
      }
      r
    else r
  }

  /** The `type` content attribute equals `v` under ASCII case folding, as an attribute
      selector `[type="v"]` compares it in an HTML document. */
  predicate TypeAttrIs(e: Element, v: string) {
    e.typeAttr.Some? && Text.ToLower(e.typeAttr.value) == v
  }

  const InputTypeKeywords: seq<string> := [
    "hidden", "text", "search", "tel", "url", "email", "password", "date", "month", "week",
    "time", "datetime-local", "number", "range", "color", "checkbox", "radio", "file",
    "submit", "image", "reset", "button"]

  predicate IsLowerCase(s: string) {
    forall i :: 0 <= i < |s| ==> !('A' <= s[i] <= 'Z')
  }

  /** The `type` property of a form control: for an input the lower-cased attribute when it is
      a known keyword and "text" otherwise; "select-one" or "select-multiple" for a select;
      "textarea" for a text area; "" for other elements. */
  function TypeOf(e: Element): (r: string)
    ensures IsLowerCase(r)
    ensures e.tag == InputTag ==> r in InputTypeKeywords
  {
    match e.tag
    case InputTag =>
      if e.typeAttr.Some? && Text.ToLower(e.typeAttr.value) in InputTypeKeywords
      then Text.ToLower(e.typeAttr.value) else "text"
    case SelectTag => if e.multiple then "select-multiple" else "select-one"
    case TextAreaTag => "textarea"
    case _ => ""
  }

  /** For an input and a known type other than the default "text", the `type` property and
      the attribute selector agree. (An input without a `type` attribute has type "text" but is
      not matched by `[type="text"]`.) */
  lemma TypeOfInput(e: Element, v: string)
    requires e.tag == InputTag && v in InputTypeKeywords && v != "text"
    ensures TypeOf(e) == v <==> TypeAttrIs(e, v)
  {
  }
}
