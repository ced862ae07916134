/**
 * Forms: the editable descriptors a query produces, one per returned node and
 * language, and the query library they come from, which is left abstract.
 */
module Forms {
  import opened Wrappers
  import opened Tree
  import opened NodePath

  /** The two versions of the controller classify groups differently. */
  datatype Variant = Dist | Src

  /** One binding: `{lang, label, path, hasInput, isFlat, value}` plus the
      `newValue` input the template writes into it. */
  datatype Form = Form(
    lang: string,
    labelText: string,
    path: seq<string>,
    hasInput: bool,
    isFlat: bool,
    value: Value,
    newValue: Option<string>)

  /** One node returned by `Defiant.node.selectNodes`: the document it lives
      in, its index there, and `Defiant.node.toJSON` of it. */
  datatype Match = Match(doc: seq<XNode>, node: nat, value: Value)

  /** The query library: given a language's queryable copy and an upper-cased
      query, the matching nodes, or None when it throws. */
  type Oracle = (Value, string) -> Option<seq<Match>>

  predicate ValidMatches(ms: seq<Match>)
  {
    forall k :: 0 <= k < |ms| ==> WellFormed(ms[k].doc) && ms[k].node < |ms[k].doc|
  }

  /** What the model assumes of the library: it returns real nodes of
      well-formed documents, where parents and previous siblings come earlier
      in the arena. Path computation terminates because of this. */
  ghost predicate OracleSound(select: Oracle)
  {
    forall doc, q :: select(doc, q).Some? ==> ValidMatches(select(doc, q).value)
  }

  /** `angular.uppercase`, on ASCII letters only. */
  function UpperChar(c: char): char
  {
    if 'a' <= c <= 'z' then (c as int - 32) as char else c
  }

  function Upper(s: string): (r: string)
    ensures |r| == |s|
    ensures forall i :: 0 <= i < |r| ==> !('a' <= r[i] <= 'z')
    ensures forall i :: 0 <= i < |s| && !('a' <= s[i] <= 'z') ==> r[i] == s[i]
    ensures forall i :: 0 <= i < |s| && 'a' <= s[i] <= 'z' ==> r[i] as int == s[i] as int - 32
  {
    seq(|s|, i requires 0 <= i < |s| => UpperChar(s[i]))
  }

  /** The `isFlat` field of a form, for each version of the controller. */
  function FormIsFlat(variant: Variant, v: Value): bool
  {
    match variant
    case Dist => ChildrenFlat(v)
    case Src => IsFlat(v)
  }

  /** The form `findByKey` builds for one returned node. */
  function MakeForm(variant: Variant, lang: string, m: Match): (r: Form)
    requires WellFormed(m.doc) && m.node < |m.doc|
    ensures r.lang == lang && r.value == m.value && r.newValue.None?
    ensures r.labelText == Join(r.path)
    ensures ElementPath(m.doc, m.node) != [] ==> ElementPath(m.doc, m.node) == [ElementPath(m.doc, m.node)[0]] + r.path
    ensures r.hasInput <==> m.value.Leaf?
    ensures IsFlat(m.value) ==> r.isFlat
  {
    FlatClassifications(m.value);
    var path := DropRoot(ElementPath(m.doc, m.node));
    Form(lang, Join(path), path, !m.value.Group?, FormIsFlat(variant, m.value), m.value, None)
  }

  /** `forms` are the forms of `lang` for the nodes `ms`, in order. */
  predicate FormsMatch(variant: Variant, lang: string, forms: seq<Form>, ms: seq<Match>)
  {
    && ValidMatches(ms)
    && |forms| == |ms|
    && forall k :: 0 <= k < |ms| ==> forms[k] == MakeForm(variant, lang, ms[k])
  }

  /** Every form of `lang` belongs to `lang` and is labelled by its path. */
  predicate Tagged(lang: string, forms: seq<Form>)
  {
    forall i :: 0 <= i < |forms| ==> forms[i].lang == lang && forms[i].labelText == Join(forms[i].path)
  }

  /** `_.map(forms, form => form.value = curr)`: every form shows `v`. */
  function Repoint(forms: seq<Form>, v: Value): seq<Form>
  {
    seq(|forms|, i requires 0 <= i < |forms| => forms[i].(value := v))
  }

  /** The same, restricted to the forms labelled `text`. */
  function RepointLabel(forms: seq<Form>, text: string, v: Value): seq<Form>
  {
    seq(|forms|, i requires 0 <= i < |forms| => if forms[i].labelText == text then forms[i].(value := v) else forms[i])
  }

  /** The inner `_.each` of `findByKey`: one form per returned node, in the
      order the library returned them. */
  method BuildForms(variant: Variant, lang: string, ms: seq<Match>) returns (forms: seq<Form>)
    requires ValidMatches(ms)
    ensures FormsMatch(variant, lang, forms, ms)
    ensures Tagged(lang, forms)
  {
    forms := [];
    for k := 0 to |ms|
      invariant |forms| == k
      invariant forall j :: 0 <= j < k ==> forms[j] == MakeForm(variant, lang, ms[j])
    {
      var m := ms[k];
      var nodeVal := m.value;
      var path := GetPathToNode(m.doc, m.node, []);
      assert path == ElementPath(m.doc, m.node);
      path := DropRoot(path);
      var form := Form(lang, Join(path), path, !nodeVal.Group?, FormIsFlat(variant, nodeVal), nodeVal, None);
      forms := forms + [form];
    }
  }

  /** The loop that points every form of a language at `v`. */
  method RefreshAll(forms: seq<Form>, v: Value) returns (r: seq<Form>)
    ensures r == Repoint(forms, v)
  {
    r := forms;
    for i := 0 to |forms|
      invariant |r| == |forms|
      invariant forall j :: 0 <= j < |forms| ==> r[j] == if j < i then forms[j].(value := v) else forms[j]
    {
      r := r[i := r[i].(value := v)];
    }
  }

  /** The loop that points the forms labelled `text` at `v`. */
  method RefreshByLabel(forms: seq<Form>, text: string, v: Value) returns (r: seq<Form>)
    ensures r == RepointLabel(forms, text, v)
  {
    r := forms;
    for i := 0 to |forms|
      invariant |r| == |forms|
      invariant forall j :: 0 <= j < |forms| ==>
        r[j] == if j < i && forms[j].labelText == text then forms[j].(value := v) else forms[j]
    {
      if r[i].labelText == text {
        r := r[i := r[i].(value := v)];
      }
    }
  }

  /** Refreshing by label refreshes exactly the forms of the same node: when
      path segments are separable a label names one path. */
  lemma RepointLabelHitsSamePath(lang: string, forms: seq<Form>, target: seq<string>, v: Value)
    requires Tagged(lang, forms) && Separable(target)
    requires forall i :: 0 <= i < |forms| ==> Separable(forms[i].path)
    ensures forall i :: 0 <= i < |forms| ==>
      RepointLabel(forms, Join(target), v)[i] == if forms[i].path == target then forms[i].(value := v) else forms[i]
  {
    forall i | 0 <= i < |forms|
      ensures RepointLabel(forms, Join(target), v)[i] == if forms[i].path == target then forms[i].(value := v) else forms[i]
    {
      LabelDeterminesPath(forms[i].path, target);
    }
  }

  /** Pointing forms at a value keeps them tagged. */
  lemma RepointKeepsTags(lang: string, forms: seq<Form>, text: string, v: Value)
    requires Tagged(lang, forms)
    ensures Tagged(lang, Repoint(forms, v)) && Tagged(lang, RepointLabel(forms, text, v))
  {
  }
}
