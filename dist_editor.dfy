/**
 * The later controller (dist/angular-translate-editor.js): per-language trees,
 * their queryable copies, the forms of the current query, the error flag and
 * the inputs of the key-insertion panel.
 */
module DistEditor {
  import opened Wrappers
  import opened Tree
  import opened NodePath
  import opened Forms
  import opened Languages

  /** `form.path.slice(0, -1)`. */
  function Parent(path: seq<string>): (r: seq<string>)
    ensures r <= path
    ensures |r| == if path == [] then 0 else |path| - 1
  {
    if path == [] then [] else path[..|path| - 1]
  }

  /** `_.last(form.path)` used as a property key: `undefined` becomes the key
      "undefined". */
  function LastKey(path: seq<string>): (r: string)
    ensures path != [] ==> Parent(path) + [r] == path
    ensures path == [] ==> r == "undefined"
  {
    if path == [] then "undefined" else path[|path| - 1]
  }

  /** What `writeObjectByKey` stores under the new key: `{}` when the editing
      language's "insert as new object" box is ticked, the typed value
      otherwise. */
  function NewEntry(insertObject: bool, newValue: Option<string>): (r: Value)
    requires insertObject || newValue.Some?
    ensures r.Group? <==> insertObject
    ensures r.Group? ==> r.children == map[]
    ensures r.Leaf? ==> r.text == newValue.value
    ensures IsFlat(r)
  {
    if insertObject then Group(map[]) else Leaf(newValue.value)
  }

  class Editor {
    const languages: seq<string>
    const basePath: string
    var translations: map<string, Value>
    /** `vm.xmlDefinitions`: the queryable copy of each language's tree. */
    var xml: map<string, Value>
    /** `vm.bindings[lang].forms`. */
    var bindings: map<string, seq<Form>>
    var insertNewObject: map<string, bool>
    var hasError: bool
    var newKey: Option<string>
    var search: Option<string>

    /** Unique language codes, each with a tree, one queryable copy, one form
        list and one checkbox, and every form tagged with its language and its
        path. */
    ghost predicate Shaped()
      reads this
    {
      Consistent(languages, translations, bindings, xml) && Covers(languages, insertNewObject)
    }

    /** Shaped, and a raised error flag leaves no form on screen. */
    ghost predicate Valid()
      reads this
    {
      Shaped() && (hasError ==> AllEmpty(bindings))
    }

    /** Every queryable copy is the conversion of its language's current tree. */
    ghost predicate Synced()
      reads this
    {
      Mirrors(languages, xml, translations)
    }

    /** The directive's set-up: the host's languages, trees and base path, then
        `init()`. */
    constructor (languages: seq<string>, translations: map<string, Value>, basePath: string, select: Oracle)
      requires Distinct(languages) && HasTrees(languages, translations)
      requires OracleSound(select)
      ensures Valid() && Synced()
      ensures this.languages == languages && this.basePath == basePath && this.translations == translations
      ensures forall l :: l in languages ==> !insertNewObject[l]
      ensures basePath == "" ==>
        search == None && !hasError && newKey == None && AllEmpty(bindings)
      ensures basePath != "" ==>
        search == Some(basePath) && newKey == None &&
        Answered(Dist, select, languages, xml, bindings, hasError, false, basePath)
    {
      this.languages := languages;
      this.basePath := basePath;
      this.translations := translations;
      xml := map[];
      bindings := map[];
      insertNewObject := map[];
      hasError := false;
      newKey := None;
      search := None;
      new;
      Init(select);
    }

    /** `init`: every language gets an unticked "insert as object" box, no
        forms and a fresh queryable copy; a non-empty base path is then put in
        the search box and queried. */
    method Init(select: Oracle)
      requires Distinct(languages) && HasTrees(languages, translations) && OracleSound(select)
      requires forall l :: l in bindings ==> l in languages
      requires forall l :: l in xml ==> l in languages
      requires forall l :: l in insertNewObject ==> l in languages
      modifies this
      ensures Valid() && Synced()
      ensures translations == old(translations)
      ensures forall l :: l in languages ==> !insertNewObject[l]
      ensures basePath == "" ==>
        search == old(search) && hasError == old(hasError) && newKey == old(newKey) && AllEmpty(bindings)
      ensures basePath != "" ==>
        search == Some(basePath) && newKey == None &&
        Answered(Dist, select, languages, xml, bindings, hasError, old(hasError), basePath)
    {
      var ins, b, x := ResetLanguages(languages, translations, insertNewObject, bindings, xml);
      insertNewObject, bindings, xml := ins, b, x;
      if basePath != "" {
        search := Some(basePath);
        FindByKey(basePath, select);
      }
    }

    /** `syncJsonToXML`. */
    method SyncJsonToXml()
      requires Valid()
      modifies this`xml
      ensures Valid() && Synced()
      ensures old(Synced()) ==> xml == old(xml)
    {
      xml := Project(languages, translations, xml);
    }

    /** `clearBindings`. */
    method ClearBindings()
      requires Shaped()
      modifies this`bindings
      ensures Valid() && AllEmpty(bindings)
    {
      bindings := ClearForms(languages, bindings);
    }

    /** `findByKey(query)`: the new-key input is cleared; an empty query clears
        the forms and the error flag; otherwise the upper-cased query is run
        in every language and a throw clears everything and raises the flag. */
    method FindByKey(query: string, select: Oracle)
      requires Valid() && OracleSound(select)
      modifies this`bindings, this`hasError, this`newKey
      ensures Valid()
      ensures newKey == None
      ensures Answered(Dist, select, languages, xml, bindings, hasError, old(hasError), query)
    {
      newKey := None;
      if query == "" {
        hasError := false;
        ClearBindings();
      } else {
        var q := Upper(query);
        var failed;
        bindings, hasError, failed := EvaluateAll(Dist, languages, xml, bindings, hasError, q, select);
        if failed {
          hasError := true;
          ClearBindings();
        }
      }
    }

    /** Stores new trees, forms, queryable copies and new-key input at once.
        Proof scaffolding with no counterpart in the source: it keeps each
        method's field stores in one small obligation. */
    method Commit(t: map<string, Value>, b: map<string, seq<Form>>, x: map<string, Value>, k: Option<string>)
      requires Consistent(languages, t, b, x) && Covers(languages, insertNewObject)
      requires hasError ==> AllEmpty(b)
      modifies this`translations, this`bindings, this`xml, this`newKey
      ensures translations == t && bindings == b && xml == x && newKey == k
      ensures hasError == old(hasError) && search == old(search) && insertNewObject == old(insertNewObject)
      ensures Valid()
    {
      translations, bindings, xml, newKey := t, b, x, k;
    }

    /** `updateObject(translations[lang], form, key, value)` for the form at
        `idx`: the group at the form's path gets `key := value`, the form shows
        the updated group, and every queryable copy is rebuilt. */
    method UpdateObject(lang: string, idx: nat, key: string, value: string)
      requires Valid() && lang in languages && idx < |bindings[lang]|
      requires HasGroupAt(translations[lang], bindings[lang][idx].path)
      modifies this`translations, this`bindings, this`xml, this`newKey
      ensures Valid() && Synced()
      ensures newKey == old(newKey)
      ensures translations == old(translations)[lang :=
        SetKey(old(translations[lang]), old(bindings[lang][idx].path), key, Leaf(value))]
      ensures bindings == old(bindings)[lang := old(bindings[lang])[idx :=
        old(bindings[lang][idx]).(value := Group(GroupAt(old(translations[lang]), old(bindings[lang][idx].path))[key := Leaf(value)]))]]
    {
      var t, b := SetInForm(lang, translations, bindings, idx, key, Leaf(value));
      var x := Project(languages, t, xml);
      Commit(t, b, x, newKey);
    }

    /** `writeObjectByKey(translations[lang], form)` for the form at `idx`:
        the editing language's group at the form's path gets `newKey` set
        (overwriting) to `{}` or to the typed value; every other language whose
        group lacks `newKey` gets the same entry and has all its forms pointed
        at that group; then both inputs are cleared and the copies rebuilt. */
    method WriteObjectByKey(lang: string, idx: nat)
      requires Valid() && lang in languages && idx < |bindings[lang]|
      requires newKey.Some?
      requires insertNewObject[lang] || bindings[lang][idx].newValue.Some?
      requires forall l :: l in languages ==> HasGroupAt(translations[l], bindings[lang][idx].path)
      modifies this`translations, this`bindings, this`xml, this`newKey
      ensures Valid() && Synced()
      ensures newKey == None
      ensures Written(languages, lang, old(translations), old(bindings), idx, old(newKey).value,
                      NewEntry(old(insertNewObject[lang]), old(bindings[lang][idx].newValue)), translations, bindings)
    {
      assert !hasError;
      var d := NewEntry(insertNewObject[lang], bindings[lang][idx].newValue);
      var t, b := WriteEverywhere(languages, lang, translations, bindings, idx, newKey.value, d);
      WriteKeepsForms(languages, lang, translations, bindings, idx, newKey.value, d, t, b);
      var x := Project(languages, t, xml);
      Commit(t, b, x, None);
    }

    /** The tail of `deleteObjectByKey` without a key: the trees become `t`,
        then `delete vm.search; init(); syncJsonToXML()`. */
    method Reload(t: map<string, Value>, select: Oracle)
      requires Valid() && HasTrees(languages, t) && OracleSound(select)
      modifies this
      ensures Valid() && Synced()
      ensures translations == t
      ensures forall l :: l in languages ==> !insertNewObject[l]
      ensures basePath == "" ==>
        search == None && hasError == old(hasError) && newKey == old(newKey) && AllEmpty(bindings)
      ensures basePath != "" ==>
        search == Some(basePath) && newKey == None &&
        Answered(Dist, select, languages, xml, bindings, hasError, old(hasError), basePath)
    {
      translations := t;
      search := None;
      Init(select);
      SyncJsonToXml();
    }

    /** `deleteObjectByKey(form, key)` for the form at `idx`. With a key, the
        key is deleted from the group at the form's path in every language and
        the forms with the same label are pointed at that group. Without one
        (`key == ""`), the form's own node is deleted from its parent in every
        language, the search is dropped and `init()` runs again. Either way the
        copies are rebuilt. */
    method DeleteObjectByKey(lang: string, idx: nat, key: string, select: Oracle)
      requires Valid() && lang in languages && idx < |bindings[lang]| && OracleSound(select)
      requires key != "" ==> forall l :: l in languages ==> HasGroupAt(translations[l], bindings[lang][idx].path)
      requires key == "" ==> forall l :: l in languages ==> HasGroupAt(translations[l], Parent(bindings[lang][idx].path))
      modifies this
      ensures Valid() && Synced()
      ensures key != "" ==>
        && Deleted(languages, old(translations), old(bindings[lang][idx].path), key, translations)
        && Refreshed(languages, old(translations), old(bindings), old(bindings[lang][idx].path), key,
                     Some(old(bindings[lang][idx].labelText)), bindings)
        && hasError == old(hasError) && newKey == old(newKey) && search == old(search)
        && insertNewObject == old(insertNewObject)
      ensures key == "" ==>
        && Deleted(languages, old(translations), Parent(old(bindings[lang][idx].path)),
                   LastKey(old(bindings[lang][idx].path)), translations)
        && forall l :: l in languages ==> !insertNewObject[l]
      ensures key == "" && basePath == "" ==>
        search == None && hasError == old(hasError) && newKey == old(newKey) && AllEmpty(bindings)
      ensures key == "" && basePath != "" ==>
        search == Some(basePath) && newKey == None &&
        Answered(Dist, select, languages, xml, bindings, hasError, old(hasError), basePath)
    {
      if key == "" {
        DeleteNode(lang, idx, select);
      } else {
        DeleteKeyAt(lang, idx, key);
      }
    }

    /** The branch with a key. */
    method DeleteKeyAt(lang: string, idx: nat, key: string)
      requires Valid() && lang in languages && idx < |bindings[lang]|
      requires forall l :: l in languages ==> HasGroupAt(translations[l], bindings[lang][idx].path)
      modifies this`translations, this`bindings, this`xml, this`newKey
      ensures Valid() && Synced()
      ensures Deleted(languages, old(translations), old(bindings[lang][idx].path), key, translations)
      ensures Refreshed(languages, old(translations), old(bindings), old(bindings[lang][idx].path), key,
                        Some(old(bindings[lang][idx].labelText)), bindings)
      ensures hasError == old(hasError) && newKey == old(newKey) && search == old(search)
      ensures insertNewObject == old(insertNewObject)
    {
      var form := bindings[lang][idx];
      var t, b := DeleteEverywhere(languages, translations, bindings, form.path, key, Some(form.labelText));
      DeleteKeepsForms(languages, translations, bindings, form.path, key, Some(form.labelText), t, b);
      var x := Project(languages, t, xml);
      Commit(t, b, x, newKey);
    }

    /** The branch without a key: the form's node goes, then the editor is
        reset. */
    method DeleteNode(lang: string, idx: nat, select: Oracle)
      requires Valid() && lang in languages && idx < |bindings[lang]| && OracleSound(select)
      requires forall l :: l in languages ==> HasGroupAt(translations[l], Parent(bindings[lang][idx].path))
      modifies this
      ensures Valid() && Synced()
      ensures Deleted(languages, old(translations), Parent(old(bindings[lang][idx].path)),
                      LastKey(old(bindings[lang][idx].path)), translations)
      ensures forall l :: l in languages ==> !insertNewObject[l]
      ensures basePath == "" ==>
        search == None && hasError == old(hasError) && newKey == old(newKey) && AllEmpty(bindings)
      ensures basePath != "" ==>
        search == Some(basePath) && newKey == None &&
        Answered(Dist, select, languages, xml, bindings, hasError, old(hasError), basePath)
    {
      var form := bindings[lang][idx];
      var at, k := Parent(form.path), LastKey(form.path);
      var t, b := DeleteEverywhere(languages, translations, bindings, at, k, Some(form.labelText));
      DeleteKeepsForms(languages, translations, bindings, at, k, Some(form.labelText), t, b);
      Reload(t, select);
    }
  }
}
