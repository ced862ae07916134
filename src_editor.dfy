/**
 * The earlier controller (src/angular-translate-editor.js): per-language
 * trees, their queryable copies, the forms of the current query, the error
 * flag and the new-key input. It has no base path, no search box and no
 * "insert as object" boxes; its forms are flat only when every child is a
 * string, its edits of one key leave the queryable copies alone, and its
 * deletion points every form of a language at the changed group.
 */
module SrcEditor {
  import opened Wrappers
  import opened Tree
  import opened NodePath
  import opened Forms
  import opened Languages

  class Editor {
    const languages: seq<string>
    var translations: map<string, Value>
    /** `vm.xmlDefinitions`: the queryable copy of each language's tree. */
    var xml: map<string, Value>
    /** `vm.bindings[lang].forms`. */
    var bindings: map<string, seq<Form>>
    var hasError: bool
    var newKey: Option<string>

    /** Unique language codes, each with a tree, one queryable copy and one
        form list, every form tagged with its language and its path, and a
        raised error flag leaves no form on screen. */
    ghost predicate Valid()
      reads this
    {
      Consistent(languages, translations, bindings, xml) && (hasError ==> AllEmpty(bindings))
    }

    /** Every queryable copy is the conversion of its language's current tree. */
    ghost predicate Synced()
      reads this
    {
      Mirrors(languages, xml, translations)
    }

    /** The directive's set-up: the host's languages and trees, a lowered
        error flag, then `init()`. */
    constructor (languages: seq<string>, translations: map<string, Value>)
      requires Distinct(languages) && HasTrees(languages, translations)
      ensures Valid() && Synced()
      ensures this.languages == languages && this.translations == translations
      ensures !hasError && newKey == None && AllEmpty(bindings)
    {
      this.languages := languages;
      this.translations := translations;
      xml := map[];
      bindings := map[];
      hasError := false;
      newKey := None;
      new;
      Init();
    }

    /** `init`: every language gets no forms and a fresh queryable copy. */
    method Init()
      requires Distinct(languages) && HasTrees(languages, translations)
      requires forall l :: l in bindings ==> l in languages
      requires forall l :: l in xml ==> l in languages
      modifies this`bindings, this`xml
      ensures Valid() && Synced() && AllEmpty(bindings)
    {
      bindings, xml := ResetViews(languages, translations, bindings, xml);
    }

    /** `syncJsonToXML`. */
    method SyncJsonToXml()
      requires Valid()
      modifies this`xml
      ensures Valid() && Synced()
      ensures old(Synced()) ==> xml == old(xml)
    {
      xml := Project(languages, translations, xml);
    }

    /** `clearBindings`. */
    method ClearBindings()
      requires Consistent(languages, translations, bindings, xml)
      modifies this`bindings
      ensures Valid() && AllEmpty(bindings)
    {
      bindings := ClearForms(languages, bindings);
    }

    /** `findByKey(query)`: the new-key input is cleared; an empty query clears
        the forms and the error flag; otherwise the upper-cased query is run
        in every language and a throw clears everything and raises the flag.
        A form is flat when every child of its node is a string. */
    method FindByKey(query: string, select: Oracle)
      requires Valid() && OracleSound(select)
      modifies this`bindings, this`hasError, this`newKey
      ensures Valid()
      ensures newKey == None
      ensures Answered(Src, select, languages, xml, bindings, hasError, old(hasError), query)
    {
      newKey := None;
      if query == "" {
        hasError := false;
        ClearBindings();
      } else {
        var q := Upper(query);
        var failed;
        bindings, hasError, failed := EvaluateAll(Src, languages, xml, bindings, hasError, q, select);
        if failed {
          hasError := true;
          ClearBindings();
        }
      }
    }

    /** Stores new trees, forms, queryable copies and new-key input at once.
        Proof scaffolding with no counterpart in the source: it keeps each
        method's field stores in one small obligation. */
    method Commit(t: map<string, Value>, b: map<string, seq<Form>>, x: map<string, Value>, k: Option<string>)
      requires Consistent(languages, t, b, x)
      requires hasError ==> AllEmpty(b)
      modifies this`translations, this`bindings, this`xml, this`newKey
      ensures translations == t && bindings == b && xml == x && newKey == k
      ensures hasError == old(hasError)
      ensures Valid()
    {
      translations, bindings, xml, newKey := t, b, x, k;
    }

    /** `updateObject(translations[lang], form, key, value)` for the form at
        `idx`: the group at the form's path gets `key := value` and the form
        shows the updated group. The queryable copies are not rebuilt, so a
        synced editor stays synced exactly when the key already held that
        value. */
    method UpdateObject(lang: string, idx: nat, key: string, value: string)
      requires Valid() && lang in languages && idx < |bindings[lang]|
      requires HasGroupAt(translations[lang], bindings[lang][idx].path)
      modifies this`translations, this`bindings
      ensures Valid()
      ensures xml == old(xml)
      ensures translations == old(translations)[lang :=
        SetKey(old(translations[lang]), old(bindings[lang][idx].path), key, Leaf(value))]
      ensures bindings == old(bindings)[lang := old(bindings[lang])[idx :=
        old(bindings[lang][idx]).(value := Group(GroupAt(old(translations[lang]), old(bindings[lang][idx].path))[key := Leaf(value)]))]]
      ensures old(Synced()) ==>
        (Synced() <==> key in GroupAt(old(translations[lang]), old(bindings[lang][idx].path)) &&
                       GroupAt(old(translations[lang]), old(bindings[lang][idx].path))[key] == Leaf(value))
    {
      var path := bindings[lang][idx].path;
      SetKeyUnchanged(translations[lang], path, key, Leaf(value));
      translations, bindings := SetInForm(lang, translations, bindings, idx, key, Leaf(value));
    }

    /** `writeObjectByKey(translations[lang], form)` for the form at `idx`:
        the editing language's group at the form's path gets `newKey` set
        (overwriting) to the typed value; every other language whose group
        lacks `newKey` gets the same value and has all its forms pointed at
        that group; then both inputs are cleared and the copies rebuilt. */
    method WriteObjectByKey(lang: string, idx: nat)
      requires Valid() && lang in languages && idx < |bindings[lang]|
      requires newKey.Some? && bindings[lang][idx].newValue.Some?
      requires forall l :: l in languages ==> HasGroupAt(translations[l], bindings[lang][idx].path)
      modifies this`translations, this`bindings, this`xml, this`newKey
      ensures Valid() && Synced()
      ensures newKey == None && hasError == old(hasError)
      ensures Written(languages, lang, old(translations), old(bindings), idx, old(newKey).value,
                      Leaf(old(bindings[lang][idx].newValue.value)), translations, bindings)
    {
      assert !hasError;
      var d := Leaf(bindings[lang][idx].newValue.value);
      var t, b := WriteEverywhere(languages, lang, translations, bindings, idx, newKey.value, d);
      WriteKeepsForms(languages, lang, translations, bindings, idx, newKey.value, d, t, b);
      var x := Project(languages, t, xml);
      Commit(t, b, x, None);
    }

    /** `deleteObjectByKey(form, key)` for the form at `idx`: the key is
        deleted from the group at the form's path in every language, every
        form of every language is pointed at that language's group, and the
        copies are rebuilt. */
    method DeleteObjectByKey(lang: string, idx: nat, key: string)
      requires Valid() && lang in languages && idx < |bindings[lang]|
      requires forall l :: l in languages ==> HasGroupAt(translations[l], bindings[lang][idx].path)
      modifies this`translations, this`bindings, this`xml, this`newKey
      ensures Valid() && Synced()
      ensures Deleted(languages, old(translations), old(bindings[lang][idx].path), key, translations)
      ensures Refreshed(languages, old(translations), old(bindings), old(bindings[lang][idx].path), key, None, bindings)
      ensures hasError == old(hasError) && newKey == old(newKey)
    {
      var path := bindings[lang][idx].path;
      var t, b := DeleteEverywhere(languages, translations, bindings, path, key, None);
      DeleteKeepsForms(languages, translations, bindings, path, key, None, t, b);
      var x := Project(languages, t, xml);
      Commit(t, b, x, newKey);
    }
  }
}
