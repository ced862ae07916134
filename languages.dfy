/**
 * The `_.each(vm.languages, ...)` loops the controllers share: clearing every
 * language's forms, rebuilding every queryable copy, running a query in every
 * language, and the two write-backs that visit every language.
 */
module Languages {
  import opened Wrappers
  import opened Tree
  import opened NodePath
  import opened Forms

  /** Language codes are unique within the active language set. */
  predicate Distinct(langs: seq<string>)
  {
    forall i, j :: 0 <= i < j < |langs| ==> langs[i] != langs[j]
  }

  /** `m` has an entry for exactly the active languages. */
  predicate Covers<V>(langs: seq<string>, m: map<string, V>)
  {
    (forall l :: l in m ==> l in langs) && (forall l :: l in langs ==> l in m)
  }

  /** Every active language has a tree. */
  predicate HasTrees(langs: seq<string>, t: map<string, Value>)
  {
    forall l :: l in langs ==> l in t
  }

  /** Every language's forms are tagged with that language. */
  predicate AllTagged(b: map<string, seq<Form>>)
  {
    forall l :: l in b ==> Tagged(l, b[l])
  }

  /** No language shows any form. */
  predicate AllEmpty(b: map<string, seq<Form>>)
  {
    forall l :: l in b ==> b[l] == []
  }

  /** Every active language's queryable copy is the conversion of its tree. */
  predicate Mirrors(langs: seq<string>, x: map<string, Value>, t: map<string, Value>)
  {
    forall l :: l in langs ==> l in x && l in t && x[l] == t[l]
  }

  /** The shape both controllers keep: unique language codes, each with a
      tree, one queryable copy and one form list, and every form tagged with
      its language and labelled by its path. */
  ghost predicate Consistent(langs: seq<string>, t: map<string, Value>, b: map<string, seq<Form>>, x: map<string, Value>)
  {
    Distinct(langs) && HasTrees(langs, t) && Covers(langs, b) && Covers(langs, x) && AllTagged(b)
  }

  /** Some language's query throws. */
  predicate QueryFails(select: Oracle, langs: seq<string>, xml: map<string, Value>, q: string)
    requires forall l :: l in langs ==> l in xml
  {
    exists l :: l in langs && select(xml[l], q).None?
  }

  /** The state `findByKey(query)` leaves behind: an empty query clears every
      language's forms and the error flag; a query that throws in some language
      clears every language's forms and raises the flag; otherwise every
      language holds one form per node the library returned, and the flag is
      lowered (it is lowered inside the per-language loop, so with no language
      at all it keeps its previous value). */
  ghost predicate Answered(variant: Variant, select: Oracle, langs: seq<string>, xml: map<string, Value>,
                           bindings: map<string, seq<Form>>, hasError: bool, prevError: bool, query: string)
  {
    && (forall l :: l in langs ==> l in xml && l in bindings)
    && if query == "" then
         !hasError && forall l :: l in langs ==> bindings[l] == []
       else if QueryFails(select, langs, xml, Upper(query)) then
         hasError && forall l :: l in langs ==> bindings[l] == []
       else
         && hasError == (if langs == [] then prevError else false)
         && forall l :: l in langs ==>
              select(xml[l], Upper(query)).Some? &&
              FormsMatch(variant, l, bindings[l], select(xml[l], Upper(query)).value)
  }

  /** `clearBindings`: every language's forms become empty. */
  method ClearForms(langs: seq<string>, b: map<string, seq<Form>>) returns (r: map<string, seq<Form>>)
    requires forall l :: l in langs ==> l in b
    ensures r.Keys == b.Keys
    ensures forall l :: l in r ==> r[l] == if l in langs then [] else b[l]
    ensures Covers(langs, b) ==> Covers(langs, r) && AllEmpty(r) && AllTagged(r)
  {
    r := b;
    for i := 0 to |langs|
      invariant r.Keys == b.Keys
      invariant forall l :: l in r ==> r[l] == if l in langs[..i] then [] else b[l]
    {
      assert langs[..i + 1] == langs[..i] + [langs[i]];
      r := r[langs[i] := []];
    }
    assert langs[..|langs|] == langs;
  }

  /** The loop of `init`: every language gets an unticked "insert as object"
      box, no forms, and a queryable copy of its tree. */
  method ResetLanguages(langs: seq<string>, t: map<string, Value>, ins: map<string, bool>,
                        b: map<string, seq<Form>>, x: map<string, Value>)
    returns (ins': map<string, bool>, b': map<string, seq<Form>>, x': map<string, Value>)
    requires forall l :: l in langs ==> l in t
    ensures forall l :: l in ins' <==> l in ins || l in langs
    ensures forall l :: l in b' <==> l in b || l in langs
    ensures forall l :: l in x' <==> l in x || l in langs
    ensures forall l :: l in ins' ==> ins'[l] == if l in langs then false else ins[l]
    ensures forall l :: l in b' ==> b'[l] == if l in langs then [] else b[l]
    ensures forall l :: l in x' ==> x'[l] == if l in langs then t[l] else x[l]
    ensures Mirrors(langs, x', t)
    ensures (forall l :: l in ins ==> l in langs) ==> Covers(langs, ins')
    ensures (forall l :: l in x ==> l in langs) ==> Covers(langs, x')
    ensures (forall l :: l in b ==> l in langs) ==> Covers(langs, b') && AllEmpty(b') && AllTagged(b')
  {
    ins', b', x' := ins, b, x;
    for i := 0 to |langs|
      invariant SetUpTo(langs, i, ins, false, ins')
      invariant SetUpTo(langs, i, b, [], b')
      invariant CopiedUpTo(langs, i, t, x, x')
    {
      var l := langs[i];
      SetStep(langs, i, ins, false, ins');
      SetStep(langs, i, b, [], b');
      CopyStep(langs, i, t, x, x');
      ins' := ins'[l := false];
      b' := b'[l := []];
      x' := x'[l := t[l]];
    }
    assert langs[..|langs|] == langs;
  }

  /** The loop of the earlier `init`: every language gets no forms and a
      queryable copy of its tree. */
  method ResetViews(langs: seq<string>, t: map<string, Value>, b: map<string, seq<Form>>, x: map<string, Value>)
    returns (b': map<string, seq<Form>>, x': map<string, Value>)
    requires forall l :: l in langs ==> l in t
    ensures forall l :: l in b' <==> l in b || l in langs
    ensures forall l :: l in x' <==> l in x || l in langs
    ensures forall l :: l in b' ==> b'[l] == if l in langs then [] else b[l]
    ensures forall l :: l in x' ==> x'[l] == if l in langs then t[l] else x[l]
    ensures Mirrors(langs, x', t)
    ensures (forall l :: l in x ==> l in langs) ==> Covers(langs, x')
    ensures (forall l :: l in b ==> l in langs) ==> Covers(langs, b') && AllEmpty(b') && AllTagged(b')
  {
    b', x' := b, x;
    for i := 0 to |langs|
      invariant SetUpTo(langs, i, b, [], b')
      invariant CopiedUpTo(langs, i, t, x, x')
    {
      var l := langs[i];
      SetStep(langs, i, b, [], b');
      CopyStep(langs, i, t, x, x');
      b' := b'[l := []];
      x' := x'[l := t[l]];
    }
    assert langs[..|langs|] == langs;
  }

  /** A map after a loop visiting `langs[..i]` stored `v` under each of them. */
  ghost predicate SetUpTo<V>(langs: seq<string>, i: nat, m: map<string, V>, v: V, m': map<string, V>)
    requires i <= |langs|
  {
    && (forall l :: l in m' <==> l in m || l in langs[..i])
    && (forall l :: l in m' ==> m'[l] == if l in langs[..i] then v else m[l])
  }

  /** The copies after a loop visiting `langs[..i]` refreshed each of them
      from its tree. */
  ghost predicate CopiedUpTo(langs: seq<string>, i: nat, t: map<string, Value>, x: map<string, Value>, x': map<string, Value>)
    requires i <= |langs|
  {
    && (forall l :: l in langs ==> l in t)
    && (forall l :: l in x' <==> l in x || l in langs[..i])
    && (forall l :: l in x' ==> x'[l] == if l in langs[..i] then t[l] else x[l])
  }

  /** One iteration of a loop that stores `v` under each language.
      Proof scaffolding with no counterpart in the source. */
  lemma SetStep<V>(langs: seq<string>, i: nat, m: map<string, V>, v: V, m': map<string, V>)
    requires i < |langs| && SetUpTo(langs, i, m, v, m')
    ensures SetUpTo(langs, i + 1, m, v, m'[langs[i] := v])
  {
    assert langs[..i + 1] == langs[..i] + [langs[i]];
  }

  /** One iteration of a loop that copies each language's tree.
      Proof scaffolding with no counterpart in the source. */
  lemma CopyStep(langs: seq<string>, i: nat, t: map<string, Value>, x: map<string, Value>, x': map<string, Value>)
    requires i < |langs| && CopiedUpTo(langs, i, t, x, x')
    ensures CopiedUpTo(langs, i + 1, t, x, x'[langs[i] := t[langs[i]]])
  {
    assert langs[..i + 1] == langs[..i] + [langs[i]];
  }

  /** `syncJsonToXML`: every language's queryable copy is rebuilt from its
      tree; the copy is modelled as the snapshot it is a conversion of. */
  method Project(langs: seq<string>, t: map<string, Value>, x: map<string, Value>) returns (r: map<string, Value>)
    requires forall l :: l in langs ==> l in t
    ensures forall l :: l in r <==> l in x || l in langs
    ensures forall l :: l in r ==> r[l] == if l in langs then t[l] else x[l]
    ensures Mirrors(langs, r, t)
    ensures Covers(langs, x) ==> Covers(langs, r)
  {
    r := x;
    for i := 0 to |langs|
      invariant forall l :: l in r <==> l in x || l in langs[..i]
      invariant forall l :: l in r ==> r[l] == if l in langs[..i] then t[l] else x[l]
    {
      assert langs[..i + 1] == langs[..i] + [langs[i]];
      r := r[langs[i] := t[langs[i]]];
    }
    assert langs[..|langs|] == langs;
  }

  /** The `try` block of `findByKey`: for each language, empty its forms, run
      the query, build one form per node and lower the error flag. `failed`
      reports that the library threw, at which point the caller clears
      everything. */
  method EvaluateAll(variant: Variant, langs: seq<string>, xml: map<string, Value>, b: map<string, seq<Form>>,
                     err: bool, q: string, select: Oracle)
    returns (r: map<string, seq<Form>>, err': bool, failed: bool)
    requires Distinct(langs) && OracleSound(select)
    requires forall l :: l in langs ==> l in xml && l in b
    requires AllTagged(b)
    ensures r.Keys == b.Keys
    ensures AllTagged(r)
    ensures Covers(langs, b) ==> Covers(langs, r)
    ensures forall l :: l in r && l !in langs ==> r[l] == b[l]
    ensures failed <==> QueryFails(select, langs, xml, q)
    ensures !failed ==> err' == (if langs == [] then err else false)
    ensures !failed ==> forall l :: l in langs ==>
      select(xml[l], q).Some? && FormsMatch(variant, l, r[l], select(xml[l], q).value)
  {
    r, err', failed := b, err, false;
    var i := 0;
    while i < |langs| && !failed
      invariant 0 <= i <= |langs|
      invariant r.Keys == b.Keys
      invariant forall l :: l in r ==> Tagged(l, r[l])
      invariant forall l :: l in r && l !in langs ==> r[l] == b[l]
      invariant forall j :: 0 <= j < i ==>
        select(xml[langs[j]], q).Some? && FormsMatch(variant, langs[j], r[langs[j]], select(xml[langs[j]], q).value)
      invariant !failed ==> err' == (if i == 0 then err else false)
      invariant failed ==> i < |langs| && select(xml[langs[i]], q).None?
      decreases |langs| - i, if failed then 0 else 1
    {
      var l := langs[i];
      r := r[l := []];
      var nodes := select(xml[l], q);
      if nodes.None? {
        failed := true;
      } else {
        var forms := BuildForms(variant, l, nodes.value);
        r := r[l := forms];
        err' := false;
        i := i + 1;
      }
    }
    if !failed {
      forall l | l in langs
        ensures select(xml[l], q).Some? && FormsMatch(variant, l, r[l], select(xml[l], q).value)
      {
        var j :| 0 <= j < |langs| && langs[j] == l;
      }
    }
  }

  /** The loop over `_.without(vm.languages, lang)` of `writeObjectByKey`: in
      every other language, a group at `path` that lacks `key` gets `key := d`
      and then every form of that language is pointed at the updated group; a
      group that has `key` is left alone, and so are its forms. */
  method BackfillOthers(langs: seq<string>, lang: string, t: map<string, Value>, b: map<string, seq<Form>>,
                        path: seq<string>, key: string, d: Value)
    returns (t': map<string, Value>, b': map<string, seq<Form>>)
    requires Distinct(langs)
    requires forall l :: l in langs ==> l in t && l in b
    requires forall l :: l in langs && l != lang ==> HasGroupAt(t[l], path)
    ensures Backfilled(langs, lang, t, b, path, key, d, t', b')
  {
    var others := Without(langs, lang);
    t', b' := t, b;
    for i := 0 to |others|
      invariant TreesFilledUpTo(others, i, t, path, key, d, t')
      invariant FormsFilledUpTo(others, i, t, b, path, key, d, b')
    {
      var l := others[i];
      var tree, forms := BackfillOne(t'[l], b'[l], path, key, d);
      FormsFillStep(others, i, t, b, path, key, d, t', b', forms);
      TreeFillStep(others, i, t, path, key, d, t', tree);
      t', b' := t'[l := tree], b'[l := forms];
    }
    BackfillDone(langs, lang, others, t, b, path, key, d, t', b');
  }

  /** `_.without(langs, lang)`: the languages other than `lang`, in order. */
  function Without(langs: seq<string>, lang: string): (r: seq<string>)
    ensures forall l :: l in r <==> l in langs && l != lang
    ensures Distinct(langs) ==> Distinct(r)
  {
    if langs == [] then []
    else if langs[0] == lang then Without(langs[1..], lang)
    else
      var rest := Without(langs[1..], lang);
      DistinctCons(langs[0], langs[1..], rest);
      assert [langs[0]] + langs[1..] == langs;
      [langs[0]] + rest
  }

  /** A code missing from the rest of a unique list can lead any unique list
      drawn from that rest. */
  lemma DistinctCons(x: string, tail: seq<string>, r: seq<string>)
    requires forall l :: l in r ==> l in tail
    ensures Distinct([x] + tail) ==> Distinct(tail) && x !in tail
    ensures x !in tail && Distinct(r) ==> Distinct([x] + r)
  {
    if Distinct([x] + tail) {
      forall j | 0 <= j < |tail|
        ensures tail[j] != x
      {
        assert ([x] + tail)[0] == x && ([x] + tail)[j + 1] == tail[j];
      }
      forall i, j | 0 <= i < j < |tail|
        ensures tail[i] != tail[j]
      {
        assert ([x] + tail)[i + 1] == tail[i] && ([x] + tail)[j + 1] == tail[j];
      }
    }
  }

  /** Once every other language is visited, every language but `lang` is
      backfilled. Proof scaffolding with no counterpart in the source. */
  lemma BackfillDone(langs: seq<string>, lang: string, others: seq<string>, t: map<string, Value>, b: map<string, seq<Form>>,
                     path: seq<string>, key: string, d: Value, t': map<string, Value>, b': map<string, seq<Form>>)
    requires forall l :: l in others <==> l in langs && l != lang
    requires forall l :: l in langs && l != lang ==> l in t && l in b
    requires TreesFilledUpTo(others, |others|, t, path, key, d, t')
    requires FormsFilledUpTo(others, |others|, t, b, path, key, d, b')
    ensures Backfilled(langs, lang, t, b, path, key, d, t', b')
  {
    assert others[..|others|] == others;
  }

  /** `t'` and `b'` are what the backfill loop makes of `t` and `b`: in every
      active language but `lang`, a group at `path` that lacks `key` gets
      `key := d` and every form of that language shows the new group; a group
      that has `key` is left alone, and so are its forms; nothing else
      changes. */
  ghost predicate Backfilled(langs: seq<string>, lang: string, t: map<string, Value>, b: map<string, seq<Form>>,
                             path: seq<string>, key: string, d: Value, t': map<string, Value>, b': map<string, seq<Form>>)
  {
    TreesBackfilled(langs, lang, t, path, key, d, t') && FormsBackfilled(langs, lang, t, b, path, key, d, b')
  }

  /** The trees part of Backfilled. */
  ghost predicate TreesBackfilled(langs: seq<string>, lang: string, t: map<string, Value>,
                                  path: seq<string>, key: string, d: Value, t': map<string, Value>)
  {
    && (forall l :: l in langs && l != lang ==> l in t && HasGroupAt(t[l], path))
    && t'.Keys == t.Keys
    && (forall l :: l in t ==>
          t'[l] == if l in langs && l != lang then Backfill(t[l], path, key, d) else t[l])
  }

  /** The forms part of Backfilled. */
  ghost predicate FormsBackfilled(langs: seq<string>, lang: string, t: map<string, Value>, b: map<string, seq<Form>>,
                                  path: seq<string>, key: string, d: Value, b': map<string, seq<Form>>)
  {
    && (forall l :: l in langs && l != lang ==> l in t && HasGroupAt(t[l], path))
    && b'.Keys == b.Keys
    && (forall l :: l in b ==>
          b'[l] == if l in langs && l != lang && key !in GroupAt(t[l], path)
                   then Repoint(b[l], Group(GroupAt(t[l], path)[key := d]))
                   else b[l])
  }

  /** The trees of the backfill loop after visiting `others[..i]`: those are
      backfilled and nothing else has changed. */
  ghost predicate TreesFilledUpTo(others: seq<string>, i: nat, t: map<string, Value>,
                                  path: seq<string>, key: string, d: Value, t': map<string, Value>)
    requires i <= |others|
  {
    && (forall l :: l in others ==> l in t && HasGroupAt(t[l], path))
    && t'.Keys == t.Keys
    && (forall l :: l in t ==> t'[l] == if l in others[..i] then Backfill(t[l], path, key, d) else t[l])
  }

  /** The forms of the backfill loop after visiting `others[..i]`. */
  ghost predicate FormsFilledUpTo(others: seq<string>, i: nat, t: map<string, Value>, b: map<string, seq<Form>>,
                                  path: seq<string>, key: string, d: Value, b': map<string, seq<Form>>)
    requires i <= |others|
  {
    && (forall l :: l in others ==> l in t && l in b && HasGroupAt(t[l], path))
    && b'.Keys == b.Keys
    && (forall l :: l in b ==>
          b'[l] == if l in others[..i] && key !in GroupAt(t[l], path)
                   then Repoint(b[l], Group(GroupAt(t[l], path)[key := d]))
                   else b[l])
  }

  /** Visiting the next language backfills its tree. Proof scaffolding with no counterpart in the source. */
  lemma TreeFillStep(others: seq<string>, i: nat, t: map<string, Value>,
                     path: seq<string>, key: string, d: Value, t': map<string, Value>, tree: Value)
    requires Distinct(others) && i < |others|
    requires TreesFilledUpTo(others, i, t, path, key, d, t')
    requires tree == Backfill(t'[others[i]], path, key, d)
    ensures TreesFilledUpTo(others, i + 1, t, path, key, d, t'[others[i] := tree])
  {
    assert others[..i + 1] == others[..i] + [others[i]];
    assert others[i] !in others[..i];
  }

  /** Visiting the next language points its forms at the new group when the
      key was missing. Proof scaffolding with no counterpart in the source. */
  lemma FormsFillStep(others: seq<string>, i: nat, t: map<string, Value>, b: map<string, seq<Form>>,
                      path: seq<string>, key: string, d: Value, t': map<string, Value>, b': map<string, seq<Form>>,
                      forms: seq<Form>)
    requires Distinct(others) && i < |others|
    requires TreesFilledUpTo(others, i, t, path, key, d, t')
    requires FormsFilledUpTo(others, i, t, b, path, key, d, b')
    requires forms == if key !in GroupAt(t'[others[i]], path)
                      then Repoint(b'[others[i]], Group(GroupAt(t'[others[i]], path)[key := d]))
                      else b'[others[i]]
    ensures FormsFilledUpTo(others, i + 1, t, b, path, key, d, b'[others[i] := forms])
  {
    assert others[..i + 1] == others[..i] + [others[i]];
    assert others[i] !in others[..i];
  }

  /** `t'` and `b'` are what `writeObjectByKey` makes of the trees `t` and the
      forms `b` when the form at `idx` of `lang` stores `d` under `key`: that
      language's group gets `key := d` (overwriting); the form shows the new
      group and loses its typed value; every other language whose group lacks
      `key` gets `key := d` and has all its forms pointed at its new group;
      nothing else changes. */
  ghost predicate Written(langs: seq<string>, lang: string, t: map<string, Value>, b: map<string, seq<Form>>,
                          idx: nat, key: string, d: Value, t': map<string, Value>, b': map<string, seq<Form>>)
  {
    TreesWritten(langs, lang, t, b, idx, key, d, t') && FormsWritten(langs, lang, t, b, idx, key, d, b')
  }

  /** The trees part of Written. */
  ghost predicate TreesWritten(langs: seq<string>, lang: string, t: map<string, Value>, b: map<string, seq<Form>>,
                               idx: nat, key: string, d: Value, t': map<string, Value>)
  {
    && lang in langs && lang in b && idx < |b[lang]|
    && (forall l :: l in langs ==> l in t && l in b && HasGroupAt(t[l], b[lang][idx].path))
    && t'.Keys == t.Keys
    && t'[lang] == SetKey(t[lang], b[lang][idx].path, key, d)
    && (forall l :: l in t && l != lang ==>
          t'[l] == if l in langs then Backfill(t[l], b[lang][idx].path, key, d) else t[l])
  }

  /** The forms part of Written. */
  ghost predicate FormsWritten(langs: seq<string>, lang: string, t: map<string, Value>, b: map<string, seq<Form>>,
                               idx: nat, key: string, d: Value, b': map<string, seq<Form>>)
  {
    && lang in langs && lang in b && idx < |b[lang]|
    && (forall l :: l in langs ==> l in t && l in b && HasGroupAt(t[l], b[lang][idx].path))
    && b'.Keys == b.Keys
    && var f := b[lang][idx];
       && b'[lang] == b[lang][idx := f.(value := Group(GroupAt(t[lang], f.path)[key := d]), newValue := None)]
       && (forall l :: l in b && l != lang ==>
            b'[l] == if l in langs && key !in GroupAt(t[l], f.path)
                     then Repoint(b[l], Group(GroupAt(t[l], f.path)[key := d]))
                     else b[l])
  }

  /** After the write every language has `key` in its group at the form's
      path, and the editing language holds `d` there; every other key of every
      group keeps its value; another language that already had `key` keeps
      its tree and its forms, and one that lacked it now holds `d`. */
  lemma WrittenNeverOverwrites(langs: seq<string>, lang: string, t: map<string, Value>, b: map<string, seq<Form>>,
                               idx: nat, key: string, d: Value, t': map<string, Value>, b': map<string, seq<Form>>)
    requires Written(langs, lang, t, b, idx, key, d, t', b')
    ensures forall l :: l in langs ==>
      && HasGroupAt(t'[l], b[lang][idx].path)
      && GroupAt(t'[l], b[lang][idx].path).Keys == GroupAt(t[l], b[lang][idx].path).Keys + {key}
      && (forall k :: k in GroupAt(t[l], b[lang][idx].path) && k != key ==>
            GroupAt(t'[l], b[lang][idx].path)[k] == GroupAt(t[l], b[lang][idx].path)[k])
    ensures At(t'[lang], b[lang][idx].path + [key]) == Some(d)
    ensures forall l :: l in langs && l != lang && key in GroupAt(t[l], b[lang][idx].path) ==>
      t'[l] == t[l] && b'[l] == b[l]
    ensures forall l :: l in langs && l != lang && key !in GroupAt(t[l], b[lang][idx].path) ==>
      At(t'[l], b[lang][idx].path + [key]) == Some(d)
  {
    var path := b[lang][idx].path;
    forall l | l in langs
      ensures HasGroupAt(t'[l], path)
      ensures GroupAt(t'[l], path).Keys == GroupAt(t[l], path).Keys + {key}
      ensures forall k :: k in GroupAt(t[l], path) && k != key ==> GroupAt(t'[l], path)[k] == GroupAt(t[l], path)[k]
    {
      if l == lang {
        SetKeyEffect(t[l], path, key, d, path);
      } else {
        BackfillNeverOverwrites(t[l], path, key, d);
      }
    }
    SetKeyEffect(t[lang], path, key, d, path);
    forall l | l in langs && l != lang
      ensures key !in GroupAt(t[l], path) ==> At(t'[l], path + [key]) == Some(d)
    {
      BackfillNeverOverwrites(t[l], path, key, d);
    }
  }

  /** Inserting a key that no language had, then deleting that key at the
      same place, gives back every tree: the deletion undoes the write. */
  lemma WriteThenDeleteRestores(langs: seq<string>, lang: string, t: map<string, Value>, b: map<string, seq<Form>>,
                                idx: nat, key: string, d: Value, t': map<string, Value>, b': map<string, seq<Form>>)
    requires Written(langs, lang, t, b, idx, key, d, t', b')
    requires forall l :: l in langs ==> key !in GroupAt(t[l], b[lang][idx].path)
    ensures Deleted(langs, t', b[lang][idx].path, key, t)
  {
    var path := b[lang][idx].path;
    forall l | l in langs
      ensures HasGroupAt(t'[l], path) && DeleteKey(t'[l], path, key) == t[l]
    {
      DeleteUndoesSet(t[l], path, key, d);
    }
  }

  /** The body of `writeObjectByKey` on the trees and forms, for the form at
      `idx` of `lang`: its group gets `key := d` (overwriting), the form shows
      that group and loses its typed value, and the other languages are
      backfilled. */
  method WriteEverywhere(langs: seq<string>, lang: string, t: map<string, Value>, b: map<string, seq<Form>>,
                         idx: nat, key: string, d: Value)
    returns (t': map<string, Value>, b': map<string, seq<Form>>)
    requires Distinct(langs) && lang in langs
    requires forall l :: l in langs ==> l in t && l in b
    requires idx < |b[lang]|
    requires forall l :: l in langs ==> HasGroupAt(t[l], b[lang][idx].path)
    ensures Written(langs, lang, t, b, idx, key, d, t', b')
  {
    var form := b[lang][idx];
    var t0, b0 := SetInForm(lang, t, b, idx, key, d);
    var b1: map<string, seq<Form>>;
    t', b1 := BackfillOthers(langs, lang, t0, b0, form.path, key, d);
    b' := b1[lang := b1[lang][idx := b1[lang][idx].(newValue := None)]];
    TreesWrittenFrom(langs, lang, t, b, idx, key, d, t0, t');
    FormsWrittenFrom(langs, lang, t, b, idx, key, d, t0, b0, b1, b');
  }

  /** The editing language's write followed by the backfill, on the trees.
      Proof scaffolding with no counterpart in the source. */
  lemma TreesWrittenFrom(langs: seq<string>, lang: string, t: map<string, Value>, b: map<string, seq<Form>>,
                         idx: nat, key: string, d: Value, t0: map<string, Value>, t1: map<string, Value>)
    requires lang in langs && lang in b && idx < |b[lang]|
    requires forall l :: l in langs ==> l in t && l in b && HasGroupAt(t[l], b[lang][idx].path)
    requires t0 == t[lang := SetKey(t[lang], b[lang][idx].path, key, d)]
    requires TreesBackfilled(langs, lang, t0, b[lang][idx].path, key, d, t1)
    ensures TreesWritten(langs, lang, t, b, idx, key, d, t1)
  {
  }

  /** The same on the forms, followed by clearing the typed value.
      Proof scaffolding with no counterpart in the source. */
  lemma FormsWrittenFrom(langs: seq<string>, lang: string, t: map<string, Value>, b: map<string, seq<Form>>,
                         idx: nat, key: string, d: Value, t0: map<string, Value>, b0: map<string, seq<Form>>,
                         b1: map<string, seq<Form>>, b2: map<string, seq<Form>>)
    requires lang in langs && lang in b && idx < |b[lang]|
    requires forall l :: l in langs ==> l in t && l in b && HasGroupAt(t[l], b[lang][idx].path)
    requires t0 == t[lang := SetKey(t[lang], b[lang][idx].path, key, d)]
    requires b0 == b[lang := b[lang][idx := b[lang][idx].(value := Group(GroupAt(t[lang], b[lang][idx].path)[key := d]))]]
    requires FormsBackfilled(langs, lang, t0, b0, b[lang][idx].path, key, d, b1)
    requires b2 == b1[lang := b1[lang][idx := b1[lang][idx].(newValue := None)]]
    ensures FormsWritten(langs, lang, t, b, idx, key, d, b2)
  {
  }

  /** The write keeps every language's forms: as many as before, still tagged
      with their language and path. */
  lemma WriteKeepsForms(langs: seq<string>, lang: string, t: map<string, Value>, b: map<string, seq<Form>>,
                        idx: nat, key: string, d: Value, t': map<string, Value>, b': map<string, seq<Form>>)
    requires Written(langs, lang, t, b, idx, key, d, t', b')
    ensures forall l :: l in b ==> |b'[l]| == |b[l]| && (Tagged(l, b[l]) ==> Tagged(l, b'[l]))
    ensures AllTagged(b) ==> AllTagged(b')
    ensures Covers(langs, b) ==> Covers(langs, b')
    ensures HasTrees(langs, t) ==> HasTrees(langs, t')
  {
    var path := b[lang][idx].path;
    forall l | l in b
      ensures |b'[l]| == |b[l]| && (Tagged(l, b[l]) ==> Tagged(l, b'[l]))
    {
      if l != lang && l in langs && key !in GroupAt(t[l], path) && Tagged(l, b[l]) {
        RepointKeepsTags(l, b[l], "", Group(GroupAt(t[l], path)[key := d]));
      }
    }
  }

  /** The body of `updateObject`, and the editing language's part of
      `writeObjectByKey`: `curr[key] = d` on the group at the path of the form
      at `idx` of `lang`, then `form.value = curr`. */
  method SetInForm(lang: string, t: map<string, Value>, b: map<string, seq<Form>>, idx: nat, key: string, d: Value)
    returns (t': map<string, Value>, b': map<string, seq<Form>>)
    requires lang in t && lang in b && idx < |b[lang]| && HasGroupAt(t[lang], b[lang][idx].path)
    ensures t' == t[lang := SetKey(t[lang], b[lang][idx].path, key, d)]
    ensures b' == b[lang := b[lang][idx := b[lang][idx].(value := Group(GroupAt(t[lang], b[lang][idx].path)[key := d]))]]
    ensures t'.Keys == t.Keys && b'.Keys == b.Keys
    ensures AllTagged(b) ==> AllTagged(b')
  {
    var form := b[lang][idx];
    var curr := TraverseObject(t[lang], form.path);
    var updated := Group(curr.children[key := d]);
    t' := t[lang := ReplaceAt(t[lang], form.path, updated)];
    b' := b[lang := b[lang][idx := form.(value := updated)]];
  }

  /** The backfill keeps every language's forms: as many as before, still
      tagged with their language and path. */
  lemma BackfillKeepsForms(langs: seq<string>, lang: string, t: map<string, Value>, b: map<string, seq<Form>>,
                           b': map<string, seq<Form>>, path: seq<string>, key: string, d: Value)
    requires forall l :: l in langs && l != lang ==> l in t && HasGroupAt(t[l], path)
    requires b'.Keys == b.Keys
    requires forall l :: l in b ==>
      b'[l] == if l in langs && l != lang && key !in GroupAt(t[l], path)
               then Repoint(b[l], Group(GroupAt(t[l], path)[key := d]))
               else b[l]
    ensures forall l :: l in b ==> |b'[l]| == |b[l]| && (Tagged(l, b[l]) ==> Tagged(l, b'[l]))
  {
    forall l | l in b
      ensures |b'[l]| == |b[l]| && (Tagged(l, b[l]) ==> Tagged(l, b'[l]))
    {
      if l in langs && l != lang && key !in GroupAt(t[l], path) && Tagged(l, b[l]) {
        RepointKeepsTags(l, b[l], "", Group(GroupAt(t[l], path)[key := d]));
      }
    }
  }

  /** One language of the backfill loop: `curr = traverseObject(...)`; when
      `!_.has(curr, key)`, `curr[key] = d` and every form is pointed at `curr`. */
  method BackfillOne(tree: Value, forms: seq<Form>, path: seq<string>, key: string, d: Value)
    returns (tree': Value, forms': seq<Form>)
    requires HasGroupAt(tree, path)
    ensures tree' == Backfill(tree, path, key, d)
    ensures forms' == if key !in GroupAt(tree, path) then Repoint(forms, Group(GroupAt(tree, path)[key := d])) else forms
  {
    tree', forms' := tree, forms;
    var curr := TraverseObject(tree, path);
    if key !in curr.children {
      var updated := Group(curr.children[key := d]);
      tree' := ReplaceAt(tree, path, updated);
      forms' := RefreshAll(forms, updated);
    }
  }

  /** `t'` is what the loop of `deleteObjectByKey` makes of the trees `t`:
      every active language's group at `at` loses `key`; nothing else changes. */
  ghost predicate Deleted(langs: seq<string>, t: map<string, Value>, at: seq<string>, key: string,
                          t': map<string, Value>)
  {
    && (forall l :: l in langs ==> l in t && HasGroupAt(t[l], at))
    && t'.Keys == t.Keys
    && forall l :: l in t ==> t'[l] == if l in langs then DeleteKey(t[l], at, key) else t[l]
  }

  /** `b'` is what the same loop makes of the forms `b`: in every active
      language, the forms labelled `only` (all of them when `only` is None)
      show that language's group at `at` without `key`; nothing else changes. */
  ghost predicate Refreshed(langs: seq<string>, t: map<string, Value>, b: map<string, seq<Form>>,
                            at: seq<string>, key: string, only: Option<string>, b': map<string, seq<Form>>)
  {
    && (forall l :: l in langs ==> l in t && HasGroupAt(t[l], at))
    && b'.Keys == b.Keys
    && forall l :: l in b ==>
         b'[l] == if l in langs then Pointed(b[l], only, Group(GroupAt(t[l], at) - {key})) else b[l]
  }

  /** After the deletion every active language's group at `at` has lost
      `key` and kept its other keys, and every node neither under
      `at + [key]` nor on the way to `at` is as it was. */
  lemma DeletedKeepsOthers(langs: seq<string>, t: map<string, Value>, at: seq<string>, key: string,
                           t': map<string, Value>)
    requires Deleted(langs, t, at, key, t')
    ensures forall l :: l in langs ==>
      HasGroupAt(t'[l], at) && GroupAt(t'[l], at) == GroupAt(t[l], at) - {key} && At(t'[l], at + [key]) == None
    ensures forall l, q :: l in langs && !(at + [key] <= q) && !(q <= at) ==> At(t'[l], q) == At(t[l], q)
  {
    forall l, q | l in langs
      ensures HasGroupAt(t'[l], at) && GroupAt(t'[l], at) == GroupAt(t[l], at) - {key} && At(t'[l], at + [key]) == None
      ensures !(at + [key] <= q) && !(q <= at) ==> At(t'[l], q) == At(t[l], q)
    {
      DeleteKeyEffect(t[l], at, key, q);
    }
  }

  /** The forms labelled `only`, or all of them when `only` is None, show `g`. */
  function Pointed(forms: seq<Form>, only: Option<string>, g: Value): seq<Form>
  {
    if only.Some? then RepointLabel(forms, only.value, g) else Repoint(forms, g)
  }

  /** One language of the loop of `deleteObjectByKey`. */
  method DeleteOne(tree: Value, forms: seq<Form>, at: seq<string>, key: string, only: Option<string>)
    returns (tree': Value, forms': seq<Form>)
    requires HasGroupAt(tree, at)
    ensures tree' == DeleteKey(tree, at, key)
    ensures forms' == Pointed(forms, only, Group(GroupAt(tree, at) - {key}))
  {
    var curr := TraverseObject(tree, at);
    var updated := Group(curr.children - {key});
    tree' := ReplaceAt(tree, at, updated);
    if only.Some? {
      forms' := RefreshByLabel(forms, only.value, updated);
    } else {
      forms' := RefreshAll(forms, updated);
    }
  }

  /** The loop of `deleteObjectByKey`: in every language, `delete curr[key]` on
      the group at `at`; then the forms of that language are pointed at the
      updated group: those labelled `only`, or all of them when `only` is None. */
  method DeleteEverywhere(langs: seq<string>, t: map<string, Value>, b: map<string, seq<Form>>,
                          at: seq<string>, key: string, only: Option<string>)
    returns (t': map<string, Value>, b': map<string, seq<Form>>)
    requires Distinct(langs)
    requires forall l :: l in langs ==> l in t && l in b && HasGroupAt(t[l], at)
    ensures Deleted(langs, t, at, key, t')
    ensures Refreshed(langs, t, b, at, key, only, b')
  {
    t', b' := t, b;
    for i := 0 to |langs|
      invariant DeletedUpTo(langs, i, t, b, at, key, only, t', b')
    {
      var l := langs[i];
      var tree, forms := DeleteOne(t'[l], b'[l], at, key, only);
      DeleteStep(langs, i, t, b, at, key, only, t', b', tree, forms);
      t', b' := t'[l := tree], b'[l := forms];
    }
    assert langs[..|langs|] == langs;
  }

  /** The deletion loop after visiting `langs[..i]`. */
  ghost predicate DeletedUpTo(langs: seq<string>, i: nat, t: map<string, Value>, b: map<string, seq<Form>>,
                              at: seq<string>, key: string, only: Option<string>,
                              t': map<string, Value>, b': map<string, seq<Form>>)
    requires i <= |langs|
  {
    && (forall l :: l in langs ==> l in t && l in b && HasGroupAt(t[l], at))
    && t'.Keys == t.Keys && b'.Keys == b.Keys
    && (forall l :: l in t ==> t'[l] == if l in langs[..i] then DeleteKey(t[l], at, key) else t[l])
    && (forall l :: l in b ==>
          b'[l] == if l in langs[..i] then Pointed(b[l], only, Group(GroupAt(t[l], at) - {key})) else b[l])
  }

  /** Visiting the next language deletes the key there. Proof scaffolding with no counterpart in the source. */
  lemma DeleteStep(langs: seq<string>, i: nat, t: map<string, Value>, b: map<string, seq<Form>>,
                   at: seq<string>, key: string, only: Option<string>,
                   t': map<string, Value>, b': map<string, seq<Form>>, tree: Value, forms: seq<Form>)
    requires Distinct(langs) && i < |langs|
    requires DeletedUpTo(langs, i, t, b, at, key, only, t', b')
    requires tree == DeleteKey(t'[langs[i]], at, key)
    requires forms == Pointed(b'[langs[i]], only, Group(GroupAt(t'[langs[i]], at) - {key}))
    ensures DeletedUpTo(langs, i + 1, t, b, at, key, only, t'[langs[i] := tree], b'[langs[i] := forms])
  {
    assert langs[..i + 1] == langs[..i] + [langs[i]];
    assert langs[i] !in langs[..i];
  }

  /** The deletion keeps every language's forms: as many as before, still
      tagged with their language and path; and every language keeps its tree. */
  lemma DeleteKeepsForms(langs: seq<string>, t: map<string, Value>, b: map<string, seq<Form>>,
                         at: seq<string>, key: string, only: Option<string>,
                         t': map<string, Value>, b': map<string, seq<Form>>)
    requires Deleted(langs, t, at, key, t') && Refreshed(langs, t, b, at, key, only, b')
    ensures forall l :: l in b ==> |b'[l]| == |b[l]| && (Tagged(l, b[l]) ==> Tagged(l, b'[l]))
    ensures AllTagged(b) ==> AllTagged(b')
    ensures Covers(langs, b) ==> Covers(langs, b')
    ensures HasTrees(langs, t) ==> HasTrees(langs, t')
  {
    forall l | l in b
      ensures |b'[l]| == |b[l]| && (Tagged(l, b[l]) ==> Tagged(l, b'[l]))
    {
      if l in langs && Tagged(l, b[l]) {
        RepointKeepsTags(l, b[l], if only.Some? then only.value else "", Group(GroupAt(t[l], at) - {key}));
      }
    }
  }
}
