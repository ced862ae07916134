# angular-translate-editor: the translation-tree editing engine

The translate editor is an AngularJS directive for editing per-language
translation dictionaries. Each language owns one nested dictionary (a tree
whose internal nodes map string keys to children and whose leaves are
translated strings). The editor keeps three more things per language:

- a queryable XML copy of that tree;
- the "forms" produced by the last XPath query, one per node the query
  returned;
- for the later version only, an "insert as new object" checkbox.

Through these the editor edits the trees in place. It can set one key,
insert a new key and copy it into every language that lacks it, delete a key
or a whole node, and re-run a query.

The repository holds two versions of the controller, and both are modelled:

- `DistEditor.Editor` is `dist/angular-translate-editor.js`. It adds a base
  path that is queried on start-up, deletion of a whole node followed by a
  reset, and the insert-as-object checkbox.
- `SrcEditor.Editor` is `src/angular-translate-editor.js`. It is the earlier
  controller.

Modules:

- `Tree` holds the `Value = Leaf(text) | Group(children)` tree and path
  lookup. It writes each in-place mutation (`curr[key] = x`,
  `delete curr[key]`, "store only if missing") as a pure function that
  rebuilds the path to the changed node, and proves lemmas about these
  functions. It also holds the `traverseObject` loop and the two flatness
  classifications.
- `NodePath` models the XML copy as an arena of nodes. Each node links to its
  parent and its siblings by index. The module holds `getPathToNode` with its
  two sibling loops, the `.slice(1)` that drops the root segment, and the
  `join(".")` label with its inverse `Split`.
- `Forms` holds the form record, the query library as an oracle, the loop
  that builds forms from returned nodes, and the two loops that point forms
  at a changed group.
- `Languages` holds the `_.each(vm.languages, ...)` loops both controllers
  share. Each loop is a method proved against a predicate that states the
  whole new state (`Written`, `Backfilled`, `Deleted`, `Refreshed`,
  `Answered`). The lemmas about those predicates (never overwriting,
  deletion keeping other keys, deletion undoing an insertion) are proved for
  all inputs.
- `DistEditor` and `SrcEditor` each hold one class whose fields are the
  controller's fields. Their methods change those fields and state the new
  state through the `Languages` predicates.

Behaviours of the controllers that a reader might not expect, all modelled
as the code has them:

- **Form flatness.** The earlier controller calls a form flat when every
  direct child of its node is a string (`Forms.FormIsFlat(Src, _)` is
  `Tree.IsFlat`). The later controller computes `_.all(nodeVal, isFlat)`,
  and `isFlat` of a string is true because `_.all` walks the string's
  characters. So a form there is flat when every child is a string or a
  group of strings (`Tree.ChildrenFlat`). `Tree.FlatClassifications` proves
  that the second accepts everything the first does, and shows a group the
  two disagree on.
- **Overwriting in the editing language.** Inserting a key never overwrites
  it in the other languages, but in the editing language the key is always
  overwritten (`Tree.SetKey`, not `Tree.Backfill`).
  `Languages.TreesWritten` states it that way.
- **Forms after a backfill.** When another language receives a backfilled
  key, every form of that language is pointed at the written group,
  whatever node the form shows (`Languages.FormsBackfilled`).
- **Forms after a delete.** The later controller refreshes only the forms
  that share the deleting form's label. The earlier one points every form
  of every language at that language's changed group
  (`SrcEditor.Editor.DeleteObjectByKey`).
- **Deleting a whole node.** The later controller drops the search and runs
  `init` again, and `init` re-queries a non-empty base path
  (`DistEditor.Editor.DeleteObjectByKey`, `key == ""`).
- **Resyncing after an edit.** The earlier `updateObject` does not rebuild
  the queryable copies, so `SrcEditor.Editor.UpdateObject` promises no sync.
  It states exactly when a synced editor stays synced: when the key already
  held the value.

The query library (`Defiant.node.selectNodes`, `Defiant.node.toJSON`,
`JSON.toXML`) is left abstract:

- The queryable copy of a language is recorded as the tree value it was
  converted from.
- A query is an `Oracle`: a function from the copy and the upper-cased query
  to either the list of matched nodes or `None` when the library throws.
  Each matched node comes with its document arena and its `toJSON` value.
- `OracleSound` assumes two things of the library. Every matched node index
  lies inside its document. Every document is well formed: each node's
  parent and previous sibling come earlier in the arena, and its next
  sibling lies inside it. The termination of `getPathToNode` and of its two
  sibling loops rests on this assumption.

JavaScript's aliasing of `form.value = curr` is modelled as a snapshot of the
group taken after the write.

## Model

| member | source | states |
|---|---|---|
| Tree.TraverseObject | dist/angular-translate-editor.js:107-113 | The loop that follows `path` from the root returns exactly the node `At(root, path)`, so the empty path yields the root. It requires every key on the way to exist. Otherwise the source returns `undefined` (or throws, when it looks a key up in `undefined`), and every caller then throws. The earlier controller has the same loop at src/angular-translate-editor.js lines 77-83. |
| Tree.AtAppend | dist/angular-translate-editor.js:109-111 | Following `p` and then `q` is following `p + q`; a missing key on `p` makes the whole walk fail. |
| Tree.SetKey | dist/angular-translate-editor.js:188 | `curr[key] = x` on the group at `path`: the result still has a group there, and that group is the old one with `key := x`. |
| Tree.DeleteKey | dist/angular-translate-editor.js:244 | `delete curr[key]` on the group at `path`: the result still has a group there, and that group is the old one without `key`. |
| Tree.Backfill | dist/angular-translate-editor.js:213-214 | "Store if missing": afterwards the group at `path` has `key`, and every key it had before keeps its value. |
| Tree.ReplaceAtBelow | dist/angular-translate-editor.js:187-188 | After an in-place change of the node at `p`, everything below `p` is read from the new node. |
| Tree.ReplaceAtApart | dist/angular-translate-editor.js:187-188 | An in-place change at `p` leaves every node on a path that parts from `p` as it was. |
| Tree.OutsideSubtree | dist/angular-translate-editor.js:187-188 | Replacing the group at `path` by one that differs only at `key` leaves every node as it was, except those on the way to `path` and those under `path + [key]`. |
| Tree.SetKeyEffect | dist/angular-translate-editor.js:186-190 | `curr[key] = x` gives the group at `path` the entry `key := x` and keeps its other keys. The new node is reachable at `path + [key]`, and every node neither on the way nor under it is unchanged. |
| Tree.SetKeyUnchanged | src/angular-translate-editor.js:134-139 | Storing `x` under `key` leaves the tree unchanged exactly when `key` already held `x` there (both directions). |
| Tree.DeleteKeyEffect | dist/angular-translate-editor.js:242-245 | `delete curr[key]` removes exactly `key` from the group at `path`, which stays a group. Nothing is reachable under `path + [key]` any more, and every other node is unchanged. |
| Tree.DeleteUndoesSet | dist/angular-translate-editor.js:242-245 | Deleting a key that was just stored where it had been missing gives back the original tree. |
| Tree.BackfillNeverOverwrites | dist/angular-translate-editor.js:212-214 | "Store if missing" leaves a tree that already has the key untouched, and puts `x` under the key otherwise. Afterwards the key set is the old one plus the key, and every old entry keeps its value. |
| Tree.BackfillIdempotent | dist/angular-translate-editor.js:212-214 | Backfilling twice is the same as backfilling once. |
| Tree.IsFlat | dist/angular-translate-editor.js:101-105 | `isFlat`: every direct child is a string; a group with no children, and a string (whose characters `_.all` walks), are flat. It has no contract of its own; `Tree.IsFlatUnderSetKey` and `Tree.FlatClassifications` state its properties. |
| Tree.ChildrenFlat | dist/angular-translate-editor.js:294-296 | The later form flatness: every direct child is itself flat in the sense of `isFlat`. It has no contract of its own; `Tree.FlatClassifications` relates it to `Tree.IsFlat`. |
| Tree.IsFlatUnderSetKey | dist/angular-translate-editor.js:101-105 | A flat group stays flat when a string is stored under any key, and stops being flat when a group is stored. |
| Tree.FlatClassifications | dist/angular-translate-editor.js:294-296 | The later form flatness (every child flat) accepts every group the earlier one (every child a string) accepts. A group holding an empty group shows the two differ. |
| NodePath.GetPathToNode | dist/angular-translate-editor.js:115-144 | The result is the accumulator followed by the names of the element nodes from the root down to the node, ending with its own name when it is an element. The sibling loops it runs do not change this. The earlier controller has the same recursion at lines 85-114. |
| NodePath.ElementPath | dist/angular-translate-editor.js:115-144 | The names of the element ancestors, root first: at most one segment per node up to this one, and an element node's path ends with its own name. |
| NodePath.CountPrecedingSameNamed | dist/angular-translate-editor.js:121-128 | The previous-sibling loop terminates. Its count is None exactly when no earlier sibling is an element with the same name, and otherwise one more than the number of such siblings. |
| NodePath.ScanNextSibling | dist/angular-translate-editor.js:129-138 | The next-sibling loop terminates after at least one step, and after at most two when the sibling links agree. |
| NodePath.ElementPathIgnoresSiblings | dist/angular-translate-editor.js:115-144 | Two documents that agree on parents, names and node kinds give every node the same path, whatever their sibling links. |
| NodePath.AncestorPathIsPrefix | dist/angular-translate-editor.js:117-119 | An ancestor comes earlier in the document, and its path is a prefix of its descendant's. |
| NodePath.DropRoot | dist/angular-translate-editor.js:288 | `.slice(1)`: the path minus its root segment; putting the root segment back gives the original path, and an empty path stays empty. |
| NodePath.Join | dist/angular-translate-editor.js:291 | `path.join(".")`: at least one character per separator, the label starts with the first segment, and a separable non-empty path never joins to the empty label. |
| NodePath.SplitJoin | dist/angular-translate-editor.js:288-291 | Splitting `path.join(".")` at its dots gives back the path, when every segment is non-empty and dot-free. |
| NodePath.LabelDeterminesPath | dist/angular-translate-editor.js:291-292 | Two such paths have the same label exactly when they are the same path. |
| NodePath.DottedKeysCollide | dist/angular-translate-editor.js:291 | A key containing a dot has the same label as two separate keys, so labels are ambiguous without that restriction. |
| Forms.BuildForms | dist/angular-translate-editor.js:286-303 | One form per returned node, in the library's order. Each form's path is the node's element path without the root, its label is that path joined by dots, `hasInput` holds exactly for a string, flatness follows the later classification (`FormsMatch(Dist, ...)`), and the form shows the node's value and belongs to its language. In the earlier controller (lines 215-232) flatness is `FormsMatch(Src, ...)`. |
| Forms.Upper | dist/angular-translate-editor.js:282 | `angular.uppercase` on ASCII: same length, every lower-case ASCII letter becomes its capital (32 code points lower), and every other character is kept. |
| Forms.MakeForm | dist/angular-translate-editor.js:287-301 | The form for one returned node: it belongs to the language, shows the node's value with no typed value, is labelled by its path, and its path is the element path without the root segment. It has an input exactly for a string. A group of strings is flat in both controllers (the earlier one computes flatness at src/angular-translate-editor.js lines 223-225). |
| Forms.RefreshAll | dist/angular-translate-editor.js:215-218 | Every form of the language now shows the given group; nothing else in it changes. |
| Forms.RefreshByLabel | dist/angular-translate-editor.js:247-252 | Exactly the forms whose label equals the given label show the given group; the others are unchanged. |
| Forms.RepointLabelHitsSamePath | dist/angular-translate-editor.js:247-252 | With separable path segments, refreshing by label refreshes exactly the forms of the same path. |
| Forms.RepointKeepsTags | dist/angular-translate-editor.js:215-218 | Pointing forms at a group keeps every form's language and label. |
| Languages.ClearForms | dist/angular-translate-editor.js:95-99 | Every active language's form list becomes empty. Other entries are unchanged and the key set is kept. |
| Languages.ResetLanguages | dist/angular-translate-editor.js:73-82 | Every active language gets an unticked checkbox, no forms and a copy equal to its tree. The other entries are kept, and each map then covers exactly the active languages. |
| Languages.ResetViews | src/angular-translate-editor.js:57-62 | Every active language gets no forms and a copy equal to its tree. The other entries are kept. |
| Languages.Project | dist/angular-translate-editor.js:89-93 | Every active language's copy becomes its tree's conversion; the other entries are kept. |
| Languages.EvaluateAll | dist/angular-translate-editor.js:281-305 | The run fails exactly when the library throws for some language. Otherwise every language's forms are the ones built from its returned nodes, and the flag is lowered (kept when there is no language at all). Languages outside the active set keep their forms. |
| Languages.Without | dist/angular-translate-editor.js:211 | `_.without(languages, lang)` holds exactly the active languages other than `lang`, and stays duplicate-free. |
| Languages.BackfillOthers | dist/angular-translate-editor.js:211-221 | Every other language whose group at the path lacks the key gets it, and all its forms show the new group. One that has the key keeps its tree and forms. Nothing else changes. |
| Languages.BackfillOne | dist/angular-translate-editor.js:212-219 | One language of that loop: the tree is backfilled. The forms are pointed at the new group exactly when the key was missing. |
| Languages.SetInForm | dist/angular-translate-editor.js:186-190 | The editing language's group at the form's path gets `key := d`, and that one form shows the updated group. Keys and tags are kept. |
| Languages.WriteEverywhere | dist/angular-translate-editor.js:202-225 | This is the whole write on trees and forms. The editing language gets the key overwritten and its form shows the group with the typed value cleared. Every other language is backfilled as above, and nothing else changes. |
| Languages.WriteKeepsForms | dist/angular-translate-editor.js:202-225 | The write keeps every language's number of forms, their tags, the set of languages with forms and the set with trees. |
| Languages.WrittenNeverOverwrites | dist/angular-translate-editor.js:211-221 | After a write every language's group has the key added and its other entries unchanged, and the editing language holds the new value. Another language that had the key keeps its tree and forms, and one that lacked it holds the new value. |
| Languages.WriteThenDeleteRestores | src/angular-translate-editor.js:146-191 | Writing a key that no language had, then deleting that key at the same path, gives back every tree. |
| Languages.BackfillKeepsForms | dist/angular-translate-editor.js:215-218 | Repointing forms during the backfill keeps their number and tags. |
| Languages.DeleteOne | dist/angular-translate-editor.js:236-252 | One language of the delete loop: the key is deleted from the group at the path. The forms named by the label, or all of them without one, show the group without the key. |
| Languages.DeleteEverywhere | dist/angular-translate-editor.js:235-253 | Every active language loses the key from its group at the path, and its forms are refreshed as in `DeleteOne`; nothing else changes. |
| Languages.DeletedKeepsOthers | dist/angular-translate-editor.js:242-245 | After the delete, every language's group at the path is its old group without the key, and nothing is reachable under the key. Every node off that key's subtree and off the way to the path is unchanged. |
| Languages.DeleteKeepsForms | dist/angular-translate-editor.js:247-252 | The delete keeps every language's number of forms, their tags, the set of languages with forms and the set with trees. |
| DistEditor.Parent | dist/angular-translate-editor.js:238 | `form.path.slice(0, -1)`: a prefix of the path, one segment shorter unless the path is empty. |
| DistEditor.LastKey | dist/angular-translate-editor.js:240 | `_.last(form.path)` as a key: on a non-empty path, the parent followed by it is the path; on the empty path it is the key "undefined". |
| DistEditor.NewEntry | dist/angular-translate-editor.js:205 | What `writeObjectByKey` stores: a group exactly when the editing language's box is ticked, and then the empty one; otherwise the typed string. Either way the entry is flat. |
| DistEditor.Editor.constructor | dist/angular-translate-editor.js:30-87 | The directive's set-up: the host's languages, trees and base path are stored, then `init` runs. The editor is valid and synced with unticked checkboxes. With an empty base path nothing more happens; otherwise the base path is searched. |
| DistEditor.Editor.Init | dist/angular-translate-editor.js:72-87 | `init`: unticked checkboxes, no forms and fresh copies for every language, and the trees unchanged. A non-empty base path is put in the search box and its query's outcome is described by `Answered`. |
| DistEditor.Editor.SyncJsonToXml | dist/angular-translate-editor.js:89-93 | Every copy becomes its tree's conversion. An editor already synced is left as it was. |
| DistEditor.Editor.ClearBindings | dist/angular-translate-editor.js:95-99 | Every language shows no form. |
| DistEditor.Editor.FindByKey | dist/angular-translate-editor.js:275-311 | The new-key input is cleared. An empty query clears every language's forms and the flag. A query that throws in some language clears every language's forms and raises the flag. Otherwise every language holds its built forms and the flag is lowered. |
| DistEditor.Editor.UpdateObject | dist/angular-translate-editor.js:186-194 | Only the editing language's group at the form's path changes, gaining `key := value`. Only that form changes, now showing the updated group. The copies are rebuilt. |
| DistEditor.Editor.WriteObjectByKey | dist/angular-translate-editor.js:201-228 | `Written` holds, with `{}` as the stored value when the editing language's box is ticked and the typed value otherwise. `newKey` is cleared and the copies are rebuilt. |
| DistEditor.Editor.DeleteObjectByKey | dist/angular-translate-editor.js:234-262 | With a key: it is deleted at the form's path in every language, and the forms with the form's label are refreshed. Without one: the form's last segment is deleted from its parent in every language, the search is dropped, `init` runs again, and the copies are rebuilt. |
| DistEditor.Editor.DeleteKeyAt | dist/angular-translate-editor.js:242-261 | The branch with a key: `Deleted` and `Refreshed` by label hold, and the flag, new key, search and checkboxes are unchanged. |
| DistEditor.Editor.DeleteNode | dist/angular-translate-editor.js:237-261 | The branch without a key: the node goes from its parent in every language, then the editor resets as `Reload` describes. |
| DistEditor.Editor.Reload | dist/angular-translate-editor.js:255-261 | `delete vm.search; init(); syncJsonToXML()` with the new trees: unticked boxes and synced copies. With an empty base path there is no search and no form; otherwise the base query's outcome is described by `Answered`. |
| SrcEditor.Editor.constructor | src/angular-translate-editor.js:28-63 | The set-up stores the languages and trees and lowers the flag, then `init` runs. The editor is valid and synced, with no form and no new key. |
| SrcEditor.Editor.Init | src/angular-translate-editor.js:56-63 | `init`: every language has no forms and a fresh copy. |
| SrcEditor.Editor.SyncJsonToXml | src/angular-translate-editor.js:65-69 | Every copy becomes its tree's conversion. An editor already synced is left as it was. |
| SrcEditor.Editor.ClearBindings | src/angular-translate-editor.js:71-75 | Every language shows no form. |
| SrcEditor.Editor.FindByKey | src/angular-translate-editor.js:204-240 | As in the later controller, with a form flat only when every child is a string. |
| SrcEditor.Editor.UpdateObject | src/angular-translate-editor.js:134-139 | Only the editing language's group at the form's path changes, gaining `key := value`, and only that form changes, now showing it. The copies are not touched, so a synced editor stays synced exactly when the key already held that value. |
| SrcEditor.Editor.WriteObjectByKey | src/angular-translate-editor.js:146-173 | `Written` holds with the typed string as the stored value: overwritten in the editing language and backfilled, never overwriting, elsewhere. `newKey` is cleared and the copies are rebuilt. |
| SrcEditor.Editor.DeleteObjectByKey | src/angular-translate-editor.js:179-191 | The key is deleted at the form's path in every language. Every form of every language shows that language's updated group. The copies are rebuilt. |

## Left out

- `updateTranslations` is not modelled. It writes into a live XML node and re-reads the whole tree through the query library, so its effect is defined by that library.
- `JSON.toXML`, `Defiant.node.selectNodes` and `Defiant.node.toJSON` belong to a foreign library. They are abstracted: an `Oracle` parameter, a copy recorded as the tree it came from, and matched nodes that carry their own document arena and value. XPath itself is not modelled.
- `angular.uppercase` is modelled on ASCII letters only (`Forms.Upper`); Unicode case mapping is not modelled.
- The `$scope.$watch` on the language list (which re-runs `init`) is not modelled. The languages are a constant of each editor.
- `collapseAll`, the `tabs` state, the favourites (`isFavourited`, `addFavourite`, which use `window.prompt`), `callbackUpdate`/`callbackRemove` and the directive and template wiring are UI plumbing and are not modelled.
- `form.element` (the live node a form points at) is not modelled, because only `updateTranslations` reads it.
- `queries`, `hasUpdateFn`, `hasRemoveFn` and `showAll` are not modelled, because no modelled operation reads them.
- JavaScript's sharing of one group object between a tree and the forms that show it is not modelled. A form holds a snapshot of the group taken right after the operation. A later in-place change through another path is not reflected in it until the next refresh.
- Every path the controllers walk is required to exist in every language's tree. When a key on the way is missing, `traverseObject` returns `undefined` or throws, and the write or delete that follows throws part-way through a loop, leaving earlier languages already changed. That partial state is not modelled.
- The writes (`updateObject`, `writeObjectByKey`) require a group, not a string, at the form's path in the editing language. Storing a property on a string throws under `'use strict'`, so there this excludes only throwing calls.
- DistEditor.Editor.WriteObjectByKey, SrcEditor.Editor.WriteObjectByKey, Languages.WriteEverywhere and Languages.BackfillOthers: require a group at the form's path in every other language as well. The source also completes a call where another language holds a string there and the new key is `length` or an index of that string: `_.has` finds the key, and that language is skipped. The model excludes these calls. With any other key the store into the string throws.
- DistEditor.Editor.DeleteObjectByKey, DistEditor.Editor.DeleteKeyAt, DistEditor.Editor.DeleteNode, SrcEditor.Editor.DeleteObjectByKey, Languages.DeleteEverywhere and Languages.DeleteOne: require a group at the path in every language. A language that holds a string there is excluded, although the source accepts it: `delete curr[key]` on a string returns true and changes nothing, and that language's forms are then pointed at the string. The exceptions are the key `length` and an index of the string, where strict mode makes the delete throw.
- DistEditor.Editor.WriteObjectByKey: requires a new key, and a typed value unless the box is ticked. The template's disabled-button condition guarantees both, and an `undefined` value could not be stored in the model's trees.
- SrcEditor.Editor.WriteObjectByKey: requires a new key and a typed value. The later template's guard ensures both, the earlier template is not part of this model, and the earlier code would otherwise store `undefined`.
- `NodePath.GetPathToNode` computes the sibling occurrence index and drops it, as the source does. The model does not return it, and so does not say which XPath position the index would denote.
- DistEditor.Editor.DeleteObjectByKey: when the form's path is empty, `_.last` gives `undefined` and the key deleted is the string "undefined" (`DistEditor.LastKey`). `.slice(0, -1)` of an empty path is empty (`DistEditor.Parent`). The model follows both.
