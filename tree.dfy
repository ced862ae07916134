/**
 * One language's translation tree: every internal node maps string keys to
 * children, every leaf is a translated string. The editor mutates these trees
 * in place; the model writes each in-place mutation as a function that
 * rebuilds the path from the root down to the changed node.
 */
module Tree {
  import opened Wrappers

  datatype Value = Leaf(text: string) | Group(children: map<string, Value>)

  /** The node reached from `v` by following the keys of `path` in order, or
      None when a key is missing or the walk would have to enter a leaf. */
  function At(v: Value, path: seq<string>): Option<Value>
    decreases |path|
  {
    if path == [] then Some(v)
    else if v.Group? && path[0] in v.children then At(v.children[path[0]], path[1..])
    else None
  }

  /** There is a group (an object, not a string) at `path`. */
  predicate HasGroupAt(v: Value, path: seq<string>)
  {
    At(v, path).Some? && At(v, path).value.Group?
  }

  /** The children of the group at `path`. */
  function GroupAt(v: Value, path: seq<string>): map<string, Value>
    requires HasGroupAt(v, path)
  {
    At(v, path).value.children
  }

  /** The tree `v` with the node at `path` replaced by `w`: what an in-place
      mutation of that node does to the tree that contains it. */
  function ReplaceAt(v: Value, path: seq<string>, w: Value): Value
    requires At(v, path).Some?
    decreases |path|
  {
    if path == [] then w
    else Group(v.children[path[0] := ReplaceAt(v.children[path[0]], path[1..], w)])
  }

  /** `curr[key] = x` on the group at `path`. */
  function SetKey(v: Value, path: seq<string>, key: string, x: Value): (r: Value)
    requires HasGroupAt(v, path)
    ensures HasGroupAt(r, path) && GroupAt(r, path) == GroupAt(v, path)[key := x]
  {
    ReplaceAtBelow(v, path, Group(GroupAt(v, path)[key := x]), []);
    assert path + [] == path;
    ReplaceAt(v, path, Group(GroupAt(v, path)[key := x]))
  }

  /** `delete curr[key]` on the group at `path` (a missing key is a no-op). */
  function DeleteKey(v: Value, path: seq<string>, key: string): (r: Value)
    requires HasGroupAt(v, path)
    ensures HasGroupAt(r, path) && GroupAt(r, path) == GroupAt(v, path) - {key}
  {
    ReplaceAtBelow(v, path, Group(GroupAt(v, path) - {key}), []);
    assert path + [] == path;
    ReplaceAt(v, path, Group(GroupAt(v, path) - {key}))
  }

  /** `if (!_.has(curr, key)) curr[key] = x` on the group at `path`. */
  function Backfill(v: Value, path: seq<string>, key: string, x: Value): (r: Value)
    requires HasGroupAt(v, path)
    ensures HasGroupAt(r, path) && key in GroupAt(r, path)
    ensures forall k :: k in GroupAt(v, path) ==> k in GroupAt(r, path) && GroupAt(r, path)[k] == GroupAt(v, path)[k]
  {
    if key in GroupAt(v, path) then v else SetKey(v, path, key, x)
  }

  /** `isFlat`: every direct child is a string. `_.all` over a string walks its
      characters, each of which is a string, so a leaf is flat as well. */
  predicate IsFlat(v: Value)
  {
    v.Group? ==> forall k :: k in v.children ==> v.children[k].Leaf?
  }

  /** The later classification of a query result: every direct child is itself
      flat, so a group may hold strings and groups of strings. */
  predicate ChildrenFlat(v: Value)
  {
    v.Group? ==> forall k :: k in v.children ==> IsFlat(v.children[k])
  }

  /** Neither path is a prefix of the other: they part at some position. */
  predicate Apart(p: seq<string>, q: seq<string>)
  {
    !(p <= q) && !(q <= p)
  }

  /** `traverseObject`: the loop that walks `curr = curr[key]` along `path`.
      Every key on the path must exist; otherwise the source yields `undefined`
      and every caller throws on it. */
  method TraverseObject(root: Value, path: seq<string>) returns (curr: Value)
    requires At(root, path).Some?
    ensures At(root, path) == Some(curr)
  {
    curr := root;
    for i := 0 to |path|
      invariant At(root, path[..i]) == Some(curr)
    {
      AtAppend(root, path[..i], path[i..]);
      assert path[..i] + path[i..] == path;
      AtAppend(root, path[..i], [path[i]]);
      assert path[..i] + [path[i]] == path[..i + 1];
      curr := curr.children[path[i]];
    }
    assert path[..|path|] == path;
  }

  /** Walking `p` and then `q` is walking `p + q`; in particular the empty path
      gives back the root. */
  lemma {:induction false} AtAppend(v: Value, p: seq<string>, q: seq<string>)
    ensures At(v, p + q) == if At(v, p).Some? then At(At(v, p).value, q) else None
    decreases |p|
  {
    if p == [] {
      assert p + q == q;
    } else {
      assert (p + q)[0] == p[0];
      assert (p + q)[1..] == p[1..] + q;
      if v.Group? && p[0] in v.children {
        AtAppend(v.children[p[0]], p[1..], q);
      }
    }
  }

  /** Below the replaced position the new tree is the replacement. */
  lemma {:induction false} ReplaceAtBelow(v: Value, p: seq<string>, w: Value, r: seq<string>)
    requires At(v, p).Some?
    ensures At(ReplaceAt(v, p, w), p + r) == At(w, r)
    decreases |p|
  {
    if p == [] {
      assert p + r == r;
    } else {
      assert (p + r)[0] == p[0];
      assert (p + r)[1..] == p[1..] + r;
      ReplaceAtBelow(v.children[p[0]], p[1..], w, r);
    }
  }

  /** Away from the replaced position nothing changes. */
  lemma {:induction false} ReplaceAtApart(v: Value, p: seq<string>, w: Value, q: seq<string>)
    requires At(v, p).Some?
    requires Apart(p, q)
    ensures At(ReplaceAt(v, p, w), q) == At(v, q)
    decreases |p|
  {
    assert p != [] && q != [];
    if p[0] == q[0] {
      ReplaceAtApart(v.children[p[0]], p[1..], w, q[1..]);
    }
  }

  /** `curr[key] = x`: the group at `path` gains `key := x` and keeps its other
      keys; every node that is neither on the way to `path` nor under
      `path + [key]` is unchanged. */
  lemma SetKeyEffect(v: Value, path: seq<string>, key: string, x: Value, q: seq<string>)
    requires HasGroupAt(v, path)
    ensures At(SetKey(v, path, key, x), path) == Some(Group(GroupAt(v, path)[key := x]))
    ensures At(SetKey(v, path, key, x), path + [key]) == Some(x)
    ensures !(path + [key] <= q) && !(q <= path) ==> At(SetKey(v, path, key, x), q) == At(v, q)
  {
    var g := Group(GroupAt(v, path)[key := x]);
    ReplaceAtBelow(v, path, g, []);
    assert path + [] == path;
    ReplaceAtBelow(v, path, g, [key]);
    if !(path + [key] <= q) && !(q <= path) {
      OutsideSubtree(v, path, g, key, q);
    }
  }

  /** `delete curr[key]`: the key is gone from the group at `path`, which keeps
      its other keys, and nothing outside that key changes. */
  lemma DeleteKeyEffect(v: Value, path: seq<string>, key: string, q: seq<string>)
    requires HasGroupAt(v, path)
    ensures HasGroupAt(DeleteKey(v, path, key), path)
    ensures GroupAt(DeleteKey(v, path, key), path) == GroupAt(v, path) - {key}
    ensures At(DeleteKey(v, path, key), path + [key]) == None
    ensures !(path + [key] <= q) && !(q <= path) ==> At(DeleteKey(v, path, key), q) == At(v, q)
  {
    var g := Group(GroupAt(v, path) - {key});
    ReplaceAtBelow(v, path, g, []);
    assert path + [] == path;
    ReplaceAtBelow(v, path, g, [key]);
    if !(path + [key] <= q) && !(q <= path) {
      OutsideSubtree(v, path, g, key, q);
    }
  }

  /** Replacing the group at `path` by another that agrees with it on every key
      but `key` leaves every node outside `path + [key]` and off the way to
      `path` as it was. */
  lemma {:induction false} OutsideSubtree(v: Value, path: seq<string>, g: Value, key: string, q: seq<string>)
    requires HasGroupAt(v, path) && g.Group?
    requires forall k :: k != key ==> (k in g.children <==> k in GroupAt(v, path))
    requires forall k :: k != key && k in g.children ==> g.children[k] == GroupAt(v, path)[k]
    requires !(path + [key] <= q) && !(q <= path)
    ensures At(ReplaceAt(v, path, g), q) == At(v, q)
  {
    if Apart(path, q) {
      ReplaceAtApart(v, path, g, q);
    } else {
      assert path <= q && |q| > |path|;
      var r := q[|path|..];
      assert q == path + r;
      ReplaceAtBelow(v, path, g, r);
      AtAppend(v, path, r);
    }
  }

  /** The backfill never overwrites: a language that has the key keeps its tree
      as it was, one that lacks it gets `x`; either way the key is there after. */
  lemma BackfillNeverOverwrites(v: Value, path: seq<string>, key: string, x: Value)
    requires HasGroupAt(v, path)
    ensures key in GroupAt(v, path) ==> Backfill(v, path, key, x) == v
    ensures key !in GroupAt(v, path) ==> At(Backfill(v, path, key, x), path + [key]) == Some(x)
    ensures HasGroupAt(Backfill(v, path, key, x), path)
    ensures GroupAt(Backfill(v, path, key, x), path).Keys == GroupAt(v, path).Keys + {key}
    ensures forall k :: k in GroupAt(v, path) ==> GroupAt(Backfill(v, path, key, x), path)[k] == GroupAt(v, path)[k]
  {
    if key !in GroupAt(v, path) {
      SetKeyEffect(v, path, key, x, path);
    }
  }

  /** Backfilling twice is backfilling once. */
  lemma BackfillIdempotent(v: Value, path: seq<string>, key: string, x: Value)
    requires HasGroupAt(v, path)
    ensures HasGroupAt(Backfill(v, path, key, x), path)
    ensures Backfill(Backfill(v, path, key, x), path, key, x) == Backfill(v, path, key, x)
  {
    BackfillNeverOverwrites(v, path, key, x);
  }

  /** Putting back the node that is already at `path` changes nothing. */
  lemma {:induction false} ReplaceAtSame(v: Value, path: seq<string>)
    requires At(v, path).Some?
    ensures ReplaceAt(v, path, At(v, path).value) == v
    decreases |path|
  {
    if path != [] {
      ReplaceAtSame(v.children[path[0]], path[1..]);
    }
  }

  /** `curr[key] = x` leaves the tree as it was exactly when `key` already
      holds `x` there. */
  lemma SetKeyUnchanged(v: Value, path: seq<string>, key: string, x: Value)
    requires HasGroupAt(v, path)
    ensures SetKey(v, path, key, x) == v <==> key in GroupAt(v, path) && GroupAt(v, path)[key] == x
  {
    var m := GroupAt(v, path);
    if key in m && m[key] == x {
      assert m[key := x] == m;
      ReplaceAtSame(v, path);
    } else {
      SetKeyEffect(v, path, key, x, path);
      assert m[key := x] != m by {
        assert key in m[key := x] && m[key := x][key] == x;
      }
    }
  }

  /** A second replacement at the same position wins over the first. */
  lemma {:induction false} ReplaceAtTwice(v: Value, path: seq<string>, w1: Value, w2: Value)
    requires At(v, path).Some?
    ensures At(ReplaceAt(v, path, w1), path) == Some(w1)
    ensures ReplaceAt(ReplaceAt(v, path, w1), path, w2) == ReplaceAt(v, path, w2)
    decreases |path|
  {
    if path != [] {
      ReplaceAtTwice(v.children[path[0]], path[1..], w1, w2);
    }
  }

  /** Deleting a key that was just stored where it was missing gives back the
      tree: `delete curr[key]` undoes `curr[key] = x`. */
  lemma DeleteUndoesSet(v: Value, path: seq<string>, key: string, x: Value)
    requires HasGroupAt(v, path) && key !in GroupAt(v, path)
    ensures HasGroupAt(SetKey(v, path, key, x), path)
    ensures DeleteKey(SetKey(v, path, key, x), path, key) == v
  {
    var m := GroupAt(v, path);
    ReplaceAtTwice(v, path, Group(m[key := x]), Group(m[key := x] - {key}));
    assert m[key := x] - {key} == m;
    ReplaceAtSame(v, path);
  }

  /** A flat group stays flat when a string is stored under any key, and stops
      being flat as soon as a group is stored under one. */
  lemma IsFlatUnderSetKey(m: map<string, Value>, key: string, x: Value)
    ensures IsFlat(Group(m)) && x.Leaf? ==> IsFlat(Group(m[key := x]))
    ensures x.Group? ==> !IsFlat(Group(m[key := x]))
  {
    if x.Group? {
      assert key in m[key := x] && !m[key := x][key].Leaf?;
    }
  }

  /** The later classification accepts everything the earlier one does, and
      more: a group holding an empty group is flat for one and not the other. */
  lemma FlatClassifications(v: Value)
    ensures IsFlat(v) ==> ChildrenFlat(v)
    ensures ChildrenFlat(Group(map["A" := Group(map[])])) && !IsFlat(Group(map["A" := Group(map[])]))
  {
    var nested := Group(map["A" := Group(map[])]);
    assert "A" in nested.children && !nested.children["A"].Leaf?;
  }
}
