/**
 * Canonical paths of nodes in the queryable (XML) copy of a tree. The document
 * is an arena of nodes in document order: each node refers to its parent and
 * its previous and next siblings by index, and a parent or a previous sibling
 * always comes earlier than the node itself.
 */
module NodePath {
  import opened Wrappers

  /** One node of the queryable copy; `isElement` is `nodeType == 1`. */
  datatype XNode = XNode(parent: Option<nat>, previous: Option<nat>, next: Option<nat>, name: string, isElement: bool)

  /** Every link of the arena points inside it, parents and previous siblings
      backwards. */
  predicate WellFormed(doc: seq<XNode>)
  {
    forall i :: 0 <= i < |doc| ==>
      && (doc[i].parent.Some? ==> doc[i].parent.value < i)
      && (doc[i].previous.Some? ==> doc[i].previous.value < i)
      && (doc[i].next.Some? ==> doc[i].next.value < |doc|)
  }

  /** The sibling links agree: the previous sibling of a node's next sibling is
      the node itself, as in any document. */
  predicate SiblingsLinked(doc: seq<XNode>)
  {
    forall i :: 0 <= i < |doc| && doc[i].next.Some? ==>
      doc[i].next.value < |doc| && doc[doc[i].next.value].previous == Some(i)
  }

  /** The names of the element nodes from the root down to `i`, root first,
      ending with the name of `i` when `i` is an element. */
  function ElementPath(doc: seq<XNode>, i: nat): (r: seq<string>)
    requires WellFormed(doc) && i < |doc|
    ensures |r| <= i + 1
    ensures doc[i].isElement ==> r != [] && r[|r| - 1] == doc[i].name
    decreases i
  {
    (if doc[i].parent.Some? then ElementPath(doc, doc[i].parent.value) else [])
      + (if doc[i].isElement then [doc[i].name] else [])
  }

  /** `a` is a proper ancestor of `i`: it is reached by following parent links. */
  predicate IsAncestor(doc: seq<XNode>, a: nat, i: nat)
    requires WellFormed(doc) && i < |doc|
    decreases i
  {
    doc[i].parent.Some? && (doc[i].parent.value == a || IsAncestor(doc, a, doc[i].parent.value))
  }

  /** The number of element siblings named `name` on the previous-sibling chain
      that starts at `from` (inclusive). */
  function SameNamedFrom(doc: seq<XNode>, from: Option<nat>, name: string): nat
    requires WellFormed(doc) && (from.Some? ==> from.value < |doc|)
    decreases if from.Some? then from.value + 1 else 0
  {
    if from.None? then 0
    else
      var s := doc[from.value];
      (if s.isElement && s.name == name then 1 else 0) + SameNamedFrom(doc, s.previous, name)
  }

  /** `getPathToNode(node, path)`: recurse to the parent first, then count the
      same-named previous siblings (or scan the next sibling), then push the
      node's own name when it is an element. The count is computed and then
      dropped, as in the source, so the result is the element path alone. */
  method GetPathToNode(doc: seq<XNode>, node: nat, path: seq<string>) returns (r: seq<string>)
    requires WellFormed(doc) && node < |doc|
    ensures r == path + ElementPath(doc, node)
    decreases node
  {
    r := path;
    if doc[node].parent.Some? {
      r := GetPathToNode(doc, doc[node].parent.value, r);
    }
    if doc[node].previous.Some? {
      var count := CountPrecedingSameNamed(doc, node);
    } else if doc[node].next.Some? {
      var steps := ScanNextSibling(doc, node);
    }
    if doc[node].isElement {
      r := r + [doc[node].name];
    }
  }

  /** The do-while loop over previous siblings: the 1-based occurrence index of
      the node among same-named element siblings, None when it is the first. */
  method CountPrecedingSameNamed(doc: seq<XNode>, node: nat) returns (count: Option<nat>)
    requires WellFormed(doc) && node < |doc| && doc[node].previous.Some?
    ensures count.None? <==> SameNamedFrom(doc, doc[node].previous, doc[node].name) == 0
    ensures count.Some? ==> count.value == 1 + SameNamedFrom(doc, doc[node].previous, doc[node].name)
  {
    var name := doc[node].name;
    var c := 1;
    var sibling: Option<nat> := doc[node].previous;
    while sibling.Some?
      invariant sibling.Some? ==> sibling.value < |doc|
      invariant c + SameNamedFrom(doc, sibling, name) == 1 + SameNamedFrom(doc, doc[node].previous, name)
      decreases if sibling.Some? then sibling.value + 1 else 0
    {
      var s := doc[sibling.value];
      if s.isElement && s.name == name {
        c := c + 1;
      }
      sibling := s.previous;
    }
    count := if c == 1 then None else Some(c);
  }

  /** The do-while loop of the `nextSibling` branch. It steps from the next
      sibling back along previous siblings until it meets an element with the
      node's name. In a document whose sibling links agree it stops after at
      most two steps: the next sibling, then the node itself. */
  method ScanNextSibling(doc: seq<XNode>, node: nat) returns (steps: nat)
    requires WellFormed(doc) && node < |doc|
    requires doc[node].previous.None? && doc[node].next.Some?
    ensures steps >= 1
    ensures SiblingsLinked(doc) ==> steps <= 2
  {
    var name := doc[node].name;
    var sibling: Option<nat> := doc[node].next;
    steps := 0;
    while sibling.Some?
      invariant sibling.Some? ==> sibling.value < |doc|
      invariant steps == 0 ==> sibling == doc[node].next
      invariant SiblingsLinked(doc) ==> steps <= 2
      invariant SiblingsLinked(doc) && steps == 1 ==> sibling.None? || sibling == Some(node)
      invariant SiblingsLinked(doc) && steps == 2 ==> sibling.None?
      decreases if sibling.Some? then sibling.value + 1 else 0
    {
      var s := doc[sibling.value];
      if s.isElement && s.name == name {
        sibling := None;
      } else {
        sibling := s.previous;
      }
      steps := steps + 1;
    }
  }

  /** The sibling links never change a path: two arenas that agree on parents,
      names and node kinds give every node the same element path. */
  lemma {:induction false} ElementPathIgnoresSiblings(d1: seq<XNode>, d2: seq<XNode>, i: nat)
    requires WellFormed(d1) && WellFormed(d2) && |d1| == |d2| && i < |d1|
    requires forall j :: 0 <= j < |d1| ==>
      d1[j].parent == d2[j].parent && d1[j].name == d2[j].name && d1[j].isElement == d2[j].isElement
    ensures ElementPath(d1, i) == ElementPath(d2, i)
    decreases i
  {
    if d1[i].parent.Some? {
      ElementPathIgnoresSiblings(d1, d2, d1[i].parent.value);
    }
  }

  /** Paths run root first: an ancestor's path is a prefix of its
      descendant's. */
  lemma {:induction false} AncestorPathIsPrefix(doc: seq<XNode>, a: nat, i: nat)
    requires WellFormed(doc) && i < |doc| && IsAncestor(doc, a, i)
    ensures a < i
    ensures ElementPath(doc, a) <= ElementPath(doc, i)
    decreases i
  {
    var p := doc[i].parent.value;
    if p != a {
      AncestorPathIsPrefix(doc, a, p);
    }
    var own := if doc[i].isElement then [doc[i].name] else [];
    assert ElementPath(doc, i) == ElementPath(doc, p) + own;
  }

  /** `.slice(1)`: drop the root element's segment (an empty path stays empty). */
  function DropRoot(p: seq<string>): (r: seq<string>)
    ensures p == [] ==> r == []
    ensures p != [] ==> [p[0]] + r == p
  {
    if p == [] then [] else p[1..]
  }

  /** `path.join(".")`. */
  function Join(p: seq<string>): (r: string)
    ensures |r| >= |p| - 1
    ensures p != [] ==> p[0] <= r
    ensures p != [] && Separable(p) ==> r != ""
  {
    if p == [] then ""
    else if |p| == 1 then p[0]
    else p[0] + "." + Join(p[1..])
  }

  predicate DotFree(s: string)
  {
    forall i :: 0 <= i < |s| ==> s[i] != '.'
  }

  /** Segments that can be told apart once joined: non-empty and without dots
      (element names are never empty). */
  predicate Separable(p: seq<string>)
  {
    forall i :: 0 <= i < |p| ==> p[i] != "" && DotFree(p[i])
  }

  /** Splitting a label at its dots: the inverse of Join on separable paths. */
  function Split(s: string): seq<string>
  {
    if s == "" then [] else Segments(s)
  }

  function Segments(s: string): (r: seq<string>)
    ensures |r| >= 1
  {
    if s == "" then [""]
    else if s[0] == '.' then [""] + Segments(s[1..])
    else var rest := Segments(s[1..]); [[s[0]] + rest[0]] + rest[1..]
  }

  lemma {:induction false} SegmentsOfDotFree(x: string, y: string)
    requires DotFree(x)
    ensures Segments(x + "." + y) == [x] + Segments(y)
    ensures Segments(x) == [x]
  {
    if x == "" {
      assert x + "." + y == "." + y;
      assert ("." + y)[1..] == y;
    } else {
      assert (x + "." + y)[0] == x[0];
      assert (x + "." + y)[1..] == x[1..] + "." + y;
      assert DotFree(x[1..]);
      SegmentsOfDotFree(x[1..], y);
      assert [x[0]] + x[1..] == x;
    }
  }

  /** Split(Join(p)) == p: the label determines the path. */
  lemma {:induction false} SplitJoin(p: seq<string>)
    requires Separable(p)
    ensures Split(Join(p)) == p
  {
    if p == [] {
    } else if |p| == 1 {
      SegmentsOfDotFree(p[0], "");
    } else {
      assert Separable(p[1..]);
      SplitJoin(p[1..]);
      SegmentsOfDotFree(p[0], Join(p[1..]));
      assert Separable(p[1..]);
      assert [p[0]] + p[1..] == p;
    }
  }

  /** Two separable paths share a label exactly when they are the same path. */
  lemma LabelDeterminesPath(p: seq<string>, q: seq<string>)
    requires Separable(p) && Separable(q)
    ensures Join(p) == Join(q) <==> p == q
  {
    if Join(p) == Join(q) {
      SplitJoin(p);
      SplitJoin(q);
    }
  }

  /** Without separable names the label is ambiguous: a key holding a dot
      joins to the same label as the two keys on either side of it. */
  lemma DottedKeysCollide()
    ensures Join(["A.B"]) == Join(["A", "B"])
  {
    assert Join(["B"]) == "B";
    assert Join(["A", "B"]) == "A" + "." + "B";
  }
}
