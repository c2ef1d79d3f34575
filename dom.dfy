/**
 * The part of the XML DOM the reconciler relies on, as values: element
 * trees addressed by paths of child indices, document-order selection (the
 * two XPath queries the reconciler issues), and the two tree edits it makes
 * (`replaceChild`, and the removal implied when `appendChild` moves a node).
 *
 * A document is the sequence of its top-level nodes.
 */
module Dom {
  import opened Wrappers

  const SvgNamespace: string := "http://www.w3.org/2000/svg"

  /** A namespace-qualified tag name; `ns` is None for an element created without a namespace. */
  datatype Name = Name(ns: Option<string>, local: string)

  datatype Node =
    | Element(name: Name, attrs: map<string, string>, children: seq<Node>)
    | CharData(data: string)

  /** Child indices from the top level down; `[i]` is the `i`-th top-level node. */
  type Path = seq<nat>

  // ---------------------------------------------------------------------
  // Addressing nodes

  predicate ValidPath(f: seq<Node>, p: Path)
    decreases |p|
  {
    |p| > 0 && p[0] < |f| &&
    (|p| > 1 ==> f[p[0]].Element? && ValidPath(f[p[0]].children, p[1..]))
  }

  function NodeAt(f: seq<Node>, p: Path): Node
    requires ValidPath(f, p)
    decreases |p|
  {
    if |p| == 1 then f[p[0]] else NodeAt(f[p[0]].children, p[1..])
  }

  /** The forest with the node at `p` replaced by `n`; an invalid path changes nothing. */
  function ReplaceAt(f: seq<Node>, p: Path, n: Node): (r: seq<Node>)
    ensures |r| == |f|
    decreases |p|
  {
    if !ValidPath(f, p) then f
    else if |p| == 1 then f[p[0] := n]
    else
      var e := f[p[0]];
      f[p[0] := Element(e.name, e.attrs, ReplaceAt(e.children, p[1..], n))]
  }

  /** The forest with the node at `p`, and its subtree, taken out; an invalid path changes nothing. */
  function RemoveAt(f: seq<Node>, p: Path): (r: seq<Node>)
    ensures |r| == |f| - (if ValidPath(f, p) && |p| == 1 then 1 else 0)
    decreases |p|
  {
    if !ValidPath(f, p) then f
    else if |p| == 1 then f[..p[0]] + f[p[0] + 1..]
    else
      var e := f[p[0]];
      f[p[0] := Element(e.name, e.attrs, RemoveAt(e.children, p[1..]))]
  }

  predicate IsPrefix(a: Path, b: Path) {
    |a| <= |b| && b[..|a|] == a
  }

  predicate IsProperPrefix(a: Path, b: Path) {
    |a| < |b| && b[..|a|] == a
  }

  /** Neither path leads into the subtree of the other. */
  predicate Disjoint(a: Path, b: Path)
    decreases |a|
  {
    |a| > 0 && |b| > 0 && (a[0] != b[0] || Disjoint(a[1..], b[1..]))
  }

  /** Document order: an ancestor comes before its descendants, and a subtree before later siblings. */
  predicate Before(a: Path, b: Path)
    decreases |a|
  {
    |b| > 0 && (|a| == 0 || a[0] < b[0] || (a[0] == b[0] && Before(a[1..], b[1..])))
  }

  lemma {:induction false} ReplaceAtSelf(f: seq<Node>, p: Path, n: Node)
    requires ValidPath(f, p)
    ensures ValidPath(ReplaceAt(f, p, n), p) && NodeAt(ReplaceAt(f, p, n), p) == n
    decreases |p|
  {
    if |p| > 1 {
      ReplaceAtSelf(f[p[0]].children, p[1..], n);
    }
  }

  /** Replacing a node leaves every node outside its subtree, and off its ancestor line, where it was. */
  lemma {:induction false} ReplaceAtDisjoint(f: seq<Node>, p: Path, q: Path, n: Node)
    requires ValidPath(f, p) && ValidPath(f, q) && Disjoint(p, q)
    ensures ValidPath(ReplaceAt(f, p, n), q) && NodeAt(ReplaceAt(f, p, n), q) == NodeAt(f, q)
    decreases |p|
  {
    if p[0] == q[0] {
      ReplaceAtDisjoint(f[p[0]].children, p[1..], q[1..], n);
    }
  }

  /**
   * Replacing a node by one with the same children, as setting an attribute
   * does, leaves every node of its subtree where it was.
   */
  lemma {:induction false} ReplaceAtKeepsSubtree(f: seq<Node>, p: Path, q: Path, n: Node)
    requires ValidPath(f, p) && ValidPath(f, q) && IsProperPrefix(p, q)
    requires n.Element? && NodeAt(f, p).Element? && n.children == NodeAt(f, p).children
    ensures ValidPath(ReplaceAt(f, p, n), q) && NodeAt(ReplaceAt(f, p, n), q) == NodeAt(f, q)
    decreases |p|
  {
    assert q[0] == p[0];
    if |p| == 1 {
      assert q[1..][..0] == [];
    } else {
      assert q[1..][..|p[1..]|] == p[1..];
      ReplaceAtKeepsSubtree(f[p[0]].children, p[1..], q[1..], n);
    }
  }

  /**
   * Replacing a node below `p` leaves the node at `p` in place with its
   * name and attributes; only its subtree changes.
   */
  lemma {:induction false} ReplaceAtBelow(f: seq<Node>, p: Path, q: Path, n: Node)
    requires ValidPath(f, p) && IsProperPrefix(p, q)
    ensures ValidPath(ReplaceAt(f, q, n), p)
    ensures NodeAt(f, p).Element? ==>
      NodeAt(ReplaceAt(f, q, n), p).Element? &&
      NodeAt(ReplaceAt(f, q, n), p).name == NodeAt(f, p).name &&
      NodeAt(ReplaceAt(f, q, n), p).attrs == NodeAt(f, p).attrs
    decreases |p|
  {
    assert q[0] == p[0];
    if ValidPath(f, q) && |p| > 1 {
      assert q[1..][..|p[1..]|] == p[1..];
      ReplaceAtBelow(f[p[0]].children, p[1..], q[1..], n);
    }
  }

  lemma {:induction false} DisjointSymmetric(a: Path, b: Path)
    requires Disjoint(a, b)
    ensures Disjoint(b, a)
    decreases |a|
  {
    if a[0] == b[0] {
      DisjointSymmetric(a[1..], b[1..]);
    }
  }

  lemma {:induction false} BeforeCases(a: Path, b: Path)
    requires |a| > 0 && Before(a, b)
    ensures IsProperPrefix(a, b) || Disjoint(a, b)
    ensures !IsPrefix(b, a)
    decreases |a|
  {
    if a[0] == b[0] && |a| > 1 {
      BeforeCases(a[1..], b[1..]);
      if IsProperPrefix(a[1..], b[1..]) {
        assert b[..|a|] == [a[0]] + b[1..][..|a| - 1];
      }
    }
  }

  lemma {:induction false} BeforeAsymmetric(a: Path, b: Path)
    requires Before(a, b)
    ensures !Before(b, a)
    decreases |a|
  {
    if |a| > 0 && a[0] == b[0] {
      BeforeAsymmetric(a[1..], b[1..]);
    }
  }

  // ---------------------------------------------------------------------
  // Selection in document order

  /** The two queries the reconciler issues: every `svg:text` element, and every element with a given id. */
  datatype Query = SvgTextElements | ElementsWithId(id: string)

  predicate Matches(n: Node, q: Query) {
    n.Element? &&
    (match q
     case SvgTextElements => n.name == Name(Some(SvgNamespace), "text")
     case ElementsWithId(id) => "id" in n.attrs && n.attrs["id"] == id)
  }

  function Under(i: nat, ps: seq<Path>): (r: seq<Path>)
    ensures |r| == |ps|
    ensures forall k :: 0 <= k < |r| ==> r[k] == [i] + ps[k]
  {
    seq(|ps|, k requires 0 <= k < |ps| => [i] + ps[k])
  }

  /** The paths of the matching nodes of `f[i..]` and their subtrees, in document order. */
  function SelectFrom(f: seq<Node>, q: Query, i: nat): seq<Path>
    requires i <= |f|
    decreases f, |f| - i
  {
    if i == |f| then []
    else
      (if Matches(f[i], q) then [[i]] else []) +
      (if f[i].Element? then Under(i, SelectFrom(f[i].children, q, 0)) else []) +
      SelectFrom(f, q, i + 1)
  }

  function Select(f: seq<Node>, q: Query): (ps: seq<Path>)
    ensures forall k :: 0 <= k < |ps| ==> ValidPath(f, ps[k]) && Matches(NodeAt(f, ps[k]), q)
  {
    SelectSound(f, q, 0);
    SelectFrom(f, q, 0)
  }

  /** Every selected path leads to a matching node. */
  lemma {:induction false} SelectSound(f: seq<Node>, q: Query, i: nat)
    requires i <= |f|
    ensures forall k :: 0 <= k < |SelectFrom(f, q, i)| ==>
      ValidPath(f, SelectFrom(f, q, i)[k]) && Matches(NodeAt(f, SelectFrom(f, q, i)[k]), q) &&
      i <= SelectFrom(f, q, i)[k][0]
    decreases f, |f| - i
  {
    if i < |f| {
      SelectSound(f, q, i + 1);
      if f[i].Element? {
        var sub := SelectFrom(f[i].children, q, 0);
        SelectSound(f[i].children, q, 0);
        forall k | 0 <= k < |sub|
          ensures ValidPath(f, [i] + sub[k]) && NodeAt(f, [i] + sub[k]) == NodeAt(f[i].children, sub[k])
        {
          assert ([i] + sub[k])[1..] == sub[k];
        }
      }
    }
  }

  /** Every matching node is selected. */
  lemma {:induction false} SelectComplete(f: seq<Node>, q: Query, i: nat, p: Path)
    requires i <= |f| && ValidPath(f, p) && i <= p[0] && Matches(NodeAt(f, p), q)
    ensures p in SelectFrom(f, q, i)
    decreases f, |f| - i
  {
    if p[0] == i {
      if |p| == 1 {
        assert p == [i];
      } else {
        SelectComplete(f[i].children, q, 0, p[1..]);
        var sub := SelectFrom(f[i].children, q, 0);
        var k :| 0 <= k < |sub| && sub[k] == p[1..];
        assert Under(i, sub)[k] == p;
      }
    } else {
      SelectComplete(f, q, i + 1, p);
    }
  }

  predicate InDocumentOrder(ps: seq<Path>) {
    forall a, b :: 0 <= a < b < |ps| ==> Before(ps[a], ps[b])
  }

  lemma OrderedConcat(xs: seq<Path>, ys: seq<Path>)
    requires InDocumentOrder(xs) && InDocumentOrder(ys)
    requires forall a, b :: 0 <= a < |xs| && 0 <= b < |ys| ==> Before(xs[a], ys[b])
    ensures InDocumentOrder(xs + ys)
  {
    forall a, b | 0 <= a < b < |xs + ys| ensures Before((xs + ys)[a], (xs + ys)[b]) {
      if b < |xs| {
        assert (xs + ys)[a] == xs[a] && (xs + ys)[b] == xs[b];
      } else if a >= |xs| {
        assert (xs + ys)[a] == ys[a - |xs|] && (xs + ys)[b] == ys[b - |xs|];
      } else {
        assert (xs + ys)[a] == xs[a] && (xs + ys)[b] == ys[b - |xs|];
      }
    }
  }

  /** Putting one index in front of ordered paths keeps them ordered. */
  lemma UnderOrdered(i: nat, ps: seq<Path>)
    requires InDocumentOrder(ps)
    requires forall k :: 0 <= k < |ps| ==> |ps[k]| > 0
    ensures InDocumentOrder(Under(i, ps))
    ensures forall k :: 0 <= k < |Under(i, ps)| ==> |Under(i, ps)[k]| > 1 && Under(i, ps)[k][0] == i
  {
    var r := Under(i, ps);
    forall a, b | 0 <= a < b < |r| ensures Before(r[a], r[b]) {
      assert r[a][1..] == ps[a] && r[b][1..] == ps[b];
    }
  }

  /** Paths that all start at `i` come before paths that start later. */
  lemma HeadsBefore(xs: seq<Path>, i: nat, ys: seq<Path>)
    requires forall a :: 0 <= a < |xs| ==> |xs[a]| > 0 && xs[a][0] == i
    requires forall b :: 0 <= b < |ys| ==> |ys[b]| > 0 && i < ys[b][0]
    ensures forall a, b :: 0 <= a < |xs| && 0 <= b < |ys| ==> Before(xs[a], ys[b])
  {
  }

  /** The selection lists the matching nodes in document order, ancestors first. */
  lemma {:induction false} SelectOrdered(f: seq<Node>, q: Query, i: nat)
    requires i <= |f|
    ensures InDocumentOrder(SelectFrom(f, q, i))
    decreases f, |f| - i
  {
    if i < |f| {
      var here: seq<Path> := if Matches(f[i], q) then [[i]] else [];
      var below: seq<Path> := if f[i].Element? then Under(i, SelectFrom(f[i].children, q, 0)) else [];
      var rest := SelectFrom(f, q, i + 1);
      SelectOrdered(f, q, i + 1);
      SelectSound(f, q, i + 1);
      if f[i].Element? {
        SelectOrdered(f[i].children, q, 0);
        SelectSound(f[i].children, q, 0);
        UnderOrdered(i, SelectFrom(f[i].children, q, 0));
      }
      OrderedConcat(here, below);
      HeadsBefore(here + below, i, rest);
      OrderedConcat(here + below, rest);
    }
  }

  /** The first match of a query in document order, as `select(…)[0]` gives it. */
  function FirstMatch(f: seq<Node>, q: Query): (m: Option<Path>)
    ensures m.None? <==> Select(f, q) == []
    ensures m.Some? ==> ValidPath(f, m.value) && Matches(NodeAt(f, m.value), q)
  {
    if |Select(f, q)| > 0 then Some(Select(f, q)[0]) else None
  }

  /**
   * The first match leads to a matching node and no matching node comes
   * before it in document order; there is no first match only when no node
   * matches.
   */
  lemma FirstMatchSpec(f: seq<Node>, q: Query)
    ensures FirstMatch(f, q).Some? ==>
      ValidPath(f, FirstMatch(f, q).value) && Matches(NodeAt(f, FirstMatch(f, q).value), q)
    ensures FirstMatch(f, q).Some? ==> forall p :: ValidPath(f, p) && Matches(NodeAt(f, p), q) ==>
      p == FirstMatch(f, q).value || Before(FirstMatch(f, q).value, p)
    ensures FirstMatch(f, q).None? ==> forall p :: ValidPath(f, p) ==> !Matches(NodeAt(f, p), q)
  {
    SelectSound(f, q, 0);
    SelectOrdered(f, q, 0);
    forall p | ValidPath(f, p) && Matches(NodeAt(f, p), q)
      ensures p in Select(f, q)
    {
      SelectComplete(f, q, 0, p);
    }
  }

  // ---------------------------------------------------------------------
  // Counting matches

  /** The number of matching nodes in a forest, subtrees included. */
  function Count(f: seq<Node>, q: Query): nat
    decreases f
  {
    if f == [] then 0
    else
      (if Matches(f[0], q) then 1 else 0) +
      (if f[0].Element? then Count(f[0].children, q) else 0) +
      Count(f[1..], q)
  }

  lemma {:induction false} CountConcat(a: seq<Node>, b: seq<Node>, q: Query)
    ensures Count(a + b, q) == Count(a, q) + Count(b, q)
    decreases |a|
  {
    if a == [] {
      assert a + b == b;
    } else {
      assert (a + b)[1..] == a[1..] + b;
      CountConcat(a[1..], b, q);
    }
  }

  lemma {:induction false} CountUpdate(f: seq<Node>, i: nat, n: Node, q: Query)
    requires i < |f|
    ensures Count(f[i := n], q) + Count([f[i]], q) == Count(f, q) + Count([n], q)
  {
    assert f == f[..i] + [f[i]] + f[i + 1..];
    assert f[i := n] == f[..i] + [n] + f[i + 1..];
    CountConcat(f[..i] + [f[i]], f[i + 1..], q);
    CountConcat(f[..i], [f[i]], q);
    CountConcat(f[..i] + [n], f[i + 1..], q);
    CountConcat(f[..i], [n], q);
  }

  /** Removing a subtree removes exactly the matches inside it. */
  lemma {:induction false} CountRemoveAt(f: seq<Node>, p: Path, q: Query)
    requires ValidPath(f, p)
    ensures Count(RemoveAt(f, p), q) + Count([NodeAt(f, p)], q) == Count(f, q)
    decreases |p|
  {
    var i := p[0];
    if |p| == 1 {
      assert f == f[..i] + [f[i]] + f[i + 1..];
      CountConcat(f[..i] + [f[i]], f[i + 1..], q);
      CountConcat(f[..i], [f[i]], q);
      CountConcat(f[..i], f[i + 1..], q);
    } else {
      var e := f[i];
      var e' := Element(e.name, e.attrs, RemoveAt(e.children, p[1..]));
      CountRemoveAt(e.children, p[1..], q);
      CountUpdate(f, i, e', q);
      assert [e][1..] == [] && [e'][1..] == [];
    }
  }

  lemma {:induction false} SelectCountFrom(f: seq<Node>, q: Query, i: nat)
    requires i <= |f|
    ensures |SelectFrom(f, q, i)| == Count(f[i..], q)
    decreases f, |f| - i
  {
    if i < |f| {
      SelectCountFrom(f, q, i + 1);
      if f[i].Element? {
        SelectCountFrom(f[i].children, q, 0);
        assert f[i].children[0..] == f[i].children;
      }
      assert f[i..][1..] == f[i + 1..];
    }
  }

  /**
   * Moving a matching node out of a document leaves strictly fewer matches
   * in it: the node moved cannot be selected again.
   */
  lemma MoveOutLeavesFewerMatches(f: seq<Node>, p: Path, q: Query)
    requires ValidPath(f, p) && Matches(NodeAt(f, p), q)
    ensures |Select(RemoveAt(f, p), q)| < |Select(f, q)|
  {
    CountRemoveAt(f, p, q);
    SelectCountFrom(f, q, 0);
    SelectCountFrom(RemoveAt(f, p), q, 0);
    assert f[0..] == f;
    assert RemoveAt(f, p)[0..] == RemoveAt(f, p);
    assert [NodeAt(f, p)][1..] == [];
  }
}
