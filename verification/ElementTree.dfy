/** Ordered trees of UI elements.

A node is named by the path of child indices that leads to it from the root, so
two siblings that look alike are still two elements. Document order is the order
in which XCTest lists matches: an element before its descendants, an earlier
sibling's subtree before a later one's. */
module ElementTree {

  type Path = seq<nat>

  datatype Tree<+D> = Node(data: D, children: seq<Tree<D>>)

  /** Does the path lead to a node of the tree? */
  predicate Valid<D>(t: Tree<D>, p: Path) {
    p == [] || (p[0] < |t.children| && Valid(t.children[p[0]], p[1..]))
  }

  function At<D>(t: Tree<D>, p: Path): Tree<D>
    requires Valid(t, p)
  {
    if p == [] then t else At(t.children[p[0]], p[1..])
  }

  /** Document order on paths. */
  predicate Before(p: Path, q: Path) {
    if q == [] then false
    else if p == [] then true
    else if p[0] != q[0] then p[0] < q[0]
    else Before(p[1..], q[1..])
  }

  ghost predicate Sorted(ps: seq<Path>) {
    forall i, j :: 0 <= i < j < |ps| ==> Before(ps[i], ps[j])
  }

  /** All paths of the tree, in pre-order. */
  function DocumentOrder<D>(t: Tree<D>): seq<Path>
    decreases t, |t.children| + 1
  {
    [[]] + Below(t, 0)
  }

  /** The paths of the tree that go through a child numbered `i` or later. */
  function Below<D>(t: Tree<D>, i: nat): seq<Path>
    requires i <= |t.children|
    decreases t, |t.children| - i
  {
    if i == |t.children| then []
    else Under([i], DocumentOrder(t.children[i])) + Below(t, i + 1)
  }

  /** The same paths, taken from the parent of the tree they belong to. */
  function Under(prefix: Path, ps: seq<Path>): (r: seq<Path>)
    ensures |r| == |ps|
    ensures forall i :: 0 <= i < |ps| ==> r[i] == prefix + ps[i]
  {
    seq(|ps|, i requires 0 <= i < |ps| => prefix + ps[i])
  }

  // ---------- Paths ----------

  lemma {:induction false} ValidSplit<D>(t: Tree<D>, p: Path, q: Path)
    requires Valid(t, p)
    ensures Valid(t, p + q) <==> Valid(At(t, p), q)
    ensures Valid(t, p + q) ==> At(t, p + q) == At(At(t, p), q)
  {
    if p == [] {
      assert p + q == q;
    } else {
      assert (p + q)[1..] == p[1..] + q;
      ValidSplit(t.children[p[0]], p[1..], q);
    }
  }

  lemma {:induction false} ValidPrefix<D>(t: Tree<D>, p: Path, q: Path)
    requires Valid(t, p + q)
    ensures Valid(t, p)
  {
    if p != [] {
      assert (p + q)[1..] == p[1..] + q;
      ValidPrefix(t.children[p[0]], p[1..], q);
    }
  }

  // ---------- Document order is a strict total order ----------

  lemma {:induction false} BeforeIrreflexive(p: Path)
    ensures !Before(p, p)
  {
    if p != [] { BeforeIrreflexive(p[1..]); }
  }

  lemma {:induction false} BeforeTransitive(p: Path, q: Path, r: Path)
    requires Before(p, q) && Before(q, r)
    ensures Before(p, r)
  {
    if p != [] && p[0] == q[0] && q[0] == r[0] {
      BeforeTransitive(p[1..], q[1..], r[1..]);
    }
  }

  lemma {:induction false} BeforeTotal(p: Path, q: Path)
    ensures Before(p, q) || p == q || Before(q, p)
  {
    if p != [] && q != [] && p[0] == q[0] {
      BeforeTotal(p[1..], q[1..]);
      assert p == [p[0]] + p[1..] && q == [q[0]] + q[1..];
    }
  }

  lemma BeforeAsymmetric(p: Path, q: Path)
    requires Before(p, q)
    ensures !Before(q, p) && p != q
  {
    BeforeIrreflexive(p);
    if Before(q, p) { BeforeTransitive(p, q, p); }
  }

  lemma {:induction false} BeforeUnder(prefix: Path, p: Path, q: Path)
    ensures Before(prefix + p, prefix + q) <==> Before(p, q)
  {
    if prefix == [] {
      assert prefix + p == p && prefix + q == q;
    } else {
      assert (prefix + p)[1..] == prefix[1..] + p;
      assert (prefix + q)[1..] == prefix[1..] + q;
      BeforeUnder(prefix[1..], p, q);
    }
  }

  lemma UnderSorted(prefix: Path, ps: seq<Path>)
    requires Sorted(ps)
    ensures Sorted(Under(prefix, ps))
  {
    forall i, j | 0 <= i < j < |ps| ensures Before(prefix + ps[i], prefix + ps[j]) {
      BeforeUnder(prefix, ps[i], ps[j]);
    }
  }

  lemma SortedTail(ps: seq<Path>)
    requires Sorted(ps) && ps != []
    ensures Sorted(ps[1..])
    ensures ps[0] !in ps[1..]
    ensures forall p :: p in ps[1..] ==> Before(ps[0], p)
  {
    forall i | 1 <= i < |ps| ensures ps[i] != ps[0] {
      BeforeAsymmetric(ps[0], ps[i]);
    }
  }

  lemma SortedCons(head: Path, ps: seq<Path>)
    requires Sorted(ps) && forall p :: p in ps ==> Before(head, p)
    ensures Sorted([head] + ps)
  {
    assert forall i :: 0 <= i < |ps| ==> ps[i] in ps;
  }

  /** Sorted lists with the same members are the same list. */
  lemma {:induction false} SortedUnique(ps: seq<Path>, qs: seq<Path>)
    requires Sorted(ps) && Sorted(qs)
    requires forall p :: p in ps <==> p in qs
    ensures ps == qs
  {
    assert ps != [] ==> ps[0] in ps;
    assert qs != [] ==> qs[0] in qs;
    if ps != [] && qs != [] {
      var i :| 0 <= i < |qs| && qs[i] == ps[0];
      var j :| 0 <= j < |ps| && ps[j] == qs[0];
      if i != 0 && j != 0 { BeforeAsymmetric(ps[0], qs[0]); }
      assert ps[0] == qs[0];
      SortedTail(ps);
      SortedTail(qs);
      forall p ensures p in ps[1..] <==> p in qs[1..] {
        assert p in ps <==> p == ps[0] || p in ps[1..];
        assert p in qs <==> p == qs[0] || p in qs[1..];
      }
      SortedUnique(ps[1..], qs[1..]);
      assert ps == [ps[0]] + ps[1..] && qs == [qs[0]] + qs[1..];
    }
  }

  // ---------- Pre-order lists every element once, in document order ----------

  lemma {:induction false} DocumentOrderComplete<D>(t: Tree<D>, p: Path)
    ensures p in DocumentOrder(t) <==> Valid(t, p)
    decreases t, |t.children| + 1
  {
    BelowComplete(t, 0, p);
  }

  lemma {:induction false} BelowComplete<D>(t: Tree<D>, i: nat, p: Path)
    requires i <= |t.children|
    ensures p in Below(t, i) <==> p != [] && p[0] >= i && Valid(t, p)
    decreases t, |t.children| - i
  {
    if i < |t.children| {
      var first := DocumentOrder(t.children[i]);
      BelowComplete(t, i + 1, p);
      if p != [] {
        DocumentOrderComplete(t.children[i], p[1..]);
        assert p == [p[0]] + p[1..];
        if p[0] == i && p[1..] in first {
          var k :| 0 <= k < |first| && first[k] == p[1..];
          assert Under([i], first)[k] == p;
        }
      }
      if p in Under([i], first) {
        var k :| 0 <= k < |first| && Under([i], first)[k] == p;
        assert p == [i] + first[k] && p[1..] == first[k];
      }
    }
  }

  lemma {:induction false} DocumentOrderSorted<D>(t: Tree<D>)
    ensures Sorted(DocumentOrder(t))
    decreases t, |t.children| + 1
  {
    BelowSorted(t, 0);
    forall j | 0 <= j < |Below(t, 0)| ensures Before([], Below(t, 0)[j]) {
      BelowComplete(t, 0, Below(t, 0)[j]);
    }
  }

  lemma {:induction false} BelowSorted<D>(t: Tree<D>, i: nat)
    requires i <= |t.children|
    ensures Sorted(Below(t, i))
    decreases t, |t.children| - i
  {
    if i < |t.children| {
      var first := Under([i], DocumentOrder(t.children[i]));
      var rest := Below(t, i + 1);
      DocumentOrderSorted(t.children[i]);
      UnderSorted([i], DocumentOrder(t.children[i]));
      BelowSorted(t, i + 1);
      forall j, k | 0 <= j < |first| && 0 <= k < |rest| ensures Before(first[j], rest[k]) {
        BelowComplete(t, i + 1, rest[k]);
      }
    }
  }

  // ---------- Document order, read off the paths ----------

  /** An element comes before its descendants, and the subtree of an earlier sibling
  before that of a later one; there is nothing else to the order. */
  lemma {:induction false} BeforeIff(p: Path, q: Path)
    ensures Before(p, q) <==>
      p < q || exists k: nat :: k < |p| && k < |q| && p[..k] == q[..k] && p[k] < q[k]
  {
    if p != [] && q != [] {
      BeforeIff(p[1..], q[1..]);
      if p[0] == q[0] {
        BranchBelow(p, q);
        assert p[1..] < q[1..] <==> p < q by {
          assert p == [p[0]] + p[1..] && q == [q[0]] + q[1..];
        }
      } else {
        assert p[..0] == q[..0];
        assert forall k: nat :: 0 < k < |p| && k < |q| ==> p[..k][0] == p[0] && q[..k][0] == q[0];
      }
    }
  }

  lemma BranchBelow(p: Path, q: Path)
    requires p != [] && q != [] && p[0] == q[0]
    ensures (exists k: nat :: k < |p| && k < |q| && p[..k] == q[..k] && p[k] < q[k])
       <==> exists k: nat :: k < |p| - 1 && k < |q| - 1 && p[1..][..k] == q[1..][..k] && p[1..][k] < q[1..][k]
  {
    if k: nat :| k < |p| && k < |q| && p[..k] == q[..k] && p[k] < q[k] {
      assert p[1..][..k - 1] == p[..k][1..] && q[1..][..k - 1] == q[..k][1..];
      assert p[1..][k - 1] < q[1..][k - 1];
    }
    if k: nat :| k < |p| - 1 && k < |q| - 1 && p[1..][..k] == q[1..][..k] && p[1..][k] < q[1..][k] {
      assert p[..k + 1] == [p[0]] + p[1..][..k] && q[..k + 1] == [q[0]] + q[1..][..k];
      assert p[k + 1] < q[k + 1];
    }
  }
}
