/** Lazily composed element queries and what they match.

XCTest's own query primitives are foreign code. They are given a meaning here:
an element's own query matches exactly that element, the other primitives match
the elements described by `Matches`, and resolving a query lists its matches
once each, in document order. The first match is the head of that list. The
tree does not change while a lookup runs. */
module ElementQuery {
  import opened ElementTree
  import opened Wrappers

  datatype Attributes = Attributes(elementType: int, properties: map<string, string>)

  type Ui = Tree<Attributes>

  type Predicate = Ui -> bool

  const ANY_TYPE := 0

  datatype Query =
    | Own(element: Path)
    | Children(of: Query, elementType: int)
    | Descendants(of: Query, elementType: int)
    | Matching(of: Query, test: Predicate)
    | Containing(of: Query, test: Predicate)

  predicate HasType(node: Ui, elementType: int) {
    elementType == ANY_TYPE || node.data.elementType == elementType
  }

  predicate HasDescendant(node: Ui, test: Predicate) {
    exists d :: d in ProperPaths(node) && test(At(node, d))
  }

  /** The paths from an element to its proper descendants. */
  function ProperPaths(node: Ui): (ps: seq<Path>)
    ensures forall d :: d in ps <==> d != [] && Valid(node, d)
  {
    assert forall d :: d in Below(node, 0) <==> d != [] && Valid(node, d) by {
      forall d { BelowComplete(node, 0, d); }
    }
    Below(node, 0)
  }

  predicate Matches(t: Ui, q: Query, p: Path)
    requires Valid(t, p)
    decreases q, 0
  {
    match q
    case Own(element) => p == element
    case Children(of, elementType) =>
      p != [] && ParentMatches(t, of, p) && HasType(At(t, p), elementType)
    case Descendants(of, elementType) =>
      AncestorMatches(t, of, p, |p|) && HasType(At(t, p), elementType)
    case Matching(of, test) => Matches(t, of, p) && test(At(t, p))
    case Containing(of, test) => Matches(t, of, p) && HasDescendant(At(t, p), test)
  }

  predicate ParentMatches(t: Ui, q: Query, p: Path)
    requires Valid(t, p) && p != []
    decreases q, 1
  {
    AncestorIsValid(t, p, |p| - 1);
    Matches(t, q, p[..|p| - 1])
  }

  /** Does one of the ancestors above depth `k` match? */
  predicate AncestorMatches(t: Ui, q: Query, p: Path, k: nat)
    requires Valid(t, p) && k <= |p|
    ensures AncestorMatches(t, q, p, k) <==> exists j | 0 <= j < k :: Valid(t, p[..j]) && Matches(t, q, p[..j])
    decreases q, k + 1
  {
    if k == 0 then false
    else
      AncestorIsValid(t, p, k - 1);
      Matches(t, q, p[..k - 1]) || AncestorMatches(t, q, p, k - 1)
  }

  lemma AncestorIsValid(t: Ui, p: Path, k: nat)
    requires Valid(t, p) && k <= |p|
    ensures Valid(t, p[..k])
  {
    assert p == p[..k] + p[k..];
    ValidPrefix(t, p[..k], p[k..]);
  }

  ghost predicate AllValid(t: Ui, ps: seq<Path>) {
    forall p :: p in ps ==> Valid(t, p)
  }

  /** Resolving a query: its matches among `ps`, in the order of `ps`. */
  function MatchesAmong(t: Ui, q: Query, ps: seq<Path>): (r: seq<Path>)
    requires AllValid(t, ps)
    ensures forall p :: p in r <==> p in ps && Matches(t, q, p)
    ensures |r| <= |ps|
  {
    if ps == [] then []
    else
      assert forall p :: p in ps <==> p == ps[0] || p in ps[1..];
      (if Matches(t, q, ps[0]) then [ps[0]] else []) + MatchesAmong(t, q, ps[1..])
  }

  lemma {:induction false} MatchesAmongSorted(t: Ui, q: Query, ps: seq<Path>)
    requires AllValid(t, ps) && Sorted(ps)
    ensures Sorted(MatchesAmong(t, q, ps))
  {
    if ps != [] {
      SortedTail(ps);
      MatchesAmongSorted(t, q, ps[1..]);
      forall p | p in MatchesAmong(t, q, ps[1..]) ensures Before(ps[0], p) {
        assert p in ps[1..];
      }
    }
  }

  function AllMatches(t: Ui, q: Query): (r: seq<Path>)
    ensures forall p :: p in r <==> Valid(t, p) && Matches(t, q, p)
    ensures Sorted(r)
    ensures |r| <= |DocumentOrder(t)|
  {
    assert forall p :: p in DocumentOrder(t) <==> Valid(t, p) by {
      forall p { DocumentOrderComplete(t, p); }
    }
    DocumentOrderSorted(t);
    MatchesAmongSorted(t, q, DocumentOrder(t));
    MatchesAmong(t, q, DocumentOrder(t))
  }

  function FirstMatch(t: Ui, q: Query): Option<Path> {
    var all := AllMatches(t, q);
    if all == [] then None else Some(all[0])
  }
}
