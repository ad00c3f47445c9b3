/** What a chain finds, element by element.

The last item of a chain relates each element that is found to one that the chain
before it finds; a position at the end picks one of them. By induction over the
items, with the order of `ClassChain.ResultsInOrder`, this determines every lookup. */
module ChainMeaning {
  import opened ElementTree
  import opened ElementQuery
  import opened ClassChain
  import opened Wrappers

  /** Does the predicate hold of the element, or of something below it? */
  ghost predicate Holds(node: Ui, item: PredicateItem) {
    match item
    case SelfPredicate(value) => value(node)
    case DescendantPredicate(value) => exists d :: d != [] && Valid(node, d) && value(At(node, d))
  }

  lemma HoldsIffPasses(node: Ui, item: PredicateItem)
    ensures Holds(node, item) <==> Passes(node, Satisfying(item))
  {
    match item {
      case SelfPredicate(_) =>
      case DescendantPredicate(value) =>
        if d :| d != [] && Valid(node, d) && value(At(node, d)) {
          assert d in ProperPaths(node);
        }
        if HasDescendant(node, value) {
          var d :| d in ProperPaths(node) && value(At(node, d));
          assert d != [] && Valid(node, d);
        }
    }
  }

  lemma {:induction false} FilterAllMembers(t: Ui, ps: seq<Path>, items: seq<PredicateItem>, p: Path)
    requires AllValid(t, ps)
    ensures p in FilterAll(t, ps, items) <==> p in ps && forall j :: 0 <= j < |items| ==> Holds(At(t, p), items[j])
    decreases |items|
  {
    if items != [] {
      FilterAllMembers(t, Filter(t, ps, Satisfying(items[0])), items[1..], p);
      if p in ps {
        HoldsIffPasses(At(t, p), items[0]);
        assert forall j :: 0 < j < |items| ==> items[j] == items[1..][j - 1];
      }
    }
  }

  /** Does the item lead from `c` to `p`: along its axis, to its type, past its predicates? */
  ghost predicate Leads(t: Ui, c: Path, item: Item, p: Path)
    requires Valid(t, p)
  {
    && c < p && (item.isDescendant || |p| == |c| + 1)
    && (item.elementType == 0 || At(t, p).data.elementType == item.elementType)
    && forall j :: 0 <= j < |item.predicates| ==> Holds(At(t, p), item.predicates[j])
  }

  lemma OnAxisIff(current: seq<Path>, isDescendant: bool, p: Path)
    ensures OnAxis(current, isDescendant, p) <==> exists c :: c in current && c < p && (isDescendant || |p| == |c| + 1)
  {
    if OnAxis(current, isDescendant, p) {
      var k := if isDescendant then var j :| 0 <= j < |p| && p[..j] in current; j else |p| - 1;
      assert p[..k] in current && p[..k] < p;
    }
    if c :| c in current && c < p && (isDescendant || |p| == |c| + 1) {
      assert p[..|c|] == c;
    }
  }

  lemma StepMembers(t: Ui, current: seq<Path>, item: Item, p: Path)
    requires AllValid(t, current)
    ensures p in Step(t, current, item) <==> Valid(t, p) && exists c :: c in current && Leads(t, c, item, p)
  {
    var gathered := Gather(t, current, item.isDescendant);
    FilterAllMembers(t, Filter(t, gathered, OfType(item.elementType)), item.predicates, p);
    if Valid(t, p) {
      GatherMembers(t, current, item.isDescendant, p);
      OnAxisIff(current, item.isDescendant, p);
    }
  }

  lemma StepFromNothing(t: Ui, item: Item)
    ensures Step(t, [], item) == []
  {
    var r := Step(t, [], item);
    if r != [] { StepMembers(t, [], item, r[0]); }
  }

  // ---------- The last item of a chain ----------

  /** No position, or one other than zero, as the parser gives them. */
  predicate Definite(chain: seq<Item>) {
    forall i :: 0 <= i < |chain| ==> chain[i].position.None? || chain[i].position.value != 0
  }

  /** The k-th match, or the k-th from the end for a negative position. */
  function Picked(found: seq<Path>, k: int): seq<Path> {
    if 1 <= k <= |found| then [found[k - 1]]
    else if 1 <= -k <= |found| then [found[|found| + k]]
    else []
  }

  lemma SelectedAt(found: seq<Path>, k: int, firstOnly: bool)
    requires k != 0
    ensures Select(found, k, firstOnly) == Picked(found, k)
  {
  }

  lemma OneThenLast(t: Ui, current: seq<Path>, first: Item, item: Item)
    requires AllValid(t, current) && Definite([first]) && item.position.None?
    ensures Interpret(t, current, [first] + [item], false) == Step(t, Interpret(t, current, [first], false), item)
  {
    var found, chain := Step(t, current, first), [first] + [item];
    var hit := Select(found, Position(first), false);
    SelectedAreMatches(found, Position(first), false);
    assert chain[0] == first && chain[1..] == [item] && [first][1..] == [] && [item][1..] == [];
    assert Interpret(t, current, [first], false) == hit;
    if first.position.None? {
      assert Interpret(t, current, chain, false) == Continue(t, Step(t, found, item), item, [], false);
    } else {
      SelectedAt(found, Position(first), false);
      if hit == [] {
        StepFromNothing(t, item);
      } else {
        assert hit == [hit[0]];
        assert Interpret(t, current, chain, false) == Continue(t, Step(t, hit, item), item, [], false);
      }
    }
  }

  /** The last item goes on from what the chain before it finds. */
  lemma {:induction false} LastStep(t: Ui, current: seq<Path>, front: seq<Item>, item: Item)
    requires AllValid(t, current) && front != [] && Definite(front) && item.position.None?
    ensures Interpret(t, current, front + [item], false) == Step(t, Interpret(t, current, front, false), item)
    decreases |front|
  {
    var first, rest := front[0], front[1..];
    var found := Step(t, current, first);
    assert (front + [item])[1..] == rest + [item] && (front + [item])[0] == first;
    SelectedAreMatches(found, Position(first), false);
    StepFromNothing(t, item);
    if rest == [] {
      assert front == [first];
      OneThenLast(t, current, first, item);
    } else if first.position.None? {
      LastStep(t, found, rest, item);
    } else {
      var hit := Select(found, Position(first), false);
      if hit != [] { LastStep(t, [hit[0]], rest, item); }
    }
  }

  /** The chain without the position of its last item. */
  function Freed(chain: seq<Item>): (r: seq<Item>)
    requires chain != []
    ensures r != []
  {
    chain[..|chain| - 1] + [chain[|chain| - 1].(position := None)]
  }

  function LastPosition(chain: seq<Item>): int
    requires chain != []
  {
    Position(chain[|chain| - 1])
  }

  /** The position of the last item selects from what the chain finds without it. */
  lemma {:induction false} LastSelects(t: Ui, current: seq<Path>, chain: seq<Item>, firstOnly: bool)
    requires AllValid(t, current) && chain != []
    ensures Interpret(t, current, chain, firstOnly)
         == Select(Interpret(t, current, Freed(chain), false), LastPosition(chain), firstOnly)
    decreases |chain|
  {
    var first := chain[0];
    var found := Step(t, current, first);
    if |chain| == 1 {
      assert Step(t, current, Freed(chain)[0]) == found;
    } else {
      var rest := chain[1..];
      assert Freed(chain)[1..] == Freed(rest) && Freed(chain)[0] == first;
      SelectedAreMatches(found, Position(first), false);
      if first.position.None? {
        LastSelects(t, found, rest, firstOnly);
      } else {
        var hit := Select(found, Position(first), false);
        if hit != [] { LastSelects(t, [hit[0]], rest, firstOnly); }
      }
    }
  }

  /** With a position at its end a chain finds the k-th of what it finds without. */
  lemma LastPicks(t: Ui, current: seq<Path>, front: seq<Item>, item: Item, k: int, firstOnly: bool)
    requires AllValid(t, current) && item.position.Some? && item.position.value == k && k != 0
    ensures Interpret(t, current, front + [item], firstOnly)
         == Picked(Interpret(t, current, front + [item.(position := None)], false), k)
  {
    var chain := front + [item];
    assert Freed(chain) == front + [item.(position := None)] && LastPosition(chain) == k;
    LastSelects(t, current, chain, firstOnly);
    SelectedAt(Interpret(t, current, Freed(chain), false), k, firstOnly);
  }
}
