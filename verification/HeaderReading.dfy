/** The two readings of a chain whose first item has no position.

The header of the class chain search reads such a chain as if the rest of it were
looked up from the first match alone. The code looks it up from every match. The
two agree exactly under the conditions below. */
module HeaderReading {
  import opened ElementTree
  import opened ElementQuery
  import opened ChainMeaning
  import opened ClassChain
  import opened Wrappers

  predicate Free(chain: seq<Item>) {
    forall i :: 0 <= i < |chain| ==> chain[i].position.None?
  }

  /** The item as the header reads it: only its first match counts. */
  function FirstMatchOf(item: Item): Item {
    item.(position := Some(1))
  }

  // ---------- A chain without positions looks up each start element on its own ----------

  lemma StepFromOne(t: Ui, current: seq<Path>, item: Item, p: Path)
    requires AllValid(t, current)
    ensures p in Step(t, current, item) <==> exists c :: c in current && p in Step(t, [c], item)
  {
    StepMembers(t, current, item, p);
    forall c | c in current ensures p in Step(t, [c], item) <==> Valid(t, p) && Leads(t, c, item, p) {
      StepMembers(t, [c], item, p);
    }
  }

  /** What a chain without positions finds is what it finds from one of the start elements. */
  lemma {:induction false} FreeMembers(t: Ui, current: seq<Path>, chain: seq<Item>, p: Path)
    requires AllValid(t, current) && chain != [] && Free(chain)
    ensures p in Interpret(t, current, chain, false)
       <==> exists c :: c in current && p in Interpret(t, [c], chain, false)
    decreases |chain|
  {
    var item, rest := chain[0], chain[1..];
    if rest == [] {
      StepFromOne(t, current, item, p);
    } else {
      FreeMembers(t, Step(t, current, item), rest, p);
      forall c | c in current
        ensures p in Interpret(t, [c], chain, false)
           <==> exists f :: f in Step(t, [c], item) && p in Interpret(t, [f], rest, false)
      {
        FreeMembers(t, Step(t, [c], item), rest, p);
      }
      forall f { StepFromOne(t, current, item, f); }
    }
  }

  lemma NothingFromNothing(t: Ui, chain: seq<Item>)
    requires chain != [] && Free(chain)
    ensures Interpret(t, [], chain, false) == []
  {
    var r := Interpret(t, [], chain, false);
    if r != [] {
      FreeMembers(t, [], chain, r[0]);
    }
  }

  // ---------- All matches, or the first ----------

  /** Is all that the chain finds from any of the elements also found from the first of them? */
  ghost predicate FirstSuffices(t: Ui, found: seq<Path>, chain: seq<Item>)
    requires AllValid(t, found) && chain != []
  {
    forall f, p :: f in found && p in Interpret(t, [f], chain, false) ==> p in Interpret(t, [found[0]], chain, false)
  }

  lemma ContinuesFromAll(t: Ui, found: seq<Path>, item: Item, rest: seq<Item>)
    requires AllValid(t, found) && item.position.None? && rest != []
    ensures Continue(t, found, item, rest, false) == Interpret(t, found, rest, false)
  {
  }

  lemma ContinuesFromFirst(t: Ui, found: seq<Path>, item: Item, rest: seq<Item>)
    requires AllValid(t, found) && item.position == Some(1) && rest != []
    ensures Continue(t, found, item, rest, false) == if found == [] then [] else Interpret(t, [found[0]], rest, false)
  {
    SelectedAreMatches(found, 1, false);
    assert Select(found, 1, false) == if found == [] then [] else [found[0]];
  }

  /** The header's reading continues from the first match, if there is one. */
  lemma ReadsFromFirst(t: Ui, current: seq<Path>, item: Item, rest: seq<Item>)
    requires AllValid(t, current) && item.position.None? && rest != []
    ensures var found := Step(t, current, item);
      && Interpret(t, current, [item] + rest, false) == Interpret(t, found, rest, false)
      && Interpret(t, current, [FirstMatchOf(item)] + rest, false)
      == if found == [] then [] else Interpret(t, [found[0]], rest, false)
  {
    var found, first := Step(t, current, item), FirstMatchOf(item);
    assert ([item] + rest)[1..] == rest && ([first] + rest)[1..] == rest;
    assert Step(t, current, first) == found;
    ContinuesFromAll(t, found, item, rest);
    ContinuesFromFirst(t, found, first, rest);
  }

  /** The code and the header agree on a chain without positions exactly when
  everything that is found below any match of the first item is found below its first match. */
  lemma AgreesWithHeaderIff(t: Ui, current: seq<Path>, item: Item, rest: seq<Item>)
    requires AllValid(t, current) && item.position.None? && rest != [] && Free(rest)
    ensures Interpret(t, current, [item] + rest, false) == Interpret(t, current, [FirstMatchOf(item)] + rest, false)
       <==> FirstSuffices(t, Step(t, current, item), rest)
  {
    var found := Step(t, current, item);
    var all := Interpret(t, found, rest, false);
    ReadsFromFirst(t, current, item, rest);
    forall p { FreeMembers(t, found, rest, p); }
    if found != [] {
      var first := Interpret(t, [found[0]], rest, false);
      ResultsInOrder(t, found, rest, false);
      ResultsInOrder(t, [found[0]], rest, false);
      if FirstSuffices(t, found, rest) {
        SortedUnique(all, first);
      }
    } else {
      NothingFromNothing(t, rest);
    }
  }

  // ---------- With a position at the end ----------

  lemma FreedIsFree(chain: seq<Item>)
    requires chain != [] && Free(chain[..|chain| - 1])
    ensures Free(Freed(chain))
  {
  }

  lemma {:induction false} SubtreesInOrder(f: Path, g: Path, p: Path, q: Path)
    requires |f| == |g| && Before(f, g) && f <= p && g <= q
    ensures Before(p, q)
  {
    if f[0] == g[0] {
      SubtreesInOrder(f[1..], g[1..], p[1..], q[1..]);
    }
  }

  ghost predicate SameDepth(ps: seq<Path>) {
    forall p, q :: p in ps && q in ps ==> |p| == |q|
  }

  /** What lies below an element comes before what lies below later ones of the same depth. */
  lemma SortedBelow(f: Path, gs: seq<Path>, first: seq<Path>, others: seq<Path>)
    requires Sorted(first) && Sorted(others)
    requires forall g :: g in gs ==> |g| == |f| && Before(f, g)
    requires forall p :: p in first ==> exists c :: c in [f] && c < p
    requires forall q :: q in others ==> exists g :: g in gs && g < q
    ensures Sorted(first + others)
  {
    forall i, j | 0 <= i < |first| && 0 <= j < |others| ensures Before(first[i], others[j]) {
      assert first[i] in first && others[j] in others;
      var g :| g in gs && g < others[j];
      SubtreesInOrder(f, g, first[i], others[j]);
    }
  }

  lemma FromFirstOrRest(t: Ui, found: seq<Path>, chain: seq<Item>, p: Path)
    requires AllValid(t, found) && found != [] && chain != [] && Free(chain)
    ensures p in Interpret(t, found, chain, false)
       <==> p in Interpret(t, [found[0]], chain, false) || p in Interpret(t, found[1..], chain, false)
  {
    FreeMembers(t, found, chain, p);
    FreeMembers(t, found[1..], chain, p);
    assert forall c :: c in found <==> c == found[0] || c in found[1..];
  }

  /** From elements of one depth, what is found below the first comes before all the rest. */
  lemma FirstComesFirst(t: Ui, found: seq<Path>, chain: seq<Item>)
    requires AllValid(t, found) && Sorted(found) && SameDepth(found) && found != [] && chain != [] && Free(chain)
    ensures Interpret(t, found, chain, false)
         == Interpret(t, [found[0]], chain, false) + Interpret(t, found[1..], chain, false)
  {
    var all, first := Interpret(t, found, chain, false), Interpret(t, [found[0]], chain, false);
    var others := Interpret(t, found[1..], chain, false);
    SortedTail(found);
    ResultsInOrder(t, found, chain, false);
    ResultsInOrder(t, [found[0]], chain, false);
    ResultsInOrder(t, found[1..], chain, false);
    SortedBelow(found[0], found[1..], first, others);
    forall p ensures p in all <==> p in first + others {
      FromFirstOrRest(t, found, chain, p);
    }
    SortedUnique(all, first + others);
  }

  /** Position `k` selects the same from `all` matches as from the first `below` of
  them: there are no others, or too few of them either way, or it is one of the first. */
  predicate PicksSame(all: nat, below: nat, k: int) {
    below == all || k > all || -k > all || 1 <= k <= below
  }

  lemma SelectsSameIff(front: seq<Path>, back: seq<Path>, k: int)
    requires Sorted(front + back)
    ensures Select(front + back, k, false) == Select(front, k, false) <==> PicksSame(|front + back|, |front|, k)
  {
    var all := front + back;
    if back == [] {
      assert all == front;
    } else if 1 <= -k <= |front| {
      BeforeIrreflexive(all[|front| + k]);
      assert Before(all[|front| + k], all[|all| + k]);
    }
  }

  lemma ChildrenHaveOneDepth(t: Ui, root: Path, item: Item)
    requires Valid(t, root) && !item.isDescendant
    ensures Sorted(Step(t, [root], item)) && SameDepth(Step(t, [root], item))
  {
    StepGoesDown(t, [root], item);
    forall p | p in Step(t, [root], item) ensures |p| == |root| + 1 {
      StepMembers(t, [root], item, p);
    }
  }

  /** What a chain without positions finds below the first of the elements. */
  function BelowFirst(t: Ui, found: seq<Path>, chain: seq<Item>): seq<Path>
    requires AllValid(t, found) && chain != []
  {
    if found == [] then [] else Interpret(t, [found[0]], chain, false)
  }

  lemma SelectsSameBelowFirstIff(t: Ui, found: seq<Path>, chain: seq<Item>, k: int)
    requires AllValid(t, found) && Sorted(found) && SameDepth(found) && chain != [] && Free(chain)
    ensures var all, below := Interpret(t, found, chain, false), BelowFirst(t, found, chain);
      Select(all, k, false) == Select(below, k, false) <==> PicksSame(|all|, |below|, k)
  {
    if found == [] {
      NothingFromNothing(t, chain);
    } else {
      FirstComesFirst(t, found, chain);
      ResultsInOrder(t, found, chain, false);
      SelectsSameIff(BelowFirst(t, found, chain), Interpret(t, found[1..], chain, false), k);
    }
  }

  /** Both readings are selections by the last position. */
  lemma BothSelect(t: Ui, current: seq<Path>, item: Item, rest: seq<Item>)
    requires AllValid(t, current) && item.position.None? && rest != [] && Free(rest[..|rest| - 1])
    ensures var found, k := Step(t, current, item), LastPosition(rest);
      && Interpret(t, current, [item] + rest, false) == Select(Interpret(t, found, Freed(rest), false), k, false)
      && Interpret(t, current, [FirstMatchOf(item)] + rest, false)
      == Select(BelowFirst(t, found, Freed(rest)), k, false)
  {
    var found := Step(t, current, item);
    ReadsFromFirst(t, current, item, rest);
    LastSelects(t, found, rest, false);
    if found != [] { LastSelects(t, [found[0]], rest, false); }
  }

  /** The header's own shape: children of one root, then a chain with a position at its
  end. The code and the header agree exactly when the matches below the first child
  are all there are, or reach up to the position, or when there are too few either way. */
  lemma AgreesAtPositionIff(t: Ui, root: Path, item: Item, rest: seq<Item>)
    requires Valid(t, root) && item.position.None? && !item.isDescendant
    requires rest != [] && Free(rest[..|rest| - 1])
    ensures var found, k := Step(t, [root], item), LastPosition(rest);
      var all, below := Interpret(t, found, Freed(rest), false), BelowFirst(t, found, Freed(rest));
      Interpret(t, [root], [item] + rest, false) == Interpret(t, [root], [FirstMatchOf(item)] + rest, false)
      <==> PicksSame(|all|, |below|, k)
  {
    var found, free := Step(t, [root], item), Freed(rest);
    FreedIsFree(rest);
    ChildrenHaveOneDepth(t, root, item);
    BothSelect(t, [root], item, rest);
    SelectsSameBelowFirstIff(t, found, free, LastPosition(rest));
  }

  // ---------- A tree on which they differ ----------

  function Element(elementType: int, children: seq<Ui>): Ui {
    Node(Attributes(elementType, map[]), children)
  }

  /** A root with an empty window and a window with a button in it. */
  function TwoWindows(window: int, button: int): Ui {
    Element(ANY_TYPE, [Element(window, []), Element(window, [Element(button, [])])])
  }

  lemma TwoWindowsPaths(window: int, button: int)
    ensures var t := TwoWindows(window, button);
      && Valid(t, [0]) && Valid(t, [1]) && Valid(t, [1, 0])
      && At(t, [0]) == Element(window, []) && At(t, [1, 0]) == Element(button, [])
      && At(t, [1]) == Element(window, [Element(button, [])])
  {
    var t := TwoWindows(window, button);
    var p0: Path, p1: Path, p10: Path := [0], [1], [1, 0];
    assert p0[1..] == [] && p1[1..] == [] && p10[1..] == p0;
    assert At(t.children[0], []) == Element(window, []);
    assert Valid(t.children[1], p0) && At(t.children[1], p0) == Element(button, []);
  }

  lemma StepNone(t: Ui, p: Path, item: Item)
    requires Valid(t, p) && ChildPaths(t, p) == [] && !item.isDescendant && item.predicates == []
    ensures Step(t, [p], item) == []
  {
    assert [p][1..] == [] && Gather(t, [], false) == [];
    assert Gather(t, [p], false) == [];
  }

  lemma StepOnce(t: Ui, current: seq<Path>, ps: seq<Path>, item: Item)
    requires |current| == 1 && AllValid(t, current) && |ps| == 2 && ChildPaths(t, current[0]) == ps
    requires !item.isDescendant && item.predicates == []
    requires HasType(At(t, ps[0]), item.elementType) && HasType(At(t, ps[1]), item.elementType)
    ensures Step(t, current, item) == ps
  {
    assert current[1..] == [] && Gather(t, [], false) == [];
    assert Gather(t, current, false) == ps;
    assert ps == [ps[0], ps[1]] && ps[1..] == [ps[1]] && ps[1..][1..] == [];
    assert Filter(t, ps[1..], OfType(item.elementType)) == [ps[1]];
  }

  lemma StepTwice(t: Ui, p: Path, q: Path, rs: seq<Path>, item: Item)
    requires Valid(t, p) && Valid(t, q) && ChildPaths(t, p) == [] && ChildPaths(t, q) == rs && |rs| == 1
    requires !item.isDescendant && item.predicates == [] && HasType(At(t, rs[0]), item.elementType)
    ensures Step(t, [p, q], item) == rs
  {
    assert [p, q][1..] == [q] && [q][1..] == [] && Gather(t, [], false) == [];
    assert Gather(t, [q], false) == rs;
    assert Gather(t, [p, q], false) == rs;
    assert rs[1..] == [] && Filter(t, [], OfType(item.elementType)) == [];
    assert rs == [rs[0]];
  }

  lemma WindowSteps(window: int, button: int)
    requires window != ANY_TYPE && button != ANY_TYPE && window != button
    ensures
      var t, buttons := TwoWindows(window, button), Item(button, Some(1), [], false);
      && AllValid(t, [[0], [1]])
      && Step(t, [[]], Item(window, None, [], false)) == [[0], [1]]
      && Step(t, [[0]], buttons) == [] && Step(t, [[0], [1]], buttons) == [[1, 0]]
  {
    var t, buttons := TwoWindows(window, button), Item(button, Some(1), [], false);
    var root: Path, p0: Path, p1: Path, p10: Path := [], [0], [1], [1, 0];
    TwoWindowsPaths(window, button);
    assert ChildPaths(t, root) == [p0, p1] by { assert root + [0] == p0 && root + [1] == p1; }
    assert ChildPaths(t, p1) == [p10] by { assert p1 + [0] == p10; }
    StepOnce(t, [root], [p0, p1], Item(window, None, [], false));
    StepNone(t, p0, buttons);
    StepTwice(t, p0, p1, [p10], buttons);
  }

  /** `Window/Button[1]` finds the button of the second window, where the header has it look in the first. */
  lemma AllWindowsAreSearched(window: int, button: int)
    requires window != ANY_TYPE && button != ANY_TYPE && window != button
    ensures
      var t, windows, buttons :=
        TwoWindows(window, button), Item(window, None, [], false), Item(button, Some(1), [], false);
      && Interpret(t, [[]], [windows] + [buttons], false) == [[1, 0]]
      && Interpret(t, [[]], [FirstMatchOf(windows)] + [buttons], false) == []
  {
    var buttons := Item(button, Some(1), [], false);
    WindowSteps(window, button);
    ReadsFromFirst(TwoWindows(window, button), [[]], Item(window, None, [], false), [buttons]);
    assert [buttons][1..] == [];
  }
}
