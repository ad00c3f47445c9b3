/** Class chain lookup: the loop that composes lazy queries, and the item by item
reading of a chain that it has to agree with. */
module ClassChain {
  import opened ElementTree
  import opened ElementQuery
  import opened MachineIntegers
  import opened Wrappers

  // ---------- Chain items ----------

  datatype PredicateItem = SelfPredicate(value: Predicate) | DescendantPredicate(value: Predicate)

  datatype Item = Item(
    elementType: int, position: Option<NSInteger>, predicates: seq<PredicateItem>, isDescendant: bool)

  datatype Error = ClassChainQueryParseException

  ghost predicate Fits(t: Ui) {
    |DocumentOrder(t)| < TWO_64
  }

  // ---------- The code: lazy queries ----------

  function AxisQuery(q: Query, item: Item): Query {
    if item.isDescendant then Descendants(q, item.elementType) else Children(q, item.elementType)
  }

  function PredicateQuery(q: Query, p: PredicateItem): Query {
    match p
    case SelfPredicate(value) => Matching(q, value)
    case DescendantPredicate(value) => Containing(q, value)
  }

  function PredicateQueries(q: Query, ps: seq<PredicateItem>): Query {
    if ps == [] then q else PredicateQuery(PredicateQueries(q, ps[..|ps| - 1]), ps[|ps| - 1])
  }

  function ItemQuery(q: Query, item: Item): Query {
    PredicateQueries(AxisQuery(q, item), item.predicates)
  }

  method QueryWithChainItem(root: Path, item: Item, base: Option<Query>) returns (query: Query)
    ensures query == ItemQuery(if base.Some? then base.value else Own(root), item)
  {
    query := if base.Some? then base.value else Own(root);
    if item.isDescendant {
      query := Descendants(query, item.elementType);
    } else {
      query := Children(query, item.elementType);
    }
    ghost var axis := query;
    for i := 0 to |item.predicates|
      invariant query == PredicateQueries(axis, item.predicates[..i])
    {
      assert item.predicates[..i + 1][..i] == item.predicates[..i];
      match item.predicates[i] {
        case SelfPredicate(value) => query := Matching(query, value);
        case DescendantPredicate(value) => query := Containing(query, value);
      }
    }
    assert item.predicates[..|item.predicates|] == item.predicates;
  }

  function Position(item: Item): NSInteger {
    if item.position.Some? then item.position.value else 0
  }

  /** The match at a position, with the signed and unsigned arithmetic of the code.
  Dafny's index checks on `all` are the proof that no index is out of range. */
  function MatchAtPosition(all: seq<Path>, position: NSInteger): seq<Path>
    requires |all| < TWO_64 && position != 0
  {
    var count: NSUInteger := |all|;
    AbsoluteValue(position);
    WrappedIndex(count, position);
    if count >= AsUnsigned(Abs(position)) then
      if position > 0 then [all[AsUnsigned(position - 1)]]
      else [all[AsUnsigned(count + AsUnsigned(position))]]
    else []
  }

  /** The matches an item selects. */
  function MatchingElements(t: Ui, item: Item, query: Query, firstOnly: Option<bool>): seq<Path>
    requires Fits(t)
  {
    var position := Position(item);
    if position == 1 || (position == 0 && firstOnly == Some(true)) then
      var result := FirstMatch(t, query);
      if result.Some? then [result.value] else []
    else
      var all := AllMatches(t, query);
      if position == 0 then all else MatchAtPosition(all, position)
  }

  /** Looks up a parsed chain below `self`; `None` is a chain that did not parse. */
  method DescendantsMatchingClassChain(t: Ui, self: Path, parsed: Option<seq<Item>>, firstOnly: bool)
    returns (r: Result<seq<Path>, Error>)
    requires Valid(t, self) && Fits(t)
    requires parsed.Some? ==> parsed.value != []
    ensures parsed.None? ==> r == Failure(ClassChainQueryParseException)
    ensures parsed.Some? ==> r == Success(Interpret(t, [self], parsed.value, firstOnly))
  {
    if parsed.None? {
      return Failure(ClassChainQueryParseException);
    }
    OwnMatches(t, self);
    var lookupChain := parsed.value;
    var chainItem := lookupChain[0];
    var currentRoot := self;
    var query := QueryWithChainItem(currentRoot, chainItem, None);
    ItemQueryIsStep(t, Own(self), chainItem);
    lookupChain := lookupChain[1..];
    while lookupChain != []
      invariant Valid(t, currentRoot)
      invariant Interpret(t, [self], parsed.value, firstOnly)
             == Continue(t, AllMatches(t, query), chainItem, lookupChain, firstOnly)
    {
      var isRootChanged := false;
      ghost var found := AllMatches(t, query);
      if chainItem.position.Some? {
        var currentRootMatch := MatchingElements(t, chainItem, query, None);
        IndexLaw(t, chainItem, query, None);
        if |currentRootMatch| == 0 {
          return Success([]);
        }
        SelectedAreMatches(found, Position(chainItem), false);
        currentRoot := currentRootMatch[0];
        isRootChanged := true;
        OwnMatches(t, currentRoot);
      }
      ghost var base := if isRootChanged then Own(currentRoot) else query;
      chainItem := lookupChain[0];
      query := QueryWithChainItem(currentRoot, chainItem, if isRootChanged then None else Some(query));
      ItemQueryIsStep(t, base, chainItem);
      lookupChain := lookupChain[1..];
    }
    IndexLaw(t, chainItem, query, Some(firstOnly));
    r := Success(MatchingElements(t, chainItem, query, Some(firstOnly)));
  }

  // ---------- The meaning of a chain: one list of elements after another ----------

  function ChildPaths(t: Ui, p: Path): (r: seq<Path>)
    requires Valid(t, p)
    ensures AllValid(t, r)
  {
    assert forall i :: 0 <= i < |At(t, p).children| ==> Valid(t, p + [i]) by {
      forall i | 0 <= i < |At(t, p).children| ensures Valid(t, p + [i]) {
        ValidSplit(t, p, [i]);
        assert Valid(At(t, p), [i]);
      }
    }
    seq(|At(t, p).children|, i requires 0 <= i < |At(t, p).children| => p + [i])
  }

  function DescendantPaths(t: Ui, p: Path): (r: seq<Path>)
    requires Valid(t, p)
    ensures AllValid(t, r)
  {
    assert forall d :: d in ProperPaths(At(t, p)) ==> Valid(t, p + d) by {
      forall d { ValidSplit(t, p, d); }
    }
    Under(p, ProperPaths(At(t, p)))
  }

  /** Two lists in document order as one, without repeats. */
  function Merge(ps: seq<Path>, qs: seq<Path>): (r: seq<Path>)
    ensures forall p :: p in r <==> p in ps || p in qs
  {
    if ps == [] then qs
    else if qs == [] then ps
    else
      assert forall p :: p in ps <==> p == ps[0] || p in ps[1..];
      assert forall p :: p in qs <==> p == qs[0] || p in qs[1..];
      if ps[0] == qs[0] then [ps[0]] + Merge(ps[1..], qs[1..])
      else if Before(ps[0], qs[0]) then [ps[0]] + Merge(ps[1..], qs)
      else [qs[0]] + Merge(ps, qs[1..])
  }

  /** The children, or the descendants, of all the current elements. */
  function Gather(t: Ui, current: seq<Path>, isDescendant: bool): (r: seq<Path>)
    requires AllValid(t, current)
    ensures AllValid(t, r)
  {
    if current == [] then []
    else
      Merge(
        if isDescendant then DescendantPaths(t, current[0]) else ChildPaths(t, current[0]),
        Gather(t, current[1..], isDescendant))
  }

  datatype Test = OfType(elementType: int) | Satisfying(item: PredicateItem)

  predicate Passes(node: Ui, test: Test) {
    match test
    case OfType(elementType) => HasType(node, elementType)
    case Satisfying(SelfPredicate(value)) => value(node)
    case Satisfying(DescendantPredicate(value)) => HasDescendant(node, value)
  }

  function Filter(t: Ui, ps: seq<Path>, test: Test): (r: seq<Path>)
    requires AllValid(t, ps)
    ensures forall p :: p in r <==> p in ps && Passes(At(t, p), test)
  {
    if ps == [] then []
    else
      assert forall p :: p in ps <==> p == ps[0] || p in ps[1..];
      (if Passes(At(t, ps[0]), test) then [ps[0]] else []) + Filter(t, ps[1..], test)
  }

  function FilterAll(t: Ui, ps: seq<Path>, items: seq<PredicateItem>): (r: seq<Path>)
    requires AllValid(t, ps)
    ensures AllValid(t, r)
    decreases |items|
  {
    if items == [] then ps else FilterAll(t, Filter(t, ps, Satisfying(items[0])), items[1..])
  }

  function Step(t: Ui, current: seq<Path>, item: Item): (r: seq<Path>)
    requires AllValid(t, current)
    ensures AllValid(t, r)
  {
    FilterAll(t, Filter(t, Gather(t, current, item.isDescendant), OfType(item.elementType)), item.predicates)
  }

  function Reversed(ps: seq<Path>): (r: seq<Path>)
    ensures |r| == |ps| && forall i :: 0 <= i < |ps| ==> r[i] == ps[|ps| - 1 - i]
  {
    if ps == [] then [] else Reversed(ps[1..]) + [ps[0]]
  }

  /** Position k is the k-th match, -k the k-th match from the end, 0 every match. */
  function Select(found: seq<Path>, position: int, firstOnly: bool): seq<Path> {
    if position == 0 then if firstOnly && found != [] then [found[0]] else found
    else if 1 <= position <= |found| then [found[position - 1]]
    else if 1 <= -position <= |found| then [Reversed(found)[-position - 1]]
    else []
  }

  /** What the chain `[item] + rest` gives once `item` has found its matches. */
  function Continue(t: Ui, found: seq<Path>, item: Item, rest: seq<Item>, firstOnly: bool): (r: seq<Path>)
    requires AllValid(t, found)
    ensures AllValid(t, r)
    decreases |rest|
  {
    SelectedAreMatches(found, Position(item), firstOnly);
    SelectedAreMatches(found, Position(item), false);
    if rest == [] then Select(found, Position(item), firstOnly)
    else if item.position.None? then Continue(t, Step(t, found, rest[0]), rest[0], rest[1..], firstOnly)
    else
      var hit := Select(found, Position(item), false);
      if hit == [] then [] else Continue(t, Step(t, [hit[0]], rest[0]), rest[0], rest[1..], firstOnly)
  }

  function Interpret(t: Ui, current: seq<Path>, chain: seq<Item>, firstOnly: bool): (r: seq<Path>)
    requires AllValid(t, current) && chain != []
    ensures AllValid(t, r)
  {
    Continue(t, Step(t, current, chain[0]), chain[0], chain[1..], firstOnly)
  }

  // ---------- Selection ----------

  lemma SelectedAreMatches(found: seq<Path>, position: int, firstOnly: bool)
    ensures forall p :: p in Select(found, position, firstOnly) ==> p in found
  {
  }

  /** The wrapping arithmetic of the code selects by the index law, for every 64-bit position. */
  lemma IndexLaw(t: Ui, item: Item, query: Query, firstOnly: Option<bool>)
    requires Fits(t)
    ensures MatchingElements(t, item, query, firstOnly)
         == Select(AllMatches(t, query), Position(item), firstOnly == Some(true))
  {
    if Position(item) != 0 {
      PositionLaw(AllMatches(t, query), Position(item));
    }
  }

  lemma PositionLaw(all: seq<Path>, position: NSInteger)
    requires |all| < TWO_64 && position != 0
    ensures MatchAtPosition(all, position) == Select(all, position, false)
  {
    AbsoluteValue(position);
    WrappedIndex(|all|, position);
  }

  lemma AbsoluteValue(x: NSInteger)
    ensures AsUnsigned(Abs(x)) == if x < 0 then -(x as int) else x
  {
  }

  /** Adding a negative position to an unsigned count wraps around to the index from the end. */
  lemma WrappedIndex(count: NSUInteger, position: NSInteger)
    ensures position > 0 ==> AsUnsigned(position - 1) == position - 1
    ensures position < 0 && -(position as int) <= count ==> AsUnsigned(count + AsUnsigned(position)) == count + position
  {
  }

  // ---------- A lazy query means one step of the interpreter ----------

  lemma AllAfter(head: Path, ps: seq<Path>)
    requires Sorted(ps) && ps != [] && Before(head, ps[0])
    ensures forall p :: p in ps ==> Before(head, p)
  {
    forall i | 0 < i < |ps| ensures Before(head, ps[i]) {
      BeforeTransitive(head, ps[0], ps[i]);
    }
  }

  lemma {:induction false} MergeSorted(ps: seq<Path>, qs: seq<Path>)
    requires Sorted(ps) && Sorted(qs)
    ensures Sorted(Merge(ps, qs))
    decreases |ps| + |qs|
  {
    if ps != [] && qs != [] {
      SortedTail(ps);
      SortedTail(qs);
      if ps[0] == qs[0] {
        MergeSorted(ps[1..], qs[1..]);
        SortedCons(ps[0], Merge(ps[1..], qs[1..]));
      } else if Before(ps[0], qs[0]) {
        MergeSorted(ps[1..], qs);
        AllAfter(ps[0], qs);
        SortedCons(ps[0], Merge(ps[1..], qs));
      } else {
        MergeSorted(ps, qs[1..]);
        BeforeTotal(ps[0], qs[0]);
        AllAfter(qs[0], ps);
        SortedCons(qs[0], Merge(ps, qs[1..]));
      }
    }
  }

  /** Is `p` one step along the axis from one of the current elements? */
  ghost predicate OnAxis(current: seq<Path>, isDescendant: bool, p: Path) {
    p != [] && if isDescendant then exists j :: 0 <= j < |p| && p[..j] in current else p[..|p| - 1] in current
  }

  lemma ChildMembers(t: Ui, c: Path, p: Path)
    requires Valid(t, c) && Valid(t, p)
    ensures p in ChildPaths(t, c) <==> p != [] && p[..|p| - 1] == c
  {
    if p != [] && p[..|p| - 1] == c {
      var last := p[|p| - 1];
      assert p == c + [last];
      ValidSplit(t, c, [last]);
      assert ChildPaths(t, c)[last] == p;
    }
  }

  lemma DescendantListed(t: Ui, c: Path, p: Path)
    requires Valid(t, c) && Valid(t, p) && c < p
    ensures p in DescendantPaths(t, c)
  {
    var below, d := ProperPaths(At(t, c)), p[|c|..];
    assert p == c + d;
    ValidSplit(t, c, d);
    assert d in below;
    var k :| 0 <= k < |below| && below[k] == d;
    assert Under(c, below)[k] == p;
  }

  lemma DescendantMembers(t: Ui, c: Path, p: Path)
    requires Valid(t, c) && Valid(t, p)
    ensures p in DescendantPaths(t, c) <==> exists j :: 0 <= j < |p| && p[..j] == c
  {
    if j :| 0 <= j < |p| && p[..j] == c {
      DescendantListed(t, c, p);
    }
    if p in DescendantPaths(t, c) {
      var below := ProperPaths(At(t, c));
      var k :| 0 <= k < |below| && Under(c, below)[k] == p;
      assert below[k] in below && p == c + below[k];
      assert p[..|c|] == c;
    }
  }

  lemma {:induction false} GatherMembers(t: Ui, current: seq<Path>, isDescendant: bool, p: Path)
    requires AllValid(t, current) && Valid(t, p)
    ensures p in Gather(t, current, isDescendant) <==> OnAxis(current, isDescendant, p)
  {
    if current != [] {
      ChildMembers(t, current[0], p);
      DescendantMembers(t, current[0], p);
      GatherMembers(t, current[1..], isDescendant, p);
      assert forall q :: q in current <==> q == current[0] || q in current[1..];
    }
  }

  lemma AxisSorted(t: Ui, c: Path)
    requires Valid(t, c)
    ensures Sorted(ChildPaths(t, c)) && Sorted(DescendantPaths(t, c))
  {
    BelowSorted(At(t, c), 0);
    UnderSorted(c, ProperPaths(At(t, c)));
    forall i, j | 0 <= i < j < |At(t, c).children| ensures Before(c + [i], c + [j]) {
      BeforeUnder(c, [i], [j]);
    }
  }

  lemma {:induction false} GatherSorted(t: Ui, current: seq<Path>, isDescendant: bool)
    requires AllValid(t, current)
    ensures Sorted(Gather(t, current, isDescendant))
  {
    if current != [] {
      AxisSorted(t, current[0]);
      GatherSorted(t, current[1..], isDescendant);
      MergeSorted(
        if isDescendant then DescendantPaths(t, current[0]) else ChildPaths(t, current[0]),
        Gather(t, current[1..], isDescendant));
    }
  }

  lemma {:induction false} FilterSorted(t: Ui, ps: seq<Path>, test: Test)
    requires AllValid(t, ps) && Sorted(ps)
    ensures Sorted(Filter(t, ps, test))
  {
    if ps != [] {
      SortedTail(ps);
      FilterSorted(t, ps[1..], test);
      SortedCons(ps[0], Filter(t, ps[1..], test));
    }
  }

  lemma OwnMatches(t: Ui, p: Path)
    requires Valid(t, p)
    ensures AllMatches(t, Own(p)) == [p]
  {
    SortedUnique(AllMatches(t, Own(p)), [p]);
  }

  lemma AxisMatches(t: Ui, q: Query, item: Item, p: Path)
    requires Valid(t, p)
    ensures Matches(t, AxisQuery(q, item), p)
       <==> OnAxis(AllMatches(t, q), item.isDescendant, p) && HasType(At(t, p), item.elementType)
  {
    forall j | 0 <= j <= |p| ensures Valid(t, p[..j]) {
      AncestorIsValid(t, p, j);
    }
  }

  lemma AxisIsGather(t: Ui, q: Query, item: Item)
    ensures AllMatches(t, AxisQuery(q, item))
         == Filter(t, Gather(t, AllMatches(t, q), item.isDescendant), OfType(item.elementType))
  {
    var gathered := Gather(t, AllMatches(t, q), item.isDescendant);
    GatherSorted(t, AllMatches(t, q), item.isDescendant);
    FilterSorted(t, gathered, OfType(item.elementType));
    forall p | Valid(t, p)
      ensures p in AllMatches(t, AxisQuery(q, item)) <==> p in Filter(t, gathered, OfType(item.elementType))
    {
      GatherMembers(t, AllMatches(t, q), item.isDescendant, p);
      AxisMatches(t, q, item, p);
    }
    SortedUnique(AllMatches(t, AxisQuery(q, item)), Filter(t, gathered, OfType(item.elementType)));
  }

  lemma PredicateIsFilter(t: Ui, q: Query, p: PredicateItem)
    ensures AllMatches(t, PredicateQuery(q, p)) == Filter(t, AllMatches(t, q), Satisfying(p))
  {
    FilterSorted(t, AllMatches(t, q), Satisfying(p));
    SortedUnique(AllMatches(t, PredicateQuery(q, p)), Filter(t, AllMatches(t, q), Satisfying(p)));
  }

  lemma {:induction false} FilterAllLast(t: Ui, ps: seq<Path>, items: seq<PredicateItem>)
    requires AllValid(t, ps) && items != []
    ensures FilterAll(t, ps, items)
         == Filter(t, FilterAll(t, ps, items[..|items| - 1]), Satisfying(items[|items| - 1]))
    decreases |items|
  {
    if |items| > 1 {
      FilterAllLast(t, Filter(t, ps, Satisfying(items[0])), items[1..]);
      assert items[..|items| - 1][1..] == items[1..][..|items| - 2];
    }
  }

  lemma {:induction false} PredicatesAreFilters(t: Ui, q: Query, items: seq<PredicateItem>)
    ensures AllMatches(t, PredicateQueries(q, items)) == FilterAll(t, AllMatches(t, q), items)
  {
    if items != [] {
      var front := items[..|items| - 1];
      PredicatesAreFilters(t, q, front);
      PredicateIsFilter(t, PredicateQueries(q, front), items[|items| - 1]);
      FilterAllLast(t, AllMatches(t, q), items);
    }
  }

  /** Composing an item onto a query and resolving it is one step from the query's matches. */
  lemma ItemQueryIsStep(t: Ui, q: Query, item: Item)
    ensures AllMatches(t, ItemQuery(q, item)) == Step(t, AllMatches(t, q), item)
  {
    AxisIsGather(t, q, item);
    PredicatesAreFilters(t, AxisQuery(q, item), item.predicates);
  }

  // ---------- Laws of whole chains ----------

  lemma {:induction false} FilterAllSorted(t: Ui, ps: seq<Path>, items: seq<PredicateItem>)
    requires AllValid(t, ps) && Sorted(ps)
    ensures Sorted(FilterAll(t, ps, items))
    ensures forall p :: p in FilterAll(t, ps, items) ==> p in ps
    decreases |items|
  {
    if items != [] {
      FilterSorted(t, ps, Satisfying(items[0]));
      FilterAllSorted(t, Filter(t, ps, Satisfying(items[0])), items[1..]);
    }
  }

  /** A step moves strictly down the tree. */
  lemma StepGoesDown(t: Ui, current: seq<Path>, item: Item)
    requires AllValid(t, current)
    ensures Sorted(Step(t, current, item))
    ensures forall p :: p in Step(t, current, item) ==> exists c :: c in current && c < p
  {
    var gathered := Gather(t, current, item.isDescendant);
    var typed := Filter(t, gathered, OfType(item.elementType));
    GatherSorted(t, current, item.isDescendant);
    FilterSorted(t, gathered, OfType(item.elementType));
    FilterAllSorted(t, typed, item.predicates);
    forall p | p in Step(t, current, item) ensures exists c :: c in current && c < p {
      GatherMembers(t, current, item.isDescendant, p);
      if item.isDescendant {
        var j :| 0 <= j < |p| && p[..j] in current;
        assert p[..j] < p;
      } else {
        assert p[..|p| - 1] < p;
      }
    }
  }

  /** Every chain lists proper descendants of the start elements, once each, in document order. */
  lemma {:induction false} ResultsInOrder(t: Ui, current: seq<Path>, chain: seq<Item>, firstOnly: bool)
    requires AllValid(t, current) && chain != []
    ensures Sorted(Interpret(t, current, chain, firstOnly))
    ensures forall p :: p in Interpret(t, current, chain, firstOnly) ==> exists c :: c in current && c < p
    decreases |chain|
  {
    var item, rest := chain[0], chain[1..];
    var found := Step(t, current, item);
    StepGoesDown(t, current, item);
    SelectedAreMatches(found, Position(item), firstOnly);
    SelectedAreMatches(found, Position(item), false);
    if rest != [] {
      var from := if item.position.None? then found else Select(found, Position(item), false);
      if item.position.None? {
        ResultsInOrder(t, found, rest, firstOnly);
      } else if from != [] {
        ResultsInOrder(t, [from[0]], rest, firstOnly);
      }
      forall p | p in Interpret(t, current, chain, firstOnly) ensures exists c :: c in current && c < p {
        var f :| f in found && f < p;
        var c :| c in current && c < f;
        assert c < p;
      }
    }
  }

  predicate SelectsOne(item: Item) {
    item.position.Some? && item.position.value != 0
  }

  /** A chain splits at any item with a non-zero position: the rest is looked up
  from the one element that the first part selects. */
  lemma {:induction false} ChainsCompose(
    t: Ui, current: seq<Path>, prefix: seq<Item>, item: Item, suffix: seq<Item>, firstOnly: bool, firstOfPrefix: bool)
    requires AllValid(t, current) && SelectsOne(item) && suffix != []
    ensures var hit := Interpret(t, current, prefix + [item], firstOfPrefix);
      && |hit| <= 1
      && Interpret(t, current, prefix + [item] + suffix, firstOnly)
      == if hit == [] then [] else Interpret(t, [hit[0]], suffix, firstOnly)
    decreases |prefix|
  {
    if prefix == [] {
      assert prefix + [item] == [item] && [item] + suffix == [item] + suffix;
      assert ([item] + suffix)[1..] == suffix;
    } else {
      var first := prefix[0];
      var found := Step(t, current, first);
      assert (prefix + [item])[1..] == prefix[1..] + [item];
      assert (prefix + [item] + suffix)[1..] == prefix[1..] + [item] + suffix;
      SelectedAreMatches(found, Position(first), false);
      if first.position.None? {
        ChainsCompose(t, found, prefix[1..], item, suffix, firstOnly, firstOfPrefix);
      } else {
        var hit := Select(found, Position(first), false);
        if hit != [] {
          ChainsCompose(t, [hit[0]], prefix[1..], item, suffix, firstOnly, firstOfPrefix);
        }
      }
    }
  }

  function FirstOf(ps: seq<Path>): seq<Path> {
    if ps == [] then [] else [ps[0]]
  }

  /** First-match mode cuts a lookup to its first element, unless the last item
  has a non-zero position: then both modes select the same element. */
  lemma {:induction false} FirstMatchMode(t: Ui, current: seq<Path>, chain: seq<Item>)
    requires AllValid(t, current) && chain != []
    ensures Interpret(t, current, chain, true) == FirstOf(Interpret(t, current, chain, false))
    ensures SelectsOne(chain[|chain| - 1]) ==> Interpret(t, current, chain, true) == Interpret(t, current, chain, false)
    decreases |chain|
  {
    var item, rest := chain[0], chain[1..];
    var found := Step(t, current, item);
    if rest != [] {
      assert rest[|rest| - 1] == chain[|chain| - 1];
      SelectedAreMatches(found, Position(item), false);
      if item.position.None? {
        FirstMatchMode(t, found, rest);
      } else {
        var hit := Select(found, Position(item), false);
        if hit != [] { FirstMatchMode(t, [hit[0]], rest); }
      }
    }
  }
}
