/** Searches by class name and by predicate, which also consider the start element itself. */
module ElementFind {
  import opened ElementTree
  import opened ElementQuery
  import opened ChainMeaning
  import opened ClassChain
  import opened Wrappers

  function ExtractMatchingElements(t: Ui, query: Query, firstOnly: bool): seq<Path> {
    if !firstOnly then AllMatches(t, query)
    else
      var matched := FirstMatch(t, query);
      if matched.Some? then [matched.value] else []
  }

  /** The chain of a single item that selects all descendants of a type. */
  function AnyDepth(elementType: int, predicates: seq<PredicateItem>): seq<Item> {
    [Item(elementType, None, predicates, true)]
  }

  /** The start element if it qualifies, then the qualifying descendants. */
  function SelfThenDescendants(t: Ui, self: Path, selfMatches: bool, chain: seq<Item>): seq<Path>
    requires Valid(t, self) && chain != []
  {
    (if selfMatches then [self] else []) + Interpret(t, [self], chain, false)
  }

  function ClassNameSearch(t: Ui, self: Path, elementType: int): (all: seq<Path>)
    requires Valid(t, self)
    ensures all == (if HasType(At(t, self), elementType) then [self] else [])
                 + AllMatches(t, Descendants(Own(self), elementType))
  {
    AnyDepthMatches(t, self, elementType, []);
    SelfThenDescendants(t, self, HasType(At(t, self), elementType), AnyDepth(elementType, []))
  }

  method DescendantsMatchingClassName(t: Ui, self: Path, elementType: int, firstOnly: bool)
    returns (result: seq<Path>)
    requires Valid(t, self)
    ensures
      var all := ClassNameSearch(t, self, elementType);
      result == if firstOnly then FirstOf(all) else all
  {
    var query := Descendants(Own(self), elementType);
    AnyDepthMatches(t, self, elementType, []);
    result := ExtractMatchingElements(t, query, firstOnly);
    var cachedSnapshot := At(t, self);
    if elementType == ANY_TYPE || cachedSnapshot.data.elementType == elementType {
      if firstOnly || |result| == 0 {
        return [self];
      }
      result := [self] + result;
    }
  }

  function PredicateSearch(t: Ui, self: Path, matcher: Predicate): seq<Path>
    requires Valid(t, self)
  {
    SelfThenDescendants(t, self, matcher(At(t, self)), AnyDepth(ANY_TYPE, [SelfPredicate(matcher)]))
  }

  method DescendantsMatchingPredicate(t: Ui, self: Path, matcher: Predicate, firstOnly: bool)
    returns (result: seq<Path>)
    requires Valid(t, self)
    ensures
      var all := PredicateSearch(t, self, matcher);
      result == if firstOnly then FirstOf(all) else all
  {
    var query := Matching(Descendants(Own(self), ANY_TYPE), matcher);
    AnyDepthMatches(t, self, ANY_TYPE, [SelfPredicate(matcher)]);
    result := ExtractMatchingElements(t, query, firstOnly);
    var cachedSnapshot := At(t, self);
    if matcher(cachedSnapshot) {
      if firstOnly || |result| == 0 {
        return [self];
      }
      result := [self] + result;
    }
  }

  lemma AnyDepthMatches(t: Ui, self: Path, elementType: int, predicates: seq<PredicateItem>)
    requires Valid(t, self)
    ensures AllMatches(t, PredicateQueries(Descendants(Own(self), elementType), predicates))
         == Interpret(t, [self], AnyDepth(elementType, predicates), false)
  {
    OwnMatches(t, self);
    ItemQueryIsStep(t, Own(self), AnyDepth(elementType, predicates)[0]);
  }

  /** The start element comes first, so these searches too answer in document order without repeats. */
  lemma SearchesInOrder(t: Ui, self: Path, selfMatches: bool, chain: seq<Item>)
    requires Valid(t, self) && chain != []
    ensures Sorted(SelfThenDescendants(t, self, selfMatches, chain))
  {
    var found := Interpret(t, [self], chain, false);
    ResultsInOrder(t, [self], chain, false);
    forall p | p in found ensures Before(self, p) {
      var c :| c in [self] && c < p;
      BeforeIff(self, p);
    }
    SortedCons(self, found);
  }

  lemma BelowSelf(t: Ui, self: Path, elementType: int, predicates: seq<PredicateItem>, p: Path)
    requires Valid(t, self) && Valid(t, p)
    ensures p in Interpret(t, [self], AnyDepth(elementType, predicates), false)
       <==> Leads(t, self, AnyDepth(elementType, predicates)[0], p)
  {
    var item := AnyDepth(elementType, predicates)[0];
    assert [item][1..] == [];
    StepMembers(t, [self], item, p);
  }

  lemma SelfOrBelow(self: Path, p: Path, selfMatches: bool, matches: bool, found: seq<Path>, all: seq<Path>)
    requires all == (if selfMatches then [self] else []) + found
    requires p in found <==> self < p && matches
    requires p == self ==> matches == selfMatches
    ensures p in all <==> self <= p && matches
  {
    if self <= p && |self| == |p| { assert self == p; }
  }

  /** A class-name search holds exactly the elements of that type, type 0 being any, in
  the subtree of the start element. */
  lemma ClassNameMembers(t: Ui, self: Path, elementType: int, p: Path)
    requires Valid(t, self) && Valid(t, p)
    ensures p in ClassNameSearch(t, self, elementType)
       <==> self <= p && (elementType == 0 || At(t, p).data.elementType == elementType)
  {
    var chain := AnyDepth(elementType, []);
    BelowSelf(t, self, elementType, [], p);
    SelfOrBelow(self, p, HasType(At(t, self), elementType), HasType(At(t, p), elementType),
      Interpret(t, [self], chain, false), SelfThenDescendants(t, self, HasType(At(t, self), elementType), chain));
  }

  /** A predicate search holds exactly the elements in that subtree that satisfy the predicate. */
  lemma PredicateMembers(t: Ui, self: Path, matcher: Predicate, p: Path)
    requires Valid(t, self) && Valid(t, p)
    ensures p in PredicateSearch(t, self, matcher) <==> self <= p && matcher(At(t, p))
  {
    var item, chain := SelfPredicate(matcher), AnyDepth(ANY_TYPE, [SelfPredicate(matcher)]);
    BelowSelf(t, self, ANY_TYPE, [item], p);
    assert [item][0] == item && (Holds(At(t, p), item) <==> matcher(At(t, p)));
    SelfOrBelow(self, p, matcher(At(t, self)), matcher(At(t, p)), Interpret(t, [self], chain, false),
      PredicateSearch(t, self, matcher));
  }
}
