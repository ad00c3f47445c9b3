/** Searching with the text of a class chain query: parsing, then lookup. */
module ClassChainSearch {
  import opened ElementTree
  import opened ElementQuery
  import opened ClassChain
  import opened ChainMeaning
  import opened Wrappers
  import P = ChainParser
  import R = ChainText
  import ChainGrammar
  import ChainRoundTrip

  /** The foreign meaning of class names and predicate strings. */
  datatype Meaning = Meaning(parser: P.Environment, typeOf: string -> int, predicateOf: string -> Predicate)

  function PredicateItemOf(m: Meaning, p: P.ParsedPredicate): PredicateItem {
    if p.onDescendants then DescendantPredicate(m.predicateOf(p.text)) else SelfPredicate(m.predicateOf(p.text))
  }

  function ItemOf(m: Meaning, item: P.ParsedItem): Item {
    Item(
      if item.typeName == P.ANY then ANY_TYPE else m.typeOf(item.typeName),
      item.position,
      seq(|item.predicates|, i requires 0 <= i < |item.predicates| => PredicateItemOf(m, item.predicates[i])),
      item.isDescendant)
  }

  function ChainOf(m: Meaning, items: seq<P.ParsedItem>): seq<Item> {
    seq(|items|, i requires 0 <= i < |items| => ItemOf(m, items[i]))
  }

  /** What a search with a query string comes to. */
  function Search(m: Meaning, t: Ui, self: Path, query: string, firstOnly: bool): (r: Result<seq<Path>, Error>)
    requires Valid(t, self) && query != ""
    ensures r.Success? ==> AllValid(t, r.value)
  {
    match P.Parsed(m.parser, query)
    case None => Failure(ClassChainQueryParseException)
    case Some(items) => Success(Interpret(t, [self], ChainOf(m, items), firstOnly))
  }

  method DescendantsMatchingQuery(m: Meaning, t: Ui, self: Path, query: string, firstOnly: bool)
    returns (r: Result<seq<Path>, Error>)
    requires Valid(t, self) && Fits(t) && query != ""
    ensures r == Search(m, t, self, query, firstOnly)
  {
    var items := P.ParseQuery(m.parser, query);
    var chain := if items.Some? then Some(ChainOf(m, items.value)) else None;
    r := DescendantsMatchingClassChain(t, self, chain, firstOnly);
  }

  // ---------- From the text of a chain to what is found ----------

  /** Can the chain be written as a query? */
  predicate Writable(m: Meaning, chain: seq<P.ParsedItem>) {
    chain != [] && R.AllSensible(m.parser, chain) && R.AllExpressible(m.parser.legal, chain)
  }

  lemma TextIsParsed(m: Meaning, t: Ui, self: Path, chain: seq<P.ParsedItem>, firstOnly: bool)
    requires Valid(t, self) && Writable(m, chain)
    ensures R.QueryText(m.parser, chain) != ""
    ensures Search(m, t, self, R.QueryText(m.parser, chain), firstOnly)
         == Success(Interpret(t, [self], ChainOf(m, chain), firstOnly))
  {
    ChainRoundTrip.RoundTripIff(m.parser, chain);
  }

  /** What the search with the text of a chain finds; the empty chain finds the start element. */
  function Found(m: Meaning, t: Ui, self: Path, chain: seq<P.ParsedItem>): (r: seq<Path>)
    requires Valid(t, self) && (chain != [] ==> Writable(m, chain))
    ensures AllValid(t, r)
  {
    if chain == [] then [self]
    else
      TextIsParsed(m, t, self, chain, false);
      Search(m, t, self, R.QueryText(m.parser, chain), false).value
  }

  lemma FoundByChain(m: Meaning, t: Ui, self: Path, chain: seq<P.ParsedItem>)
    requires Valid(t, self) && Writable(m, chain)
    ensures Found(m, t, self, chain) == Interpret(t, [self], ChainOf(m, chain), false)
  {
    TextIsParsed(m, t, self, chain, false);
  }

  lemma ChainOfFront(m: Meaning, front: seq<P.ParsedItem>, item: P.ParsedItem)
    ensures ChainOf(m, front + [item]) == ChainOf(m, front) + [ItemOf(m, item)]
  {
  }

  lemma WritableFront(m: Meaning, front: seq<P.ParsedItem>, item: P.ParsedItem)
    requires Writable(m, front + [item])
    ensures front != [] ==> Writable(m, front) && Definite(ChainOf(m, front))
    ensures Writable(m, front + [item.(position := None)])
  {
    var chain, freed := front + [item], front + [item.(position := None)];
    assert forall i :: 0 <= i < |front| ==> front[i] == chain[i] && freed[i] == chain[i];
    assert chain[|front|] == item && freed[|front|] == item.(position := None);
    assert R.Sensible(m.parser, item) && R.ItemExpressible(m.parser.legal, item);
    forall i | 0 <= i < |front| ensures R.Sensible(m.parser, front[i]) && R.ItemExpressible(m.parser.legal, front[i]) {
      assert R.Sensible(m.parser, chain[i]) && R.ItemExpressible(m.parser.legal, chain[i]);
    }
  }

  /** Does the predicate text hold: of the element if it is written in backticks, of
  something below it if it is written in dollar signs? */
  ghost predicate TextHolds(m: Meaning, node: Ui, p: P.ParsedPredicate) {
    if p.onDescendants then exists d :: d != [] && Valid(node, d) && m.predicateOf(p.text)(At(node, d))
    else m.predicateOf(p.text)(node)
  }

  lemma LeadsByText(m: Meaning, t: Ui, c: Path, item: P.ParsedItem, p: Path)
    requires Valid(t, p)
    ensures Leads(t, c, ItemOf(m, item), p) <==>
      && c < p && (item.isDescendant || |p| == |c| + 1)
      && (item.typeName == "*" || m.typeOf(item.typeName) == 0 || At(t, p).data.elementType == m.typeOf(item.typeName))
      && forall j :: 0 <= j < |item.predicates| ==> TextHolds(m, At(t, p), item.predicates[j])
  {
    forall j | 0 <= j < |item.predicates|
      ensures Holds(At(t, p), ItemOf(m, item).predicates[j]) <==> TextHolds(m, At(t, p), item.predicates[j])
    {
    }
  }

  lemma FoundByStep(m: Meaning, t: Ui, self: Path, front: seq<P.ParsedItem>, item: P.ParsedItem)
    requires Valid(t, self) && Writable(m, front + [item]) && item.position.None?
    requires front != [] ==> Writable(m, front)
    ensures Found(m, t, self, front + [item]) == Step(t, Found(m, t, self, front), ItemOf(m, item))
  {
    var last := ItemOf(m, item);
    FoundByChain(m, t, self, front + [item]);
    ChainOfFront(m, front, item);
    if front == [] {
      OneStep(t, self, last);
      assert ChainOf(m, front) + [last] == [last];
    } else {
      WritableFront(m, front, item);
      FoundByChain(m, t, self, front);
      LastStep(t, [self], ChainOf(m, front), last);
    }
  }

  lemma OneStep(t: Ui, self: Path, item: Item)
    requires Valid(t, self) && item.position.None?
    ensures Interpret(t, [self], [item], false) == Step(t, [self], item)
  {
    assert [item][1..] == [];
  }

  /** The search with the text of a chain lists, in document order, what its last item
  leads to from something that the text before it finds: along its axis, to elements
  of its type, where `*` is any, that pass its predicates. */
  lemma LastItemFinds(m: Meaning, t: Ui, self: Path, front: seq<P.ParsedItem>, item: P.ParsedItem, p: Path)
    requires Valid(t, self) && Writable(m, front + [item]) && item.position.None?
    requires front != [] ==> Writable(m, front)
    ensures Sorted(Found(m, t, self, front + [item]))
    ensures p in Found(m, t, self, front + [item]) <==>
      && Valid(t, p)
      && (exists c :: c in Found(m, t, self, front) && c < p && (item.isDescendant || |p| == |c| + 1))
      && (item.typeName == "*" || m.typeOf(item.typeName) == 0 || At(t, p).data.elementType == m.typeOf(item.typeName))
      && forall j :: 0 <= j < |item.predicates| ==> TextHolds(m, At(t, p), item.predicates[j])
  {
    var from := Found(m, t, self, front);
    FoundByStep(m, t, self, front, item);
    StepGoesDown(t, from, ItemOf(m, item));
    StepMembers(t, from, ItemOf(m, item), p);
    if Valid(t, p) {
      forall c { LeadsByText(m, t, c, item, p); }
    }
  }

  lemma PositionPicks(m: Meaning, t: Ui, self: Path, front: seq<P.ParsedItem>, item: P.ParsedItem, firstOnly: bool)
    requires Valid(t, self) && item.position.Some? && item.position.value != 0
    requires Writable(m, front + [item.(position := None)])
    ensures Interpret(t, [self], ChainOf(m, front + [item]), firstOnly)
         == Picked(Found(m, t, self, front + [item.(position := None)]), item.position.value)
  {
    var free := item.(position := None);
    FoundByChain(m, t, self, front + [free]);
    ChainOfFront(m, front, item);
    ChainOfFront(m, front, free);
    assert ItemOf(m, free) == ItemOf(m, item).(position := None);
    LastPicks(t, [self], ChainOf(m, front), ItemOf(m, item), item.position.value, firstOnly);
  }

  lemma PositionIsNotZero(m: Meaning, front: seq<P.ParsedItem>, item: P.ParsedItem)
    requires Writable(m, front + [item]) && item.position.Some?
    ensures item.position.value != 0
  {
    assert (front + [item])[|front|] == item && R.ItemExpressible(m.parser.legal, item);
  }

  /** Adding a position to the text of a chain selects the k-th of what it finds, or the k-th from the end. */
  lemma PositionSelects(m: Meaning, t: Ui, self: Path, front: seq<P.ParsedItem>, item: P.ParsedItem, firstOnly: bool)
    requires Valid(t, self) && Writable(m, front + [item]) && item.position.Some?
    requires Writable(m, front + [item.(position := None)])
    ensures var query := R.QueryText(m.parser, front + [item.(position := None)]);
      var k, all := item.position.value, Found(m, t, self, front + [item.(position := None)]);
      Search(m, t, self, query + "[" + m.parser.write(k) + "]", firstOnly) == Success(
        if 1 <= k <= |all| then [all[k - 1]] else if 1 <= -(k as int) <= |all| then [all[|all| + k]] else [])
  {
    TextIsParsed(m, t, self, front + [item], firstOnly);
    R.TextWithPosition(m.parser, front, item);
    PositionIsNotZero(m, front, item);
    PositionPicks(m, t, self, front, item, firstOnly);
  }

  /** A search that stops at the first match gives the first of what it would find. */
  lemma FirstFound(m: Meaning, t: Ui, self: Path, chain: seq<P.ParsedItem>)
    requires Valid(t, self) && Writable(m, chain)
    ensures R.QueryText(m.parser, chain) != ""
    ensures var all := Found(m, t, self, chain);
      Search(m, t, self, R.QueryText(m.parser, chain), true) == Success(if all == [] then [] else [all[0]])
  {
    TextIsParsed(m, t, self, chain, true);
    FoundByChain(m, t, self, chain);
    FirstMatchMode(t, [self], ChainOf(m, chain));
  }

  /** Which items these laws speak of: those with a known name, with predicate texts that are
  legal and do not start with their own marker, and with a position that can be read back. */
  lemma ItemWritableIff(m: Meaning, item: P.ParsedItem)
    ensures Writable(m, [item]) <==>
      && (item.typeName == "*"
          || (item.typeName in m.parser.known && item.typeName != ""
              && forall j :: 0 <= j < |item.typeName| ==>
                   var c := item.typeName[j]; 'a' <= c <= 'z' || 'A' <= c <= 'Z'))
      && (forall j :: 0 <= j < |item.predicates| ==>
            var p := item.predicates[j];
            && p.text != "" && p.text[0] != (if p.onDescendants then '$' else '`')
            && forall k :: 0 <= k < |p.text| ==> m.parser.legal(p.text[k]))
      && (item.position.Some? ==>
            var k := item.position.value;
            && k % 4294967296 != 0 && m.parser.read(m.parser.write(k)) == Some(k)
            && m.parser.write(k) != ""
            && forall j :: 0 <= j < |m.parser.write(k)| ==>
                 var c := m.parser.write(k)[j]; '0' <= c <= '9' || c == '-')
  {
    assert Writable(m, [item]) <==> R.Sensible(m.parser, item) && R.ItemExpressible(m.parser.legal, item) by {
      assert [item][0] == item;
    }
    assert forall j :: 0 <= j < |item.predicates| ==>
      (R.Expressible(m.parser.legal, item.predicates[j]) <==>
        var p := item.predicates[j];
        && p.text != "" && p.text[0] != (if p.onDescendants then '$' else '`')
        && forall k :: 0 <= k < |p.text| ==> m.parser.legal(p.text[k]));
  }

  lemma WritableItems(m: Meaning, chain: seq<P.ParsedItem>)
    ensures Writable(m, chain) <==> chain != [] && forall i :: 0 <= i < |chain| ==> Writable(m, [chain[i]])
  {
    forall i | 0 <= i < |chain|
      ensures Writable(m, [chain[i]]) <==>
        R.Sensible(m.parser, chain[i]) && R.ItemExpressible(m.parser.legal, chain[i])
    {
      assert [chain[i]][0] == chain[i];
    }
  }

  /** All spellings of a chain find the same. */
  lemma SpellingsAgree(
    m: Meaning, t: Ui, self: Path, chain: seq<P.ParsedItem>, query: string, other: string, firstOnly: bool)
    requires Valid(t, self) && query != "" && other != ""
    requires ChainGrammar.IsSpelling(m.parser, query, chain) && ChainGrammar.IsSpelling(m.parser, other, chain)
    ensures Search(m, t, self, query, firstOnly) == Search(m, t, self, other, firstOnly)
  {
    ChainGrammar.ParsesIff(m.parser, query, chain);
    ChainGrammar.ParsesIff(m.parser, other, chain);
  }

  /** A search fails with the parse error exactly when the query spells no chain. */
  lemma FailsIff(m: Meaning, t: Ui, self: Path, query: string, firstOnly: bool)
    requires Valid(t, self) && query != ""
    ensures Search(m, t, self, query, firstOnly) == Failure(ClassChainQueryParseException)
       <==> forall chain :: !ChainGrammar.IsSpelling(m.parser, query, chain)
  {
    forall chain
      ensures P.Parsed(m.parser, query) == Some(chain) <==> ChainGrammar.IsSpelling(m.parser, query, chain)
    {
      ChainGrammar.ParsesIff(m.parser, query, chain);
    }
  }
}
