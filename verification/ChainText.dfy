/** Writing a chain as the text of a query. */
module ChainText {
  import opened Wrappers
  import opened ChainTokens
  import opened ChainParser
  import opened MachineIntegers

  lemma Regroup<T>(a: seq<T>, b: seq<T>, c: seq<T>)
    ensures a + (b + c) == a + b + c
  {
  }

  // ---------- The text of a chain ----------

  function KindOf(p: ParsedPredicate): Kind {
    if p.onDescendants then DescendantPredicate else SelfPredicate
  }

  /** The text with each enclosing marker in it doubled. */
  function Escaped(text: string, marker: char): string {
    if text == "" then ""
    else (if text[0] == marker then [marker, marker] else [text[0]]) + Escaped(text[1..], marker)
  }

  function PredicateText(p: ParsedPredicate): string {
    var marker := EnclosingMarker(KindOf(p));
    "[" + [marker] + Escaped(p.text, marker) + [marker] + "]"
  }

  function PredicatesText(ps: seq<ParsedPredicate>): string {
    if ps == [] then "" else PredicateText(ps[0]) + PredicatesText(ps[1..])
  }

  function PositionText(env: Environment, position: Option<NSInteger>): string {
    if position.None? then "" else "[" + env.write(position.value) + "]"
  }

  function ItemText(env: Environment, item: ParsedItem): string {
    (if item.isDescendant then DESCENDANT_MARKER else "")
    + item.typeName + (PredicatesText(item.predicates) + PositionText(env, item.position))
  }

  function QueryText(env: Environment, chain: seq<ParsedItem>): string
    requires chain != []
    decreases |chain|, 1
  {
    ItemText(env, chain[0]) + RestText(env, chain)
  }

  function RestText(env: Environment, chain: seq<ParsedItem>): string
    requires chain != []
    decreases |chain|, 0
  {
    if |chain| == 1 then "" else "/" + QueryText(env, chain[1..])
  }

  // ---------- How the text grows, character by character ----------

  lemma TextOfType(env: Environment, name: string)
    ensures QueryText(env, [ParsedItem(name, None, [], false)]) == name
    ensures QueryText(env, [ParsedItem(name, None, [], true)]) == "**/" + name
  {
    assert "" + name + ("" + "") == name && name + "" == name;
  }

  /** A further item is written after a slash. */
  lemma {:induction false} TextWithItem(env: Environment, front: seq<ParsedItem>, item: ParsedItem)
    requires front != []
    ensures QueryText(env, front + [item]) == QueryText(env, front) + "/" + QueryText(env, [item])
    decreases |front|
  {
    var chain := front + [item];
    assert chain[1..] == front[1..] + [item] && chain[0] == front[0];
    if |front| == 1 {
      assert chain[1..] == [item] && RestText(env, front) == "";
    } else {
      TextWithItem(env, front[1..], item);
      var first, rest, last := ItemText(env, front[0]), QueryText(env, front[1..]), QueryText(env, [item]);
      assert first + ("/" + (rest + "/" + last)) == first + ("/" + rest) + "/" + last;
    }
  }

  lemma {:induction false} PredicatesTextLast(ps: seq<ParsedPredicate>, p: ParsedPredicate)
    ensures PredicatesText(ps + [p]) == PredicatesText(ps) + PredicateText(p)
  {
    var all := ps + [p];
    if ps == [] {
      assert all == [p] && [p][1..] == [];
    } else {
      assert all[1..] == ps[1..] + [p] && all[0] == ps[0];
      PredicatesTextLast(ps[1..], p);
    }
  }

  /** A further predicate is written in brackets: in backticks if it is on the element
  itself, in dollar signs if it is on its descendants. */
  lemma TextWithPredicate(env: Environment, item: ParsedItem, p: ParsedPredicate)
    requires item.position.None?
    ensures QueryText(env, [item.(predicates := item.predicates + [p])]) == QueryText(env, [item]) +
      if p.onDescendants then "[$" + Escaped(p.text, '$') + "$]" else "[`" + Escaped(p.text, '`') + "`]"
  {
    var more := item.(predicates := item.predicates + [p]);
    var head, text := (if item.isDescendant then DESCENDANT_MARKER else "") + item.typeName, PredicateText(p);
    TextOfOne(env, item);
    TextOfOne(env, more);
    PredicatesTextLast(item.predicates, p);
    TextAssociates(head, PredicatesText(item.predicates), text);
    PredicateTextIs(p);
  }

  lemma PredicateTextIs(p: ParsedPredicate)
    ensures PredicateText(p) ==
      if p.onDescendants then "[$" + Escaped(p.text, '$') + "$]" else "[`" + Escaped(p.text, '`') + "`]"
  {
    var marker := EnclosingMarker(KindOf(p));
    var escaped := Escaped(p.text, marker);
    assert "[" + [marker] + escaped + [marker] + "]" == ("[" + [marker]) + escaped + ([marker] + "]");
  }

  lemma TextOfOne(env: Environment, item: ParsedItem)
    ensures QueryText(env, [item]) ==
      (if item.isDescendant then DESCENDANT_MARKER else "") + item.typeName
      + (PredicatesText(item.predicates) + PositionText(env, item.position))
  {
    var text := ItemText(env, item);
    assert RestText(env, [item]) == "" && text + "" == text;
  }

  lemma TextAssociates(head: string, a: string, b: string)
    ensures head + (a + b + "") == head + (a + "") + b
    ensures head + (a + b) == head + (a + "") + b
  {
  }

  /** In an escaped text each marker is written twice and every other character once. */
  lemma {:induction false} EscapedLast(text: string, c: char, marker: char)
    ensures Escaped("", marker) == ""
    ensures Escaped(text + [c], marker) == Escaped(text, marker) + if c == marker then [c, c] else [c]
    decreases |text|
  {
    if text == "" {
      assert (text + [c])[1..] == "";
    } else {
      var head := if text[0] == marker then [marker, marker] else [text[0]];
      assert (text + [c])[1..] == text[1..] + [c] && (text + [c])[0] == text[0];
      EscapedLast(text[1..], c, marker);
      Regroup(head, Escaped(text[1..], marker), if c == marker then [c, c] else [c]);
    }
  }

  lemma OneTextWithPosition(env: Environment, item: ParsedItem)
    requires item.position.Some?
    ensures QueryText(env, [item])
         == QueryText(env, [item.(position := None)]) + ("[" + env.write(item.position.value) + "]")
  {
    var head := (if item.isDescendant then DESCENDANT_MARKER else "") + item.typeName;
    TextOfOne(env, item);
    TextOfOne(env, item.(position := None));
    TextAssociates(head, PredicatesText(item.predicates), PositionText(env, item.position));
  }

  /** A position is written last, in brackets. */
  lemma TextWithPosition(env: Environment, front: seq<ParsedItem>, item: ParsedItem)
    requires item.position.Some?
    ensures QueryText(env, front + [item])
         == QueryText(env, front + [item.(position := None)]) + "[" + env.write(item.position.value) + "]"
  {
    var free, text := item.(position := None), env.write(item.position.value);
    OneTextWithPosition(env, item);
    Regroup(QueryText(env, front + [free]), "[" + text, "]");
    Regroup(QueryText(env, front + [free]), "[", text);
    if front == [] {
      assert front + [item] == [item] && front + [free] == [free];
    } else {
      TextWithItem(env, front, item);
      TextWithItem(env, front, free);
      Regroup(QueryText(env, front) + "/", QueryText(env, [free]), "[" + text + "]");
    }
  }

  lemma LettersAndDigits(c: char)
    ensures CanConsume(ClassName, c) <==> 65 <= c as int <= 90 || 97 <= c as int <= 122
    ensures CanConsume(Number, c) <==> 48 <= c as int <= 57 || c as int == 45
  {
  }

  lemma IntValueIsZeroIff(p: NSInteger)
    ensures IntValueIsZero(p) <==> exists n: int :: p == 4294967296 * n
  {
    if IntValueIsZero(p) { assert p == 4294967296 * (p / 0x1_0000_0000); }
  }

  // ---------- Which chains have a text ----------

  predicate AllLegal(legal: CharacterSet, text: string) {
    forall i :: 0 <= i < |text| ==> legal(text[i])
  }

  /** Can the predicate be written down? A marker in front would be taken for the opening one. */
  predicate Expressible(legal: CharacterSet, p: ParsedPredicate) {
    p.text != "" && p.text[0] != EnclosingMarker(KindOf(p)) && AllLegal(legal, p.text)
  }

  predicate ItemExpressible(legal: CharacterSet, item: ParsedItem) {
    && (forall j :: 0 <= j < |item.predicates| ==> Expressible(legal, item.predicates[j]))
    && (item.position.Some? ==> !IntValueIsZero(item.position.value))
  }

  /** No predicate is empty, starts with its own enclosing marker or holds an illegal
  character, and no position is a multiple of two to the power of 32. */
  predicate AllExpressible(legal: CharacterSet, chain: seq<ParsedItem>) {
    forall i :: 0 <= i < |chain| ==> ItemExpressible(legal, chain[i])
  }

  predicate IsName(name: string) {
    name != "" && forall i :: 0 <= i < |name| ==> IsLetter(name[i])
  }

  predicate IsNumber(text: string) {
    text != "" && forall i :: 0 <= i < |text| ==> CanConsume(Number, text[i])
  }

  /** Known types, and positions that are written as numbers and read back. */
  predicate Sensible(env: Environment, item: ParsedItem) {
    && (item.typeName == ANY || (IsName(item.typeName) && item.typeName in env.known))
    && (item.position.Some? ==>
          && IsNumber(env.write(item.position.value))
          && env.read(env.write(item.position.value)) == item.position)
  }

  predicate AllSensible(env: Environment, chain: seq<ParsedItem>) {
    forall i :: 0 <= i < |chain| ==> Sensible(env, chain[i])
  }

  // ---------- All ways to write a chain ----------

  /** How an item is written, where there is a choice: the descendant marker, how often
  the opening marker of each predicate is repeated, and the digits of the position. */
  datatype Spelling = Spelling(marker: string, repeats: seq<nat>, number: string)

  function Repeated(c: char, n: nat): string {
    if n == 0 then "" else [c] + Repeated(c, n - 1)
  }

  function SpelledPredicate(p: ParsedPredicate, repeats: nat): string {
    var marker := EnclosingMarker(KindOf(p));
    "[" + [marker] + Repeated(marker, repeats) + Escaped(p.text, marker) + [marker] + "]"
  }

  function SpelledPredicates(ps: seq<ParsedPredicate>, repeats: seq<nat>): string
    requires |ps| == |repeats|
  {
    if ps == [] then "" else SpelledPredicate(ps[0], repeats[0]) + SpelledPredicates(ps[1..], repeats[1..])
  }

  function SpelledPosition(position: Option<NSInteger>, number: string): string {
    if position.None? then "" else "[" + number + "]"
  }

  function SpelledMarker(item: ParsedItem, sp: Spelling): string {
    if item.isDescendant then sp.marker else ""
  }

  function SpelledDetails(item: ParsedItem, sp: Spelling): string
    requires |item.predicates| == |sp.repeats|
  {
    SpelledPredicates(item.predicates, sp.repeats) + SpelledPosition(item.position, sp.number)
  }

  function SpelledItem(item: ParsedItem, sp: Spelling): string
    requires |item.predicates| == |sp.repeats|
  {
    SpelledMarker(item, sp) + item.typeName + SpelledDetails(item, sp)
  }

  /** Is this a way to write the item? The slash after the two stars may be missing or be
  a third star, except in front of the type `*`. */
  predicate Spells(env: Environment, item: ParsedItem, sp: Spelling) {
    && (item.typeName == ANY || (IsName(item.typeName) && item.typeName in env.known))
    && (item.isDescendant ==>
          sp.marker == "**/" || (item.typeName != ANY && (sp.marker == "**" || sp.marker == "***")))
    && |item.predicates| == |sp.repeats|
    && (forall j :: 0 <= j < |item.predicates| ==> Expressible(env.legal, item.predicates[j]))
    && (item.position.Some? ==>
          && IsNumber(sp.number) && env.read(sp.number) == item.position
          && !IntValueIsZero(item.position.value))
  }

  predicate AllSpell(env: Environment, chain: seq<ParsedItem>, sps: seq<Spelling>) {
    |chain| == |sps| && forall i :: 0 <= i < |chain| ==> Spells(env, chain[i], sps[i])
  }

  function SpelledChain(env: Environment, chain: seq<ParsedItem>, sps: seq<Spelling>): string
    requires chain != [] && AllSpell(env, chain, sps)
    decreases |chain|, 1
  {
    SpelledItem(chain[0], sps[0]) + SpelledRest(env, chain, sps)
  }

  function SpelledRest(env: Environment, chain: seq<ParsedItem>, sps: seq<Spelling>): string
    requires chain != [] && AllSpell(env, chain, sps)
    decreases |chain|, 0
  {
    if |chain| == 1 then "" else "/" + SpelledChain(env, chain[1..], sps[1..])
  }

  // ---------- The text of a chain is one of them ----------

  function Canonical(env: Environment, item: ParsedItem): Spelling {
    Spelling(
      DESCENDANT_MARKER,
      seq(|item.predicates|, _ => 0),
      if item.position.Some? then env.write(item.position.value) else "")
  }

  function Canonicals(env: Environment, chain: seq<ParsedItem>): seq<Spelling> {
    seq(|chain|, i requires 0 <= i < |chain| => Canonical(env, chain[i]))
  }

  lemma CanonicalSpells(env: Environment, chain: seq<ParsedItem>)
    requires AllSensible(env, chain) && AllExpressible(env.legal, chain)
    ensures AllSpell(env, chain, Canonicals(env, chain))
  {
    forall i | 0 <= i < |chain| ensures Spells(env, chain[i], Canonicals(env, chain)[i]) {
      assert Sensible(env, chain[i]) && ItemExpressible(env.legal, chain[i]);
    }
  }

  lemma {:induction false} PredicatesTextIsSpelled(ps: seq<ParsedPredicate>, repeats: seq<nat>)
    requires |ps| == |repeats| && forall j :: 0 <= j < |repeats| ==> repeats[j] == 0
    ensures SpelledPredicates(ps, repeats) == PredicatesText(ps)
    decreases |ps|
  {
    if ps != [] {
      var marker := EnclosingMarker(KindOf(ps[0]));
      assert "[" + [marker] + Repeated(marker, 0) == "[" + [marker];
      PredicatesTextIsSpelled(ps[1..], repeats[1..]);
    }
  }

  lemma ItemTextIsSpelled(env: Environment, item: ParsedItem)
    ensures SpelledItem(item, Canonical(env, item)) == ItemText(env, item)
  {
    PredicatesTextIsSpelled(item.predicates, Canonical(env, item).repeats);
  }

  lemma {:induction false} QueryTextIsSpelled(env: Environment, chain: seq<ParsedItem>)
    requires chain != [] && AllSpell(env, chain, Canonicals(env, chain))
    ensures SpelledChain(env, chain, Canonicals(env, chain)) == QueryText(env, chain)
    decreases |chain|
  {
    ItemTextIsSpelled(env, chain[0]);
    if |chain| > 1 {
      assert Canonicals(env, chain)[1..] == Canonicals(env, chain[1..]);
      QueryTextIsSpelled(env, chain[1..]);
    }
  }
}
