/** Writing a chain as the text of a query, and getting it back by parsing. */
module ChainRoundTrip {
  import opened Wrappers
  import opened ChainTokens
  import opened ChainParser
  import opened ChainText
  import opened ChainSpelled
  import opened ChainGrammar

  lemma SpelledIsExpressible(env: Environment, chain: seq<ParsedItem>, sps: seq<Spelling>)
    requires AllSpell(env, chain, sps)
    ensures AllExpressible(env.legal, chain)
  {
    forall i | 0 <= i < |chain| ensures ItemExpressible(env.legal, chain[i]) {
      assert Spells(env, chain[i], sps[i]);
    }
  }

  /** No query gives a chain that is not expressible. */
  lemma ParsedIsExpressible(env: Environment, query: string)
    requires query != "" && Parsed(env, query).Some?
    ensures AllExpressible(env.legal, Parsed(env, query).value)
  {
    var chain := Parsed(env, query).value;
    ParsedIsSpelled(env, query);
    var sps :| AllSpell(env, chain, sps) && SpelledChain(env, chain, sps) == query;
    SpelledIsExpressible(env, chain, sps);
  }

  lemma TextIsNotEmpty(env: Environment, chain: seq<ParsedItem>)
    requires chain != [] && AllSensible(env, chain)
    ensures QueryText(env, chain) != ""
  {
    assert Sensible(env, chain[0]) && chain[0].typeName != "";
    assert ItemText(env, chain[0]) != "";
  }

  /** Writing a chain as a query and parsing it gives the chain back, exactly when no
  predicate in it is empty, starts with its own enclosing marker or holds an illegal
  character, and no position reads as zero in 32 bits. */
  lemma RoundTripIff(env: Environment, chain: seq<ParsedItem>)
    requires chain != [] && AllSensible(env, chain)
    ensures QueryText(env, chain) != ""
    ensures Parsed(env, QueryText(env, chain)) == Some(chain) <==> AllExpressible(env.legal, chain)
  {
    TextIsNotEmpty(env, chain);
    if AllExpressible(env.legal, chain) {
      CanonicalSpells(env, chain);
      QueryTextIsSpelled(env, chain);
      SpelledIsParsed(env, chain, Canonicals(env, chain));
    } else if Parsed(env, QueryText(env, chain)) == Some(chain) {
      ParsedIsExpressible(env, QueryText(env, chain));
    }
  }

  // ---------- Where the language is wider than documented ----------

  /** The slash of the descendant marker may be left out, or be a third star, in front of a name. */
  lemma MarkerWithoutSlash(env: Environment, name: string)
    requires IsName(name) && name in env.known
    ensures "**" + name != "" && "***" + name != ""
    ensures Parsed(env, "**" + name) == Parsed(env, "***" + name) == Some([ParsedItem(name, None, [], true)])
  {
    MarkerSpells(env, name, "**");
    MarkerSpells(env, name, "***");
  }

  lemma MarkerSpells(env: Environment, name: string, marker: string)
    requires IsName(name) && name in env.known && (marker == "**" || marker == "***")
    ensures marker + name != ""
    ensures Parsed(env, marker + name) == Some([ParsedItem(name, None, [], true)])
  {
    var item, sp := ParsedItem(name, None, [], true), Spelling(marker, [], "");
    assert IsLetter(name[0]);
    assert AllSpell(env, [item], [sp]);
    assert SpelledChain(env, [item], [sp]) == marker + name;
    SpelledIsParsed(env, [item], [sp]);
  }
}
