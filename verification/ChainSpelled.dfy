/** Every spelling of a chain is parsed as that chain. */
module ChainSpelled {
  import opened Wrappers
  import opened ChainTokens
  import opened ChainParser
  import opened ChainText
  import opened MachineIntegers

  // ---------- The tokens of a spelled chain ----------

  const SPLITTER := Token(Splitter, "/", false, 0)
  const OPENING := Token(OpeningBracket, "[", false, 0)
  const CLOSING := Token(ClosingBracket, "]", false, 0)

  /** Only the marker at the start of a query is recognised as a whole; any other replaces a star. */
  function MarkerToken(marker: string, isFirst: bool): Token {
    Token(DescendantMarker, marker, false, if isFirst && marker == DESCENDANT_MARKER then 0 else 1)
  }

  function TypeToken(typeName: string): Token {
    Token(if typeName == ANY then Star else ClassName, typeName, false, 0)
  }

  function PredicateTokens(p: ParsedPredicate): seq<Token> {
    [OPENING, Token(KindOf(p), p.text, true, 0), CLOSING]
  }

  function PredicatesTokens(ps: seq<ParsedPredicate>): seq<Token> {
    if ps == [] then [] else PredicateTokens(ps[0]) + PredicatesTokens(ps[1..])
  }

  function PositionTokens(position: Option<NSInteger>, number: string): seq<Token> {
    if position.None? then [] else [OPENING, Token(Number, number, false, 0), CLOSING]
  }

  function MarkerTokens(item: ParsedItem, sp: Spelling, isFirst: bool): seq<Token> {
    if item.isDescendant then [MarkerToken(sp.marker, isFirst)] else []
  }

  function DetailTokens(item: ParsedItem, sp: Spelling): seq<Token> {
    PredicatesTokens(item.predicates) + PositionTokens(item.position, sp.number)
  }

  function ItemTokens(item: ParsedItem, sp: Spelling, isFirst: bool): seq<Token> {
    MarkerTokens(item, sp, isFirst) + [TypeToken(item.typeName)] + DetailTokens(item, sp)
  }

  function ChainTokensOf(chain: seq<ParsedItem>, sps: seq<Spelling>, isFirst: bool): seq<Token>
    requires chain != [] && |chain| == |sps|
    decreases |chain|, 1
  {
    ItemTokens(chain[0], sps[0], isFirst) + RestTokens(chain, sps)
  }

  function RestTokens(chain: seq<ParsedItem>, sps: seq<Spelling>): seq<Token>
    requires chain != [] && |chain| == |sps|
    decreases |chain|, 0
  {
    if |chain| == 1 then [] else [SPLITTER] + ChainTokensOf(chain[1..], sps[1..], false)
  }

  // ---------- The tokenizer finds them ----------

  function AsState(ts: seq<Token>): State
    requires ts != []
  {
    State(ts[..|ts| - 1], ts[|ts| - 1])
  }

  function Last(ts: seq<Token>): Token
    requires ts != []
  {
    ts[|ts| - 1]
  }

  predicate Ends(t: Token) {
    CanEnd(t) && t.itemsToOverride == 0
  }

  lemma FeedOne(legal: CharacterSet, st: State, c: char)
    ensures FeedAll(legal, st, [c]) == Feed(legal, st, c)
  {
    assert [c][1..] == "";
  }

  /** A character that ends one token and starts another. */
  lemma FeedOther(legal: CharacterSet, ts: seq<Token>, c: char, t: Token)
    requires ts != [] && NextToken(legal, Last(ts), c) == Other(Last(ts), t) && t.itemsToOverride == 0
    ensures FeedAll(legal, AsState(ts), [c]) == Some(AsState(ts + [t]))
  {
    FeedOne(legal, AsState(ts), c);
    assert ts[..|ts| - 1] + [Last(ts)] == ts;
    assert (ts + [t])[..|ts|] == ts;
  }

  lemma OpensBracket(legal: CharacterSet, ts: seq<Token>)
    requires ts != [] && Ends(Last(ts))
    ensures FeedAll(legal, AsState(ts), "[") == Some(AsState(ts + [OPENING]))
  {
    FeedOther(legal, ts, '[', OPENING);
  }

  lemma ClosesNumber(legal: CharacterSet, ts: seq<Token>, text: string)
    ensures var all := ts + [Token(Number, text, false, 0)];
      FeedAll(legal, AsState(all), "]") == Some(AsState(all + [CLOSING]))
  {
    FeedOther(legal, ts + [Token(Number, text, false, 0)], ']', CLOSING);
  }

  /** A character that a token takes into itself. */
  lemma FeedSame(legal: CharacterSet, ts: seq<Token>, t: Token, c: char, next: Token)
    requires NextToken(legal, t, c) == Same(next)
    ensures FeedAll(legal, AsState(ts + [t]), [c]) == Some(AsState(ts + [next]))
  {
    FeedOne(legal, AsState(ts + [t]), c);
    assert (ts + [t])[..|ts|] == ts && (ts + [next])[..|ts|] == ts;
  }

  lemma {:induction false} FeedRun(legal: CharacterSet, ts: seq<Token>, t: Token, s: string)
    requires t.kind == ClassName || t.kind == Number
    requires forall i :: 0 <= i < |s| ==> CanConsume(t.kind, s[i])
    ensures FeedAll(legal, AsState(ts + [t]), s) == Some(AsState(ts + [t.(text := t.text + s)]))
    decreases |s|
  {
    if s == "" {
      assert t.text + s == t.text;
    } else {
      var next := Append(t, s[0]);
      assert (ts + [t])[..|ts|] == ts && (ts + [next])[..|ts|] == ts;
      assert Feed(legal, AsState(ts + [t]), s[0]) == Some(AsState(ts + [next]));
      FeedRun(legal, ts, next, s[1..]);
      assert next.text + s[1..] == t.text + s;
    }
  }

  /** A character of the text, escaped if it is the enclosing marker. */
  lemma FeedEscapedOne(legal: CharacterSet, ts: seq<Token>, t: Token, c: char)
    requires IsPredicate(t.kind) && t.text != "" && !t.isParsingCompleted && legal(c)
    ensures FeedAll(legal, AsState(ts + [t]), Escaped([c], EnclosingMarker(t.kind)))
         == Some(AsState(ts + [Append(t, c)]))
  {
    var marker, next := EnclosingMarker(t.kind), Append(t, c);
    assert [c][1..] == "" && Escaped("", marker) == "";
    if c == marker {
      var closed := next.(isParsingCompleted := true);
      FeedSame(legal, ts, t, marker, closed);
      FeedSame(legal, ts, closed, marker, next);
      FeedThen(legal, AsState(ts + [t]), [marker], AsState(ts + [closed]), [marker], AsState(ts + [next]));
      assert Escaped([c], marker) == [marker] + [marker];
    } else {
      FeedSame(legal, ts, t, c, next);
      assert Escaped([c], marker) == [c];
    }
  }

  lemma {:induction false} FeedEscaped(legal: CharacterSet, ts: seq<Token>, t: Token, s: string)
    requires IsPredicate(t.kind) && t.text != "" && !t.isParsingCompleted && AllLegal(legal, s)
    ensures FeedAll(legal, AsState(ts + [t]), Escaped(s, EnclosingMarker(t.kind)))
         == Some(AsState(ts + [t.(text := t.text + s)]))
    decreases |s|
  {
    var marker := EnclosingMarker(t.kind);
    if s == "" {
      assert t.text + s == t.text;
    } else {
      var next := Append(t, s[0]);
      FeedEscapedOne(legal, ts, t, s[0]);
      FeedEscaped(legal, ts, next, s[1..]);
      assert next.text + s[1..] == t.text + s;
      EscapedHead(s, marker);
      FeedThen(legal, AsState(ts + [t]), Escaped([s[0]], marker), AsState(ts + [next]), Escaped(s[1..], marker),
        AsState(ts + [t.(text := t.text + s)]));
    }
  }

  lemma EscapedHead(s: string, marker: char)
    requires s != ""
    ensures Escaped(s, marker) == Escaped([s[0]], marker) + Escaped(s[1..], marker)
  {
    assert [s[0]][1..] == "";
  }

  lemma FeedCons(legal: CharacterSet, st: State, c: char, s: string)
    ensures FeedAll(legal, st, [c] + s) ==
      match Feed(legal, st, c) case None => None case Some(next) => FeedAll(legal, next, s)
  {
    assert ([c] + s)[1..] == s;
  }

  /** Two stretches of a query, one after the other. */
  lemma FeedThen(legal: CharacterSet, st: State, a: string, mid: State, b: string, end: State)
    requires FeedAll(legal, st, a) == Some(mid) && FeedAll(legal, mid, b) == Some(end)
    ensures FeedAll(legal, st, a + b) == Some(end)
  {
    FeedAppend(legal, st, a, b);
  }

  lemma FeedThree(legal: CharacterSet, st: State, a: string, st1: State, b: string, st2: State, c: string, end: State)
    requires FeedAll(legal, st, a) == Some(st1) && FeedAll(legal, st1, b) == Some(st2)
    requires FeedAll(legal, st2, c) == Some(end)
    ensures FeedAll(legal, st, a + b + c) == Some(end)
  {
    FeedThen(legal, st, a, st1, b, st2);
    FeedThen(legal, st, a + b, st2, c, end);
  }

  lemma OpeningTakes(legal: CharacterSet, kind: Kind)
    requires IsPredicate(kind)
    ensures NextToken(legal, OPENING, EnclosingMarker(kind)) == Other(OPENING, Token(kind, "", false, 0))
  {
  }

  lemma EmptyTakes(legal: CharacterSet, kind: Kind, c: char)
    requires IsPredicate(kind) && c != EnclosingMarker(kind) && legal(c)
    ensures NextToken(legal, Token(kind, "", false, 0), c) == Same(Token(kind, [c], false, 0))
  {
    assert "" + [c] == [c];
  }

  lemma {:induction false} FeedRepeats(legal: CharacterSet, before: seq<Token>, kind: Kind, n: nat)
    requires IsPredicate(kind)
    ensures var empty := AsState(before + [Token(kind, "", false, 0)]);
      FeedAll(legal, empty, Repeated(EnclosingMarker(kind), n)) == Some(empty)
  {
    var empty, marker := Token(kind, "", false, 0), EnclosingMarker(kind);
    if n > 0 {
      FeedRepeats(legal, before, kind, n - 1);
      FeedSame(legal, before, empty, marker, empty);
      FeedThen(legal, AsState(before + [empty]), [marker], AsState(before + [empty]), Repeated(marker, n - 1),
        AsState(before + [empty]));
    }
  }

  lemma OpenPredicate(legal: CharacterSet, ts: seq<Token>, kind: Kind, n: nat, c: char)
    requires ts != [] && Ends(Last(ts)) && IsPredicate(kind) && c != EnclosingMarker(kind) && legal(c)
    ensures FeedAll(legal, AsState(ts), "[" + [EnclosingMarker(kind)] + Repeated(EnclosingMarker(kind), n) + [c])
         == Some(AsState(ts + [OPENING] + [Token(kind, [c], false, 0)]))
  {
    var marker, before := EnclosingMarker(kind), ts + [OPENING];
    var empty, one := Token(kind, "", false, 0), Token(kind, [c], false, 0);
    OpensBracket(legal, ts);
    OpeningTakes(legal, kind);
    FeedOther(legal, before, marker, empty);
    FeedRepeats(legal, before, kind, n);
    FeedThree(legal, AsState(ts), "[", AsState(before), [marker], AsState(before + [empty]),
      Repeated(marker, n), AsState(before + [empty]));
    EmptyTakes(legal, kind, c);
    FeedSame(legal, before, empty, c, one);
    FeedThen(legal, AsState(ts), "[" + [marker] + Repeated(marker, n), AsState(before + [empty]),
      [c], AsState(before + [one]));
  }

  lemma ClosePredicate(legal: CharacterSet, before: seq<Token>, kind: Kind, text: string)
    requires IsPredicate(kind) && text != ""
    ensures FeedAll(legal, AsState(before + [Token(kind, text, false, 0)]), [EnclosingMarker(kind), ']'])
         == Some(AsState(before + [Token(kind, text, true, 0), CLOSING]))
  {
    var marker := EnclosingMarker(kind);
    var full, closed := Token(kind, text, false, 0), Token(kind, text + [marker], true, 0);
    var after := before + [Token(kind, text, true, 0)];
    assert AsState(before + [full]) == State(before, full);
    assert Feed(legal, State(before, full), marker) == Some(State(before, closed));
    assert closed.text[..|closed.text| - 1] == text;
    assert Feed(legal, State(before, closed), ']') == Some(State(after, CLOSING));
    assert AsState(before + [Token(kind, text, true, 0), CLOSING]) == State(after, CLOSING);
    FeedCons(legal, State(before, full), marker, [']']);
    FeedOne(legal, State(before, closed), ']');
    assert [marker, ']'] == [marker] + [']'];
  }

  lemma SpelledPredicateSplits(p: ParsedPredicate, n: nat)
    requires p.text != "" && p.text[0] != EnclosingMarker(KindOf(p))
    ensures var marker := EnclosingMarker(KindOf(p));
      SpelledPredicate(p, n)
      == ("[" + [marker] + Repeated(marker, n) + [p.text[0]]) + Escaped(p.text[1..], marker) + [marker, ']']
  {
    var marker := EnclosingMarker(KindOf(p));
    var front, escaped := "[" + [marker] + Repeated(marker, n), Escaped(p.text[1..], marker);
    assert Escaped(p.text, marker) == [p.text[0]] + escaped;
    Regroup(front, [p.text[0]], escaped);
    assert (front + [p.text[0]] + escaped) + [marker] + "]" == (front + [p.text[0]] + escaped) + [marker, ']'];
  }

  lemma FeedPredicate(legal: CharacterSet, ts: seq<Token>, p: ParsedPredicate, n: nat)
    requires ts != [] && Ends(Last(ts)) && Expressible(legal, p)
    ensures FeedAll(legal, AsState(ts), SpelledPredicate(p, n)) == Some(AsState(ts + PredicateTokens(p)))
  {
    var kind, before := KindOf(p), ts + [OPENING];
    var marker := EnclosingMarker(kind);
    var one, full := before + [Token(kind, [p.text[0]], false, 0)], before + [Token(kind, p.text, false, 0)];
    var all := before + [Token(kind, p.text, true, 0), CLOSING];
    OpenPredicate(legal, ts, kind, n, p.text[0]);
    assert [p.text[0]] + p.text[1..] == p.text;
    FeedEscaped(legal, before, Token(kind, [p.text[0]], false, 0), p.text[1..]);
    ClosePredicate(legal, before, kind, p.text);
    FeedThree(legal, AsState(ts), "[" + [marker] + Repeated(marker, n) + [p.text[0]], AsState(one),
      Escaped(p.text[1..], marker), AsState(full), [marker, ']'], AsState(all));
    SpelledPredicateSplits(p, n);
    assert all == ts + PredicateTokens(p);
  }

  lemma {:induction false} FeedPredicates(
    legal: CharacterSet, ts: seq<Token>, ps: seq<ParsedPredicate>, repeats: seq<nat>)
    requires ts != [] && Ends(Last(ts)) && |ps| == |repeats|
    requires forall j :: 0 <= j < |ps| ==> Expressible(legal, ps[j])
    ensures FeedAll(legal, AsState(ts), SpelledPredicates(ps, repeats)) == Some(AsState(ts + PredicatesTokens(ps)))
    ensures Ends(Last(ts + PredicatesTokens(ps)))
    decreases |ps|
  {
    if ps == [] {
      assert ts + PredicatesTokens(ps) == ts;
    } else {
      var next := ts + PredicateTokens(ps[0]);
      FeedPredicate(legal, ts, ps[0], repeats[0]);
      FeedPredicates(legal, next, ps[1..], repeats[1..]);
      Regroup(ts, PredicateTokens(ps[0]), PredicatesTokens(ps[1..]));
      FeedThen(legal, AsState(ts), SpelledPredicate(ps[0], repeats[0]), AsState(next),
        SpelledPredicates(ps[1..], repeats[1..]), AsState(ts + PredicatesTokens(ps)));
    }
  }

  lemma FeedNumber(legal: CharacterSet, ts: seq<Token>, text: string)
    requires ts != [] && Last(ts) == OPENING && IsNumber(text)
    ensures FeedAll(legal, AsState(ts), text) == Some(AsState(ts + [Token(Number, text, false, 0)]))
  {
    var one := Token(Number, [text[0]], false, 0);
    FeedOther(legal, ts, text[0], one);
    assert [text[0]] + text[1..] == text;
    FeedRun(legal, ts, one, text[1..]);
    FeedThen(legal, AsState(ts), [text[0]], AsState(ts + [one]), text[1..],
      AsState(ts + [Token(Number, text, false, 0)]));
  }

  lemma FeedPosition(legal: CharacterSet, ts: seq<Token>, position: Option<NSInteger>, number: string)
    requires ts != [] && Ends(Last(ts)) && (position.Some? ==> IsNumber(number))
    ensures FeedAll(legal, AsState(ts), SpelledPosition(position, number))
         == Some(AsState(ts + PositionTokens(position, number)))
    ensures Ends(Last(ts + PositionTokens(position, number)))
  {
    if position.None? {
      assert ts + PositionTokens(position, number) == ts;
    } else {
      var before, full := ts + [OPENING], ts + [OPENING] + [Token(Number, number, false, 0)];
      OpensBracket(legal, ts);
      FeedNumber(legal, before, number);
      ClosesNumber(legal, before, number);
      FeedThree(legal, AsState(ts), "[", AsState(before), number, AsState(full), "]", AsState(full + [CLOSING]));
      assert full + [CLOSING] == ts + PositionTokens(position, number);
    }
  }

  /** Can a type of this name follow the token? */
  predicate AwaitsType(t: Token, typeName: string) {
    || (t.kind == Splitter && t.text == "/")
    || (t.kind == DescendantMarker && t.text == DESCENDANT_MARKER)
    || (t.kind == DescendantMarker && (t.text == "**" || t.text == "***") && typeName != ANY)
  }

  lemma FeedType(legal: CharacterSet, ts: seq<Token>, typeName: string)
    requires ts != [] && AwaitsType(Last(ts), typeName) && (typeName == ANY || IsName(typeName))
    ensures FeedAll(legal, AsState(ts), typeName) == Some(AsState(ts + [TypeToken(typeName)]))
  {
    var one := First(if typeName == ANY then Star else ClassName, typeName[0]);
    TypeFollows(legal, Last(ts), typeName);
    FeedOther(legal, ts, typeName[0], one);
    if typeName == ANY {
      assert typeName == [typeName[0]];
    } else {
      FeedRun(legal, ts, one, typeName[1..]);
      assert [typeName[0]] + typeName[1..] == typeName;
      FeedThen(legal, AsState(ts), [typeName[0]], AsState(ts + [one]), typeName[1..],
        AsState(ts + [TypeToken(typeName)]));
    }
  }

  lemma TypeFollows(legal: CharacterSet, t: Token, typeName: string)
    requires AwaitsType(t, typeName) && (typeName == ANY || IsName(typeName))
    ensures NextToken(legal, t, typeName[0])
         == Other(t, First(if typeName == ANY then Star else ClassName, typeName[0]))
  {
    if typeName != ANY { assert IsLetter(typeName[0]); }
  }

  predicate IsMarker(marker: string) {
    marker == "**/" || marker == "**" || marker == "***"
  }

  /** A star grows into a marker that replaces it. */
  lemma StarToMarker(legal: CharacterSet, result: seq<Token>, marker: string)
    requires IsMarker(marker)
    ensures FeedAll(legal, State(result, Token(Star, "*", false, 0)), marker[1..])
         == Some(State(result, MarkerToken(marker, false)))
  {
    var star, stars := Token(Star, "*", false, 0), Token(DescendantMarker, "**", false, 1);
    assert (result + [star])[..|result + [star]| - 1] == result;
    assert Feed(legal, State(result, star), '*') == Some(State(result, stars));
    FeedCons(legal, State(result, star), '*', marker[2..]);
    assert marker[1..] == ['*'] + marker[2..];
    if marker != "**" {
      assert stars.text + marker[2..] == marker && marker[2..] == [marker[2]];
      FeedOne(legal, State(result, stars), marker[2]);
    } else {
      assert marker[2..] == "" && MarkerToken(marker, false) == stars;
    }
  }

  lemma FeedMarker(legal: CharacterSet, ts: seq<Token>, marker: string)
    requires ts != [] && Last(ts) == SPLITTER && IsMarker(marker)
    ensures FeedAll(legal, AsState(ts), marker) == Some(AsState(ts + [MarkerToken(marker, false)]))
  {
    var star := Token(Star, "*", false, 0);
    FeedOther(legal, ts, '*', star);
    StarToMarker(legal, ts, marker);
    assert AsState(ts + [star]) == State(ts, star);
    assert AsState(ts + [MarkerToken(marker, false)]) == State(ts, MarkerToken(marker, false));
    FeedThen(legal, AsState(ts), "*", State(ts, star), marker[1..], State(ts, MarkerToken(marker, false)));
    assert marker == "*" + marker[1..];
  }

  /** What follows the type of an item. */
  lemma FeedDetails(env: Environment, ts: seq<Token>, item: ParsedItem, sp: Spelling)
    requires ts != [] && Ends(Last(ts)) && Spells(env, item, sp)
    ensures FeedAll(env.legal, AsState(ts), SpelledDetails(item, sp)) == Some(AsState(ts + DetailTokens(item, sp)))
    ensures Ends(Last(ts + DetailTokens(item, sp)))
  {
    var mid := ts + PredicatesTokens(item.predicates);
    FeedPredicates(env.legal, ts, item.predicates, sp.repeats);
    FeedPosition(env.legal, mid, item.position, sp.number);
    assert mid + PositionTokens(item.position, sp.number) == ts + DetailTokens(item, sp);
    FeedThen(env.legal, AsState(ts), SpelledPredicates(item.predicates, sp.repeats), AsState(mid),
      SpelledPosition(item.position, sp.number), AsState(ts + DetailTokens(item, sp)));
  }

  lemma FeedMarkers(env: Environment, ts: seq<Token>, item: ParsedItem, sp: Spelling)
    requires ts != [] && Last(ts) == SPLITTER && Spells(env, item, sp)
    ensures FeedAll(env.legal, AsState(ts), SpelledMarker(item, sp))
         == Some(AsState(ts + MarkerTokens(item, sp, false)))
    ensures AwaitsType(Last(ts + MarkerTokens(item, sp, false)), item.typeName)
  {
    if item.isDescendant {
      FeedMarker(env.legal, ts, sp.marker);
    } else {
      assert ts + MarkerTokens(item, sp, false) == ts;
    }
  }

  lemma ItemTokensSplit(ts: seq<Token>, item: ParsedItem, sp: Spelling, isFirst: bool)
    ensures ts + MarkerTokens(item, sp, isFirst) + [TypeToken(item.typeName)] + DetailTokens(item, sp)
         == ts + ItemTokens(item, sp, isFirst)
  {
    var marker, type_ := MarkerTokens(item, sp, isFirst), [TypeToken(item.typeName)];
    Regroup(ts, marker + type_, DetailTokens(item, sp));
    Regroup(ts, marker, type_);
  }

  /** A later item, after its splitter. */
  lemma FeedItem(env: Environment, ts: seq<Token>, item: ParsedItem, sp: Spelling)
    requires ts != [] && Last(ts) == SPLITTER && Spells(env, item, sp)
    ensures FeedAll(env.legal, AsState(ts), SpelledItem(item, sp)) == Some(AsState(ts + ItemTokens(item, sp, false)))
    ensures Ends(Last(ts + ItemTokens(item, sp, false)))
  {
    var marked := ts + MarkerTokens(item, sp, false);
    var typed := marked + [TypeToken(item.typeName)];
    FeedMarkers(env, ts, item, sp);
    FeedType(env.legal, marked, item.typeName);
    FeedDetails(env, typed, item, sp);
    ItemTokensSplit(ts, item, sp, false);
    FeedThree(env.legal, AsState(ts), SpelledMarker(item, sp), AsState(marked), item.typeName, AsState(typed),
      SpelledDetails(item, sp), AsState(ts + ItemTokens(item, sp, false)));
  }

  lemma {:induction false} FeedRest(env: Environment, ts: seq<Token>, chain: seq<ParsedItem>, sps: seq<Spelling>)
    requires chain != [] && AllSpell(env, chain, sps)
    requires ts != [] && Ends(Last(ts))
    ensures FeedAll(env.legal, AsState(ts), SpelledRest(env, chain, sps)) == Some(AsState(ts + RestTokens(chain, sps)))
    ensures Ends(Last(ts + RestTokens(chain, sps)))
    decreases |chain|
  {
    if |chain| == 1 {
      assert ts + RestTokens(chain, sps) == ts;
    } else {
      var rest, spells := chain[1..], sps[1..];
      var split := ts + [SPLITTER];
      var next := split + ItemTokens(rest[0], spells[0], false);
      FeedOther(env.legal, ts, '/', SPLITTER);
      FeedItem(env, split, rest[0], spells[0]);
      FeedRest(env, next, rest, spells);
      FeedThree(env.legal, AsState(ts), "/", AsState(split), SpelledItem(rest[0], spells[0]), AsState(next),
        SpelledRest(env, rest, spells), AsState(next + RestTokens(rest, spells)));
      RestSplits(env, ts, chain, sps);
    }
  }

  lemma RestSplits(env: Environment, ts: seq<Token>, chain: seq<ParsedItem>, sps: seq<Spelling>)
    requires |chain| > 1 && AllSpell(env, chain, sps)
    ensures SpelledRest(env, chain, sps)
         == "/" + SpelledItem(chain[1], sps[1]) + SpelledRest(env, chain[1..], sps[1..])
    ensures ts + RestTokens(chain, sps)
         == ts + [SPLITTER] + ItemTokens(chain[1], sps[1], false) + RestTokens(chain[1..], sps[1..])
  {
    Regroup("/", SpelledItem(chain[1], sps[1]), SpelledRest(env, chain[1..], sps[1..]));
    Regroup([SPLITTER], ItemTokens(chain[1], sps[1], false), RestTokens(chain[1..], sps[1..]));
    Regroup(ts, [SPLITTER], ItemTokens(chain[1], sps[1], false));
    Regroup(ts, [SPLITTER] + ItemTokens(chain[1], sps[1], false), RestTokens(chain[1..], sps[1..]));
  }

  /** The part of a query that follows the type of its first item. */
  function TailText(env: Environment, chain: seq<ParsedItem>, sps: seq<Spelling>): string
    requires chain != [] && AllSpell(env, chain, sps)
  {
    SpelledDetails(chain[0], sps[0]) + SpelledRest(env, chain, sps)
  }

  lemma FeedTail(env: Environment, ts: seq<Token>, chain: seq<ParsedItem>, sps: seq<Spelling>)
    requires chain != [] && AllSpell(env, chain, sps)
    requires ts != [] && Ends(Last(ts))
    ensures var all := ts + DetailTokens(chain[0], sps[0]) + RestTokens(chain, sps);
      FeedAll(env.legal, AsState(ts), TailText(env, chain, sps)) == Some(AsState(all)) && Ends(Last(all))
  {
    var mid := ts + DetailTokens(chain[0], sps[0]);
    FeedDetails(env, ts, chain[0], sps[0]);
    FeedRest(env, mid, chain, sps);
    FeedThen(env.legal, AsState(ts), SpelledDetails(chain[0], sps[0]), AsState(mid), SpelledRest(env, chain, sps),
      AsState(mid + RestTokens(chain, sps)));
  }

  lemma TailStart(env: Environment, chain: seq<ParsedItem>, sps: seq<Spelling>)
    requires chain != [] && AllSpell(env, chain, sps)
    ensures var tail := TailText(env, chain, sps); tail == "" || tail[0] == '[' || tail[0] == '/'
  {
    var item, sp := chain[0], sps[0];
    if item.predicates == [] && item.position.None? {
      assert SpelledDetails(item, sp) == "" && TailText(env, chain, sps) == SpelledRest(env, chain, sps);
    } else {
      assert SpelledDetails(item, sp)[0] == '[';
    }
  }

  lemma ChainSplits(env: Environment, chain: seq<ParsedItem>, sps: seq<Spelling>)
    requires chain != [] && AllSpell(env, chain, sps)
    ensures SpelledChain(env, chain, sps)
         == SpelledMarker(chain[0], sps[0]) + (chain[0].typeName + TailText(env, chain, sps))
  {
    var marker, name := SpelledMarker(chain[0], sps[0]), chain[0].typeName;
    Regroup(marker + name, SpelledDetails(chain[0], sps[0]), SpelledRest(env, chain, sps));
    Regroup(marker, name, TailText(env, chain, sps));
  }

  lemma StartAny(tail: string)
    requires tail == "" || tail[0] == '[' || tail[0] == '/'
    ensures var query := ANY + tail;
      Start(query) == Some(TypeToken(ANY)) && query[1..] == tail
  {
    var query := ANY + tail;
    assert query[0] == '*' && query[1..] == tail;
  }

  lemma StartName(legal: CharacterSet, name: string, tail: string)
    requires IsName(name)
    ensures var query := name + tail; var one := First(ClassName, name[0]);
      && Start(query) == Some(one)
      && FeedAll(legal, State([], one), query[1..]) == FeedAll(legal, AsState([TypeToken(name)]), tail)
  {
    var query, one := name + tail, First(ClassName, name[0]);
    assert query[0] == name[0] && query[1..] == name[1..] + tail;
    assert [name[0]] + name[1..] == name;
    FeedRun(legal, [], one, name[1..]);
    assert [] + [one] == [one] && AsState([one]) == State([], one);
    assert [] + [TypeToken(name)] == [TypeToken(name)];
    FeedAppend(legal, State([], one), name[1..], tail);
  }

  /** Which token a query starts with, and what of a marker is left to read. */
  lemma StartMarker(legal: CharacterSet, marker: string, name: string, tail: string)
    requires IsMarker(marker) && (name == ANY || IsName(name)) && (marker == "**/" || name != ANY)
    ensures var query := marker + (name + tail); var start := Start(query);
      && start.Some? && |start.value.text| <= |query|
      && FeedAll(legal, State([], start.value), query[|start.value.text|..])
      == FeedAll(legal, AsState([MarkerToken(marker, true)]), name + tail)
  {
    var query := marker + (name + tail);
    assert AsState([MarkerToken(marker, true)]) == State([], MarkerToken(marker, true));
    if marker == "**/" {
      assert query[3..] == name + tail;
    } else {
      assert query[|marker|] == name[0] && IsLetter(name[0]);
      assert query[..|marker|] == marker && !(DESCENDANT_MARKER <= query) by {
        assert query[2] == if marker == "**" then name[0] else '*';
      }
      assert query[0] == '*' && query[1..] == marker[1..] + (name + tail);
      StarToMarker(legal, [], marker);
      FeedAppend(legal, State([], Token(Star, "*", false, 0)), marker[1..], name + tail);
    }
  }

  lemma StartMarked(legal: CharacterSet, marker: string, name: string, tail: string)
    requires IsMarker(marker) && (name == ANY || IsName(name)) && (marker == "**/" || name != ANY)
    ensures var query := marker + (name + tail); var start := Start(query);
      && start.Some? && |start.value.text| <= |query|
      && FeedAll(legal, State([], start.value), query[|start.value.text|..])
      == FeedAll(legal, AsState([MarkerToken(marker, true)] + [TypeToken(name)]), tail)
  {
    var marked := [MarkerToken(marker, true)];
    StartMarker(legal, marker, name, tail);
    FeedType(legal, marked, name);
    FeedAppend(legal, AsState(marked), name, tail);
  }

  lemma StartPlain(legal: CharacterSet, name: string, tail: string)
    requires name == ANY || IsName(name)
    requires tail == "" || tail[0] == '[' || tail[0] == '/'
    ensures var query := name + tail; var start := Start(query);
      && start.Some? && |start.value.text| <= |query|
      && FeedAll(legal, State([], start.value), query[|start.value.text|..])
      == FeedAll(legal, AsState([TypeToken(name)]), tail)
  {
    if name == ANY { StartAny(tail); } else { StartName(legal, name, tail); }
  }

  function HeadTokens(item: ParsedItem, sp: Spelling): seq<Token> {
    MarkerTokens(item, sp, true) + [TypeToken(item.typeName)]
  }

  /** The start of the tokenizer reads the marker and the type of the first item. */
  lemma StartHead(env: Environment, chain: seq<ParsedItem>, sps: seq<Spelling>)
    requires chain != [] && AllSpell(env, chain, sps)
    ensures var query := SpelledChain(env, chain, sps); var start := Start(query);
      && query != "" && start.Some? && |start.value.text| <= |query|
      && FeedAll(env.legal, State([], start.value), query[|start.value.text|..])
      == FeedAll(env.legal, AsState(HeadTokens(chain[0], sps[0])), TailText(env, chain, sps))
  {
    var name, tail, marker := chain[0].typeName, TailText(env, chain, sps), sps[0].marker;
    ChainSplits(env, chain, sps);
    if chain[0].isDescendant {
      StartMarked(env.legal, marker, name, tail);
    } else {
      TailStart(env, chain, sps);
      StartPlain(env.legal, name, tail);
      assert "" + (name + tail) == name + tail && [] + [TypeToken(name)] == [TypeToken(name)];
    }
  }

  lemma FinishState(ts: seq<Token>)
    requires ts != [] && Ends(Last(ts))
    ensures Finish(AsState(ts)) == Some(ts)
  {
    assert ts[..|ts| - 1] + [Last(ts)] == ts;
  }

  /** The tokenizer splits every spelling of a chain into the tokens of the chain. */
  lemma TokensRecovered(env: Environment, chain: seq<ParsedItem>, sps: seq<Spelling>)
    requires chain != [] && AllSpell(env, chain, sps)
    ensures SpelledChain(env, chain, sps) != ""
    ensures Tokens(env.legal, SpelledChain(env, chain, sps)) == Some(ChainTokensOf(chain, sps, true))
  {
    StartHead(env, chain, sps);
    FeedTail(env, HeadTokens(chain[0], sps[0]), chain, sps);
    FinishState(ChainTokensOf(chain, sps, true));
  }

  // ---------- The compiler recovers the chain ----------

  lemma {:induction false} OnTokensAppend(env: Environment, f: Flags, a: seq<Token>, b: seq<Token>)
    ensures OnTokens(env, f, a + b) ==
      match OnTokens(env, f, a) case None => None case Some(next) => OnTokens(env, next, b)
    decreases |a|
  {
    if a == [] {
      assert a + b == b;
    } else {
      assert (a + b)[1..] == a[1..] + b;
      match OnToken(env, f, a[0]) {
        case None =>
        case Some(next) => OnTokensAppend(env, next, a[1..], b);
      }
    }
  }

  lemma OnOne(env: Environment, f: Flags, t: Token)
    ensures OnTokens(env, f, [t]) == OnToken(env, f, t)
  {
    assert [t][1..] == [];
  }

  lemma OnThree(env: Environment, f: Flags, t: Token)
    ensures OnTokens(env, f, [OPENING, t, CLOSING]) == OnToken(env, f, t)
  {
    assert [OPENING, t, CLOSING] == [OPENING] + ([t] + [CLOSING]);
    OnTokensAppend(env, f, [OPENING], [t] + [CLOSING]);
    OnTokensAppend(env, f, [t], [CLOSING]);
    OnOne(env, f, OPENING);
    OnOne(env, f, t);
    match OnToken(env, f, t) {
      case None =>
      case Some(next) => OnOne(env, next, CLOSING);
    }
  }

  lemma {:induction false} OnPredicates(env: Environment, f: Flags, ps: seq<ParsedPredicate>)
    requires !f.isPositionSet
    ensures OnTokens(env, f, PredicatesTokens(ps)) == Some(f.(predicates := f.predicates + ps))
    decreases |ps|
  {
    if ps == [] {
      assert f.predicates + ps == f.predicates;
    } else {
      var next := f.(predicates := f.predicates + [ps[0]]);
      OnThree(env, f, Token(KindOf(ps[0]), ps[0].text, true, 0));
      OnPredicates(env, next, ps[1..]);
      OnTokensAppend(env, f, PredicateTokens(ps[0]), PredicatesTokens(ps[1..]));
      assert next.predicates + ps[1..] == f.predicates + ps;
    }
  }

  predicate Cleared(f: Flags) {
    !f.isTypeSet && !f.isPositionSet && !f.isDescendantSet && f.predicates == []
  }

  /** The state in which an item has been read. */
  function WithItem(f: Flags, item: ParsedItem): Flags {
    f.(typeName := item.typeName,
       isTypeSet := true,
       position := if item.position.Some? then item.position else f.position,
       isPositionSet := item.position.Some?,
       isDescendantSet := item.isDescendant,
       predicates := item.predicates)
  }

  lemma OnDetails(env: Environment, f: Flags, item: ParsedItem, sp: Spelling)
    requires Spells(env, item, sp) && !f.isPositionSet && f.predicates == []
    ensures OnTokens(env, f, DetailTokens(item, sp)) == Some(f.(
      predicates := item.predicates,
      position := if item.position.Some? then item.position else f.position,
      isPositionSet := item.position.Some?))
  {
    OnPredicates(env, f, item.predicates);
    assert [] + item.predicates == item.predicates;
    var next := f.(predicates := item.predicates);
    OnTokensAppend(env, f, PredicatesTokens(item.predicates), PositionTokens(item.position, sp.number));
    if item.position.Some? {
      OnThree(env, next, Token(Number, sp.number, false, 0));
    }
  }

  lemma OnItem(env: Environment, f: Flags, item: ParsedItem, sp: Spelling, isFirst: bool)
    requires Cleared(f) && Spells(env, item, sp)
    ensures OnTokens(env, f, ItemTokens(item, sp, isFirst)) == Some(WithItem(f, item))
  {
    var marked := f.(isDescendantSet := item.isDescendant);
    var typed := marked.(typeName := item.typeName, isTypeSet := true);
    var marker, type_ := MarkerTokens(item, sp, isFirst), [TypeToken(item.typeName)];
    if item.isDescendant { OnOne(env, f, MarkerToken(sp.marker, isFirst)); }
    OnOne(env, marked, TypeToken(item.typeName));
    OnDetails(env, typed, item, sp);
    OnTokensAppend(env, f, marker, type_);
    OnTokensAppend(env, f, marker + type_, DetailTokens(item, sp));
  }

  lemma OnSplit(env: Environment, f: Flags, item: ParsedItem)
    requires Cleared(f)
    ensures var next := OnSplitter(WithItem(f, item));
      && OnTokens(env, WithItem(f, item), [SPLITTER]) == Some(next)
      && Cleared(next) && next.items == f.items + [item]
  {
    assert ItemOf(WithItem(f, item), item.isDescendant) == item;
    OnOne(env, WithItem(f, item), SPLITTER);
  }

  lemma OnLast(f: Flags, item: ParsedItem)
    requires Cleared(f)
    ensures OnEnd(WithItem(f, item)) == Some(f.items + [item])
  {
    assert ItemOf(WithItem(f, item), item.isDescendant) == item;
  }

  lemma OnThen(env: Environment, f: Flags, a: seq<Token>, next: Flags, b: seq<Token>)
    requires OnTokens(env, f, a) == Some(next)
    ensures OnTokens(env, f, a + b) == OnTokens(env, next, b)
  {
    OnTokensAppend(env, f, a, b);
  }

  lemma {:induction false} OnRest(env: Environment, f: Flags, chain: seq<ParsedItem>, sps: seq<Spelling>)
    requires chain != [] && AllSpell(env, chain, sps) && Cleared(f)
    ensures var end := OnTokens(env, WithItem(f, chain[0]), RestTokens(chain, sps));
      end.Some? && OnEnd(end.value) == Some(f.items + chain)
    decreases |chain|
  {
    if |chain| == 1 {
      OnLast(f, chain[0]);
      assert [chain[0]] == chain;
    } else {
      var rest, spells, next := chain[1..], sps[1..], OnSplitter(WithItem(f, chain[0]));
      OnSplit(env, f, chain[0]);
      OnItem(env, next, rest[0], spells[0], false);
      OnRest(env, next, rest, spells);
      OnThen(env, WithItem(f, chain[0]), [SPLITTER], next, ChainTokensOf(rest, spells, false));
      OnThen(env, next, ItemTokens(rest[0], spells[0], false), WithItem(next, rest[0]), RestTokens(rest, spells));
      assert f.items + [chain[0]] + rest == f.items + chain;
    }
  }

  /** The compiler makes the chain of its tokens, however they were spelled. */
  lemma ChainRecovered(env: Environment, chain: seq<ParsedItem>, sps: seq<Spelling>)
    requires chain != [] && AllSpell(env, chain, sps)
    ensures Compiled(env, ChainTokensOf(chain, sps, true)) == Some(chain)
  {
    OnItem(env, NO_FLAGS, chain[0], sps[0], true);
    OnTokensAppend(env, NO_FLAGS, ItemTokens(chain[0], sps[0], true), RestTokens(chain, sps));
    OnRest(env, NO_FLAGS, chain, sps);
    assert [] + chain == chain;
  }

  /** Every spelling of a chain is parsed as that chain. */
  lemma SpelledIsParsed(env: Environment, chain: seq<ParsedItem>, sps: seq<Spelling>)
    requires chain != [] && AllSpell(env, chain, sps)
    ensures SpelledChain(env, chain, sps) != ""
    ensures Parsed(env, SpelledChain(env, chain, sps)) == Some(chain)
  {
    TokensRecovered(env, chain, sps);
    ChainRecovered(env, chain, sps);
  }
}
