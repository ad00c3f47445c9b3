/** The query language: a query is parsed as a chain exactly when it spells that chain. */
module ChainGrammar {
  import opened Wrappers
  import opened ChainTokens
  import opened ChainParser
  import opened ChainText
  import opened ChainSpelled
  import opened MachineIntegers

  // ---------- What the tokenizer accepts ----------

  /** Can the text be written between markers? */
  predicate Between(legal: CharacterSet, marker: char, text: string) {
    text != "" && text[0] != marker && AllLegal(legal, text)
  }

  /** The opening markers, repeated, and the escaped text. */
  function Opened(marker: char, repeats: nat, text: string): string {
    [marker] + Repeated(marker, repeats) + Escaped(text, marker)
  }

  /** Is `s` what has been read of a predicate token that is still growing? */
  predicate GrowsAs(legal: CharacterSet, t: Token, s: string, repeats: nat) {
    var marker := EnclosingMarker(t.kind);
    if t.isParsingCompleted then
      |t.text| >= 2 && t.text[|t.text| - 1] == marker && Between(legal, marker, t.text[..|t.text| - 1])
      && s == Opened(marker, repeats, t.text[..|t.text| - 1]) + [marker]
    else (t.text == "" || Between(legal, marker, t.text)) && s == Opened(marker, repeats, t.text)
  }

  /** Is `s` what has been read of the token that is growing? */
  ghost predicate Growing(legal: CharacterSet, t: Token, s: string) {
    && (t.kind != DescendantMarker ==> t.itemsToOverride == 0)
    && match t.kind
       case ClassName => s == t.text && IsName(t.text)
       case Star => s == t.text == "*"
       case DescendantMarker => s == t.text && IsMarker(t.text)
       case Splitter => s == t.text == "/"
       case OpeningBracket => s == t.text == "["
       case ClosingBracket => s == t.text == "]"
       case Number => s == t.text && IsNumber(t.text)
       case SelfPredicate => exists n :: GrowsAs(legal, t, s, n)
       case DescendantPredicate => exists n :: GrowsAs(legal, t, s, n)
  }

  /** Is `s` the text of a predicate token that has been left? */
  predicate ReadsAs(legal: CharacterSet, t: Token, s: string, repeats: nat) {
    var marker := EnclosingMarker(t.kind);
    t.isParsingCompleted && Between(legal, marker, t.text) && s == Opened(marker, repeats, t.text) + [marker]
  }

  ghost predicate Read(legal: CharacterSet, t: Token, s: string) {
    if IsPredicate(t.kind) then exists n :: ReadsAs(legal, t, s, n) else Growing(legal, t, s)
  }

  /** Can a token of the kind come after the first? A marker can come where a star can,
  since it grows out of one, but no star comes after a marker that is still open to one. */
  predicate Follows(first: Token, second: Kind) {
    match first.kind
    case ClassName => second == Splitter || second == OpeningBracket
    case Star => second == Splitter || second == OpeningBracket
    case ClosingBracket => second == Splitter || second == OpeningBracket
    case DescendantMarker =>
      second == ClassName || (first.text == "**/" && (second == Star || second == DescendantMarker))
    case Splitter => second == ClassName || second == Star || second == DescendantMarker
    case OpeningBracket => second == Number || second == SelfPredicate || second == DescendantPredicate
    case _ => second == ClosingBracket
  }

  predicate Starts(kind: Kind) {
    kind == ClassName || kind == Star || kind == DescendantMarker
  }

  predicate Linked(ts: seq<Token>) {
    forall i :: 0 < i < |ts| ==> Follows(ts[i - 1], ts[i].kind)
  }

  function Flat(pieces: seq<string>): string {
    if pieces == [] then "" else Flat(pieces[..|pieces| - 1]) + pieces[|pieces| - 1]
  }

  ghost predicate AllRead(legal: CharacterSet, ts: seq<Token>, pieces: seq<string>) {
    |ts| == |pieces| && forall i :: 0 <= i < |ts| ==> Read(legal, ts[i], pieces[i])
  }

  /** `pieces` are the texts of the finished tokens, `last` is that of the growing one. */
  ghost predicate Accepted(legal: CharacterSet, st: State, pieces: seq<string>, last: string) {
    && AllRead(legal, st.result, pieces) && Growing(legal, st.token, last)
    && Linked(st.result + [st.token]) && Starts((st.result + [st.token])[0].kind)
  }

  // ---------- One character ----------

  lemma FlatAdd(pieces: seq<string>, s: string)
    ensures Flat(pieces + [s]) == Flat(pieces) + s
  {
    assert (pieces + [s])[..|pieces|] == pieces;
  }

  lemma {:induction false} RepeatedMore(c: char, n: nat)
    ensures Repeated(c, n) + [c] == Repeated(c, n + 1)
  {
    if n > 0 {
      RepeatedMore(c, n - 1);
      assert [c] + Repeated(c, n - 1) + [c] == [c] + (Repeated(c, n - 1) + [c]);
    } else {
      assert Repeated(c, 0) + [c] == [c] && Repeated(c, 1) == [c] + "";
    }
  }

  lemma OpenedRepeats(marker: char, n: nat)
    ensures Opened(marker, n, "") + [marker] == Opened(marker, n + 1, "")
  {
    RepeatedMore(marker, n);
    assert [marker] + Repeated(marker, n) + "" == [marker] + Repeated(marker, n);
    assert [marker] + Repeated(marker, n) + [marker] == [marker] + (Repeated(marker, n) + [marker]);
  }

  lemma OpenedMore(marker: char, n: nat, text: string, c: char)
    ensures Opened(marker, n, text + [c]) == Opened(marker, n, text) + if c == marker then [c, c] else [c]
  {
    EscapedLast(text, c, marker);
    Regroup([marker] + Repeated(marker, n), Escaped(text, marker), if c == marker then [c, c] else [c]);
  }

  /** A character that a growing predicate takes. */
  lemma PredicateGrows(legal: CharacterSet, t: Token, s: string, n: nat, c: char) returns (m: nat)
    requires IsPredicate(t.kind) && GrowsAs(legal, t, s, n) && NextInPredicate(legal, t, c).Same?
    ensures GrowsAs(legal, NextInPredicate(legal, t, c).token, s + [c], m)
  {
    var marker, next := EnclosingMarker(t.kind), NextInPredicate(legal, t, c).token;
    m := n;
    if t.isParsingCompleted {
      var text := t.text[..|t.text| - 1];
      assert text + [marker] == t.text;
      OpenedMore(marker, n, text, marker);
      assert [marker] + [marker] == [marker, marker];
      Regroup(Opened(marker, n, text), [marker], [marker]);
    } else if t.text == "" && c == marker {
      OpenedRepeats(marker, n);
      m := n + 1;
    } else if c == marker {
      assert next.text[..|next.text| - 1] == t.text;
    } else {
      OpenedMore(marker, n, t.text, c);
      assert t.text == "" ==> next.text == [c];
    }
  }

  /** Leaving a predicate strips the closing marker that it had taken. */
  lemma PredicateLeft(legal: CharacterSet, t: Token, s: string, n: nat, c: char)
    requires IsPredicate(t.kind) && GrowsAs(legal, t, s, n) && NextInPredicate(legal, t, c).Other?
    ensures var next := NextInPredicate(legal, t, c);
      ReadsAs(legal, next.left, s, n) && next.left.kind == t.kind && next.token == CLOSING
  {
  }

  lemma PlainGrows(legal: CharacterSet, t: Token, s: string, c: char)
    requires !IsPredicate(t.kind) && Growing(legal, t, s)
    ensures match NextToken(legal, t, c)
      case Rejected => true
      case Same(next) => next.kind == t.kind && Growing(legal, next, s + [c])
      case Other(left, next) =>
        && left == t
        && (if next.kind == DescendantMarker then t.kind == Star && Growing(legal, next, s + [c])
            else Follows(t, next.kind) && Growing(legal, next, [c]))
        && next.itemsToOverride == if next.kind == DescendantMarker then 1 else 0
  {
    match NextToken(legal, t, c) {
      case Rejected =>
      case Same(_) =>
        if t.kind == DescendantMarker { MarkerGrows(legal, t, c); }
      case Other(_, next) =>
        if IsPredicate(next.kind) {
          assert Repeated(c, 0) == "" && Escaped("", c) == "" && [c] + "" + "" == [c];
          assert GrowsAs(legal, next, [c], 0);
        }
    }
  }

  lemma MarkerGrows(legal: CharacterSet, t: Token, c: char)
    requires t.kind == DescendantMarker && IsMarker(t.text) && NextToken(legal, t, c).Same?
    ensures IsMarker(NextToken(legal, t, c).token.text)
  {
    assert t.text == "**";
    assert "**" + ['/'] == "**/" && "**" + ['*'] == "***";
  }

  lemma LinkedNext(ts: seq<Token>, t: Token, next: Token)
    requires Linked(ts + [t]) && Starts((ts + [t])[0].kind)
    ensures Follows(t, next.kind) ==> Linked(ts + [t] + [next]) && Starts((ts + [t] + [next])[0].kind)
    ensures next.kind == t.kind || (t.kind == Star && next.kind == DescendantMarker) ==>
      Linked(ts + [next]) && Starts((ts + [next])[0].kind)
  {
    var all, longer, other := ts + [t], ts + [t] + [next], ts + [next];
    assert forall i :: 0 <= i < |all| ==> longer[i] == all[i];
    assert forall i :: 0 <= i < |ts| ==> other[i] == all[i];
    assert all[|ts|] == t && other[|ts|] == next;
    assert |ts| > 0 ==> Follows(all[|ts| - 1], all[|ts|].kind);
  }

  /** A finished token joins the others, perhaps without its closing marker. */
  lemma AcceptedLeft(
    legal: CharacterSet, st: State, pieces: seq<string>, last: string, left: Token, next: Token)
    requires Accepted(legal, st, pieces, last) && Read(legal, left, last) && left.kind == st.token.kind
    requires Follows(left, next.kind) && next.itemsToOverride == 0
    ensures AllRead(legal, st.result + [left], pieces + [last])
    ensures Linked(st.result + [left] + [next]) && Starts((st.result + [left] + [next])[0].kind)
  {
    LinkedNext(st.result, st.token, left);
    LinkedNext(st.result, left, next);
  }

  /** The token takes the character. */
  lemma AcceptedSame(
    legal: CharacterSet, st: State, pieces: seq<string>, last: string, next: Token, result: seq<Token>, c: char)
    requires Accepted(legal, st, pieces, last) && result == st.result && Growing(legal, next, last + [c])
    requires next.kind == st.token.kind || (st.token.kind == Star && next.kind == DescendantMarker)
    ensures Accepted(legal, State(result, next), pieces, last + [c])
    ensures Flat(pieces) + (last + [c]) == Flat(pieces) + last + [c]
  {
    LinkedNext(st.result, st.token, next);
  }

  /** The token ends before the character, which starts another. */
  lemma AcceptedOther(
    legal: CharacterSet, st: State, pieces: seq<string>, last: string, left: Token, next: Token, c: char)
    requires Accepted(legal, st, pieces, last) && Read(legal, left, last) && left.kind == st.token.kind
    requires Follows(left, next.kind) && next.itemsToOverride == 0 && Growing(legal, next, [c])
    ensures Accepted(legal, State(st.result + [left], next), pieces + [last], [c])
    ensures Flat(pieces + [last]) + [c] == Flat(pieces) + last + [c]
  {
    AcceptedLeft(legal, st, pieces, last, left, next);
    FlatAdd(pieces, last);
  }

  lemma AcceptedInPredicate(legal: CharacterSet, st: State, pieces: seq<string>, last: string, c: char)
    returns (pieces': seq<string>, last': string)
    requires IsPredicate(st.token.kind) && Accepted(legal, st, pieces, last) && Feed(legal, st, c).Some?
    ensures Accepted(legal, Feed(legal, st, c).value, pieces', last')
    ensures Flat(pieces') + last' == Flat(pieces) + last + [c]
  {
    var t, next := st.token, NextInPredicate(legal, st.token, c);
    var n :| GrowsAs(legal, t, last, n);
    if next.Same? {
      var m := PredicateGrows(legal, t, last, n, c);
      pieces', last' := pieces, last + [c];
      AcceptedSame(legal, st, pieces, last, next.token, st.result, c);
    } else {
      PredicateLeft(legal, t, last, n, c);
      pieces', last' := pieces + [last], [c];
      AcceptedOther(legal, st, pieces, last, next.left, next.token, c);
    }
  }

  lemma AcceptedPlain(legal: CharacterSet, st: State, pieces: seq<string>, last: string, c: char)
    returns (pieces': seq<string>, last': string)
    requires !IsPredicate(st.token.kind) && Accepted(legal, st, pieces, last) && Feed(legal, st, c).Some?
    ensures Accepted(legal, Feed(legal, st, c).value, pieces', last')
    ensures Flat(pieces') + last' == Flat(pieces) + last + [c]
  {
    var t, next := st.token, NextToken(legal, st.token, c);
    PlainGrows(legal, t, last, c);
    if next.Same? || next.token.kind == DescendantMarker {
      pieces', last' := pieces, last + [c];
      assert (st.result + [t])[..|st.result|] == st.result;
      AcceptedSame(legal, st, pieces, last, next.token, st.result, c);
    } else {
      pieces', last' := pieces + [last], [c];
      AcceptedOther(legal, st, pieces, last, next.left, next.token, c);
    }
  }

  lemma AcceptedStep(legal: CharacterSet, st: State, pieces: seq<string>, last: string, c: char)
    returns (pieces': seq<string>, last': string)
    requires Accepted(legal, st, pieces, last) && Feed(legal, st, c).Some?
    ensures Accepted(legal, Feed(legal, st, c).value, pieces', last')
    ensures Flat(pieces') + last' == Flat(pieces) + last + [c]
  {
    if IsPredicate(st.token.kind) {
      pieces', last' := AcceptedInPredicate(legal, st, pieces, last, c);
    } else {
      pieces', last' := AcceptedPlain(legal, st, pieces, last, c);
    }
  }

  lemma {:induction false} AcceptedAll(legal: CharacterSet, st: State, pieces: seq<string>, last: string, s: string)
    returns (pieces': seq<string>, last': string)
    requires Accepted(legal, st, pieces, last) && FeedAll(legal, st, s).Some?
    ensures Accepted(legal, FeedAll(legal, st, s).value, pieces', last')
    ensures Flat(pieces') + last' == Flat(pieces) + last + s
    decreases |s|
  {
    if s == "" {
      pieces', last' := pieces, last;
      assert Flat(pieces) + last + "" == Flat(pieces) + last;
    } else {
      var p, l := AcceptedStep(legal, st, pieces, last, s[0]);
      pieces', last' := AcceptedAll(legal, Feed(legal, st, s[0]).value, p, l, s[1..]);
      assert Flat(pieces) + last + [s[0]] + s[1..] == Flat(pieces) + last + s by {
        assert [s[0]] + s[1..] == s;
        Regroup(Flat(pieces) + last, [s[0]], s[1..]);
      }
    }
  }

  lemma StartIsAccepted(legal: CharacterSet, query: string)
    requires query != "" && Start(query).Some?
    ensures var start := Start(query).value;
      Accepted(legal, State([], start), [], start.text) && start.text <= query
  {
    var start := Start(query).value;
    assert [] + [start] == [start];
    if start.kind != DescendantMarker { assert [query[0]] <= query; }
  }

  lemma FinishIsRead(legal: CharacterSet, st: State, pieces: seq<string>, last: string)
    requires Accepted(legal, st, pieces, last) && Finish(st).Some?
    ensures var ts := Finish(st).value;
      && ts != [] && AllRead(legal, ts, pieces + [last])
      && Linked(ts) && Starts(ts[0].kind) && CanEnd(Last(ts))
  {
  }

  /** The tokens of a query are read off it, one after the other. */
  lemma TokensAreRead(legal: CharacterSet, query: string) returns (pieces: seq<string>)
    requires query != "" && Tokens(legal, query).Some?
    ensures var ts := Tokens(legal, query).value;
      && ts != [] && AllRead(legal, ts, pieces) && Flat(pieces) == query
      && Linked(ts) && Starts(ts[0].kind) && CanEnd(Last(ts))
  {
    var start := Start(query).value;
    var rest := query[|start.text|..];
    StartIsAccepted(legal, query);
    assert start.text + rest == query && Flat([]) + start.text == start.text;
    var front, last := AcceptedAll(legal, State([], start), [], start.text, rest);
    pieces := front + [last];
    FinishIsRead(legal, FeedAll(legal, State([], start), rest).value, front, last);
    FlatAdd(front, last);
  }

  // ---------- What the compiler accepts ----------

  lemma {:induction false} FlatAppend(a: seq<string>, b: seq<string>)
    ensures Flat(a + b) == Flat(a) + Flat(b)
    decreases |b|
  {
    if b == [] {
      assert a + b == a;
    } else {
      var front := b[..|b| - 1];
      assert (a + b)[..|a + b| - 1] == a + front;
      FlatAppend(a, front);
      Regroup(Flat(a), Flat(front), b[|b| - 1]);
    }
  }

  lemma FlatSplit(pieces: seq<string>, n: nat)
    requires n <= |pieces|
    ensures Flat(pieces) == Flat(pieces[..n]) + Flat(pieces[n..])
  {
    assert pieces == pieces[..n] + pieces[n..];
    FlatAppend(pieces[..n], pieces[n..]);
  }

  lemma Bracketing(a: string, tail: string)
    ensures "[" + (a + ("]" + tail)) == "[" + a + "]" + tail
  {
    Regroup("[", a, "]" + tail);
    Regroup("[" + a, "]", tail);
  }

  lemma FlatOne(a: string)
    ensures Flat([a]) == a
  {
    FlatAdd([], a);
    assert [] + [a] == [a] && "" + a == a;
  }

  /** Tokens that were read off some text, up to a place where a query can end. */
  ghost predicate Readable(legal: CharacterSet, ts: seq<Token>, pieces: seq<string>) {
    AllRead(legal, ts, pieces) && Linked(ts) && (ts != [] ==> CanEnd(Last(ts)))
  }

  lemma ReadableSuffix(legal: CharacterSet, ts: seq<Token>, pieces: seq<string>, n: nat)
    requires Readable(legal, ts, pieces) && n <= |ts|
    ensures Readable(legal, ts[n..], pieces[n..])
    ensures 0 < n < |ts| ==> Follows(ts[n - 1], ts[n..][0].kind)
  {
    forall i | 0 < i < |ts| - n ensures Follows(ts[n..][i - 1], ts[n..][i].kind) {
      assert Follows(ts[n + i - 1], ts[n + i].kind);
    }
  }

  lemma FirstPiece(pieces: seq<string>)
    requires pieces != []
    ensures Flat(pieces) == pieces[0] + Flat(pieces[1..])
  {
    FlatSplit(pieces, 1);
    assert pieces[..1] == [pieces[0]];
    FlatOne(pieces[0]);
  }

  lemma DropDrop<T>(s: seq<T>, m: nat, n: nat)
    requires m + n <= |s|
    ensures s[m..][n..] == s[m + n..]
  {
  }

  lemma OnFirst(env: Environment, f: Flags, ts: seq<Token>)
    requires ts != []
    ensures OnTokens(env, f, ts) ==
      match OnToken(env, f, ts[0]) case None => None case Some(next) => OnTokens(env, next, ts[1..])
  {
  }

  /** Reading the tokens takes `n` of them, up to a splitter or the end, that spell `text`,
  and leaves the compiler with the flags `next`. */
  ghost predicate Reads(
    env: Environment, f: Flags, ts: seq<Token>, pieces: seq<string>, n: nat, text: string, next: Flags)
  {
    && |ts| == |pieces| && n <= |ts| && (n < |ts| ==> ts[n].kind == Splitter)
    && Flat(pieces) == text + Flat(pieces[n..])
    && OnTokens(env, f, ts) == OnTokens(env, next, ts[n..])
  }

  lemma ReadsNone(env: Environment, f: Flags, ts: seq<Token>, pieces: seq<string>)
    requires |ts| == |pieces| && (ts != [] ==> ts[0].kind == Splitter)
    ensures Reads(env, f, ts, pieces, 0, "", f)
  {
    assert ts[0..] == ts && pieces[0..] == pieces && "" + Flat(pieces) == Flat(pieces);
  }

  lemma ReadsOneMore(
    env: Environment, f: Flags, ts: seq<Token>, pieces: seq<string>, g: Flags, n: nat, text: string, next: Flags)
    requires |ts| == |pieces| > 0 && OnToken(env, f, ts[0]) == Some(g)
    requires Reads(env, g, ts[1..], pieces[1..], n, text, next)
    ensures Reads(env, f, ts, pieces, n + 1, pieces[0] + text, next)
  {
    OnFirst(env, f, ts);
    FirstPiece(pieces);
    DropDrop(ts, 1, n);
    DropDrop(pieces, 1, n);
    Regroup(pieces[0], text, Flat(pieces[1..][n..]));
  }

  /** An opening bracket is followed by a number or a predicate and a closing bracket. */
  lemma BracketsClose(legal: CharacterSet, ts: seq<Token>, pieces: seq<string>)
    requires Readable(legal, ts, pieces) && ts != [] && ts[0].kind == OpeningBracket
    ensures |ts| >= 3 && (ts[1].kind == Number || IsPredicate(ts[1].kind)) && ts[2].kind == ClosingBracket
    ensures pieces[0] == "[" && pieces[2] == "]"
    ensures |ts| > 3 ==> ts[3].kind == Splitter || ts[3].kind == OpeningBracket
  {
    assert |ts| > 1 && Follows(ts[0], ts[1].kind);
    assert |ts| > 2 && Follows(ts[1], ts[2].kind);
    assert |ts| > 3 ==> Follows(ts[2], ts[3].kind);
  }

  lemma OnBrackets(env: Environment, f: Flags, ts: seq<Token>)
    requires |ts| >= 3 && ts[0].kind == OpeningBracket && ts[2].kind == ClosingBracket
    ensures OnTokens(env, f, ts) ==
      match OnToken(env, f, ts[1]) case None => None case Some(next) => OnTokens(env, next, ts[3..])
  {
    DropDrop(ts, 1, 1);
    DropDrop(ts, 2, 1);
    OnFirst(env, f, ts);
    OnFirst(env, f, ts[1..]);
    match OnToken(env, f, ts[1]) {
      case None =>
      case Some(next) => OnFirst(env, next, ts[2..]);
    }
  }

  lemma ReadsBrackets(
    env: Environment, f: Flags, ts: seq<Token>, pieces: seq<string>, g: Flags, n: nat, text: string, next: Flags)
    requires |ts| == |pieces| >= 3 && ts[0].kind == OpeningBracket && ts[2].kind == ClosingBracket
    requires pieces[0] == "[" && pieces[2] == "]" && OnToken(env, f, ts[1]) == Some(g)
    requires Reads(env, g, ts[3..], pieces[3..], n, text, next)
    ensures Reads(env, f, ts, pieces, n + 3, "[" + pieces[1] + "]" + text, next)
  {
    DropDrop(ts, 1, 1);
    DropDrop(ts, 2, 1);
    DropDrop(pieces, 1, 1);
    DropDrop(pieces, 2, 1);
    ReadsOneMore(env, g, ts[2..], pieces[2..], g, n, text, next);
    ReadsOneMore(env, f, ts[1..], pieces[1..], g, n + 1, "]" + text, next);
    ReadsOneMore(env, f, ts, pieces, f, n + 2, pieces[1] + ("]" + text), next);
    Bracketing(pieces[1], text);
  }

  /** What has been read between the type of an item and its end. */
  datatype Details = Details(predicates: seq<ParsedPredicate>, repeats: seq<nat>, number: string)

  predicate DetailsOk(env: Environment, d: Details) {
    && |d.predicates| == |d.repeats|
    && (forall j :: 0 <= j < |d.predicates| ==> Expressible(env.legal, d.predicates[j]))
    && (d.number != "" ==>
          IsNumber(d.number) && env.read(d.number).Some? && !IntValueIsZero(env.read(d.number).value))
  }

  function DetailsText(d: Details): string
    requires |d.predicates| == |d.repeats|
  {
    SpelledPredicates(d.predicates, d.repeats) + if d.number == "" then "" else "[" + d.number + "]"
  }

  function WithDetails(env: Environment, f: Flags, d: Details): Flags {
    f.(predicates := f.predicates + d.predicates,
       position := if d.number == "" then f.position else env.read(d.number),
       isPositionSet := f.isPositionSet || d.number != "")
  }

  const NO_DETAILS := Details([], [], "")

  lemma PredicateRead(legal: CharacterSet, t: Token, s: string) returns (p: ParsedPredicate, repeats: nat)
    requires IsPredicate(t.kind) && Read(legal, t, s)
    ensures Expressible(legal, p) && p == ParsedPredicate(t.kind == DescendantPredicate, t.text)
    ensures "[" + s + "]" == SpelledPredicate(p, repeats)
  {
    var n :| ReadsAs(legal, t, s, n);
    var marker := EnclosingMarker(t.kind);
    p, repeats := ParsedPredicate(t.kind == DescendantPredicate, t.text), n;
    assert KindOf(p) == t.kind;
    Bracketed([marker], Repeated(marker, n), Escaped(t.text, marker), [marker]);
  }

  lemma Bracketed(a: string, b: string, c: string, d: string)
    ensures "[" + (a + b + c + d) + "]" == "[" + a + b + c + d + "]"
  {
    Regroup("[", a + b + c, d);
    Regroup("[", a + b, c);
    Regroup("[", a, b);
  }

  lemma MorePredicates(env: Environment, p: ParsedPredicate, repeats: nat, rest: Details)
    requires DetailsOk(env, rest) && Expressible(env.legal, p)
    ensures var d := Details([p] + rest.predicates, [repeats] + rest.repeats, rest.number);
      DetailsOk(env, d) && DetailsText(d) == SpelledPredicate(p, repeats) + DetailsText(rest)
  {
    var ps, rs := [p] + rest.predicates, [repeats] + rest.repeats;
    assert ps[1..] == rest.predicates && rs[1..] == rest.repeats;
    Regroup(SpelledPredicate(p, repeats), SpelledPredicates(rest.predicates, rest.repeats),
      if rest.number == "" then "" else "[" + rest.number + "]");
  }

  /** A position in brackets, with no details after it. */
  lemma NumberAdds(env: Environment, f: Flags, t: Token, piece: string)
    requires t.kind == Number && Read(env.legal, t, piece) && OnToken(env, f, t).Some?
    ensures var d := Details([], [], t.text);
      && DetailsOk(env, d) && !f.isPositionSet && OnToken(env, f, t).value.isPositionSet
      && WithDetails(env, OnToken(env, f, t).value, NO_DETAILS) == WithDetails(env, f, d)
      && "[" + piece + "]" + DetailsText(NO_DETAILS) == DetailsText(d)
  {
    assert f.predicates + [] == f.predicates && DetailsText(NO_DETAILS) == "";
    assert "[" + piece + "]" + "" == "" + ("[" + piece + "]");
  }

  /** A predicate in brackets, with more details after it. */
  lemma PredicateAdds(env: Environment, f: Flags, t: Token, piece: string, rest: Details) returns (d: Details)
    requires IsPredicate(t.kind) && Read(env.legal, t, piece) && OnToken(env, f, t).Some? && DetailsOk(env, rest)
    ensures DetailsOk(env, d) && !f.isPositionSet
    ensures WithDetails(env, OnToken(env, f, t).value, rest) == WithDetails(env, f, d)
    ensures "[" + piece + "]" + DetailsText(rest) == DetailsText(d)
  {
    var p, repeats := PredicateRead(env.legal, t, piece);
    d := Details([p] + rest.predicates, [repeats] + rest.repeats, rest.number);
    MorePredicates(env, p, repeats, rest);
    Regroup(f.predicates, [p], rest.predicates);
  }

  lemma NoDetails(env: Environment, f: Flags)
    ensures WithDetails(env, f, NO_DETAILS) == f && DetailsText(NO_DETAILS) == ""
  {
    assert f.predicates + [] == f.predicates;
  }

  lemma {:induction false} DetailsRead(env: Environment, f: Flags, ts: seq<Token>, pieces: seq<string>)
    returns (n: nat, d: Details)
    requires Readable(env.legal, ts, pieces) && OnTokens(env, f, ts).Some?
    requires ts != [] ==> ts[0].kind == Splitter || ts[0].kind == OpeningBracket
    ensures DetailsOk(env, d) && Reads(env, f, ts, pieces, n, DetailsText(d), WithDetails(env, f, d))
    ensures f.isPositionSet ==> d == NO_DETAILS
    decreases |ts|
  {
    if ts == [] || ts[0].kind == Splitter {
      n, d := 0, NO_DETAILS;
      NoDetails(env, f);
      ReadsNone(env, f, ts, pieces);
    } else {
      BracketsClose(env.legal, ts, pieces);
      OnBrackets(env, f, ts);
      ReadableSuffix(env.legal, ts, pieces, 3);
      var next := OnToken(env, f, ts[1]).value;
      var m, rest := DetailsRead(env, next, ts[3..], pieces[3..]);
      n := m + 3;
      ReadsBrackets(env, f, ts, pieces, next, m, DetailsText(rest), WithDetails(env, next, rest));
      if ts[1].kind == Number {
        d := Details([], [], ts[1].text);
        NumberAdds(env, f, ts[1], pieces[1]);
      } else {
        d := PredicateAdds(env, f, ts[1], pieces[1], rest);
      }
    }
  }

  function ItemWith(env: Environment, typeName: string, d: Details, isDescendant: bool): ParsedItem {
    ParsedItem(typeName, if d.number == "" then None else env.read(d.number), d.predicates, isDescendant)
  }

  lemma TypeTokenRead(env: Environment, f: Flags, t: Token, piece: string)
    requires Read(env.legal, t, piece) && (t.kind == ClassName || t.kind == Star) && OnToken(env, f, t).Some?
    ensures piece == t.text && OnToken(env, f, t) == Some(f.(typeName := t.text, isTypeSet := true))
    ensures if t.kind == Star then t.text == ANY else IsName(t.text) && t.text in env.known
  {
  }

  /** The type of an item and what follows it. */
  lemma TypeRead(env: Environment, f: Flags, ts: seq<Token>, pieces: seq<string>)
    returns (n: nat, d: Details)
    requires Readable(env.legal, ts, pieces) && OnTokens(env, f, ts).Some?
    requires ts != [] && (ts[0].kind == ClassName || ts[0].kind == Star)
    ensures 0 < n && if ts[0].kind == Star then ts[0].text == ANY else IsName(ts[0].text) && ts[0].text in env.known
    ensures DetailsOk(env, d)
    ensures Reads(env, f, ts, pieces, n, ts[0].text + DetailsText(d),
      WithDetails(env, f.(typeName := ts[0].text, isTypeSet := true), d))
  {
    var typed := f.(typeName := ts[0].text, isTypeSet := true);
    OnFirst(env, f, ts);
    TypeTokenRead(env, f, ts[0], pieces[0]);
    ReadableSuffix(env.legal, ts, pieces, 1);
    var m, rest := DetailsRead(env, typed, ts[1..], pieces[1..]);
    n, d := m + 1, rest;
    ReadsOneMore(env, f, ts, pieces, typed, m, DetailsText(d), WithDetails(env, typed, d));
  }

  lemma ItemSpelled(env: Environment, typeName: string, d: Details, marker: string, isDescendant: bool)
    requires DetailsOk(env, d) && (typeName == ANY || (IsName(typeName) && typeName in env.known))
    requires isDescendant ==> marker == "**/" || (typeName != ANY && (marker == "**" || marker == "***"))
    ensures var item, sp := ItemWith(env, typeName, d, isDescendant), Spelling(marker, d.repeats, d.number);
      && Spells(env, item, sp)
      && SpelledItem(item, sp) == (if isDescendant then marker else "") + typeName + DetailsText(d)
  {
  }

  lemma ItemFlags(env: Environment, f: Flags, typeName: string, d: Details, isDescendant: bool)
    requires Cleared(f)
    ensures WithDetails(env, f.(isDescendantSet := isDescendant, typeName := typeName, isTypeSet := true), d)
         == WithItem(f, ItemWith(env, typeName, d, isDescendant))
      || (d.number != "" && env.read(d.number).None?)
  {
    assert f.predicates + d.predicates == d.predicates;
  }

  /** After a marker comes a type, and `*` only if the marker is complete. */
  lemma MarkerRead(env: Environment, f: Flags, ts: seq<Token>, pieces: seq<string>)
    requires Readable(env.legal, ts, pieces) && OnTokens(env, f, ts).Some?
    requires !f.isDescendantSet && ts != [] && ts[0].kind == DescendantMarker
    ensures |ts| > 1 && (ts[1].kind == ClassName || (ts[1].kind == Star && ts[0].text == "**/"))
    ensures IsMarker(ts[0].text) && pieces[0] == ts[0].text
  {
    assert |ts| > 1 && Follows(ts[0], ts[1].kind);
    OnFirst(env, f, ts);
    OnFirst(env, OnToken(env, f, ts[0]).value, ts[1..]);
  }

  lemma MarkedItemRead(env: Environment, f: Flags, ts: seq<Token>, pieces: seq<string>)
    returns (n: nat, item: ParsedItem, sp: Spelling)
    requires Readable(env.legal, ts, pieces) && OnTokens(env, f, ts).Some?
    requires Cleared(f) && ts != [] && ts[0].kind == DescendantMarker
    ensures 0 < n && Spells(env, item, sp)
    ensures Reads(env, f, ts, pieces, n, SpelledItem(item, sp), WithItem(f, item))
  {
    var marker, marked := ts[0].text, f.(isDescendantSet := true);
    MarkerRead(env, f, ts, pieces);
    OnFirst(env, f, ts);
    assert OnToken(env, f, ts[0]) == Some(marked);
    ReadableSuffix(env.legal, ts, pieces, 1);
    var m, d := TypeRead(env, marked, ts[1..], pieces[1..]);
    var typeName := ts[1].text;
    n := m + 1;
    ReadsOneMore(env, f, ts, pieces, marked, m, typeName + DetailsText(d),
      WithDetails(env, marked.(typeName := typeName, isTypeSet := true), d));
    if IsName(typeName) { assert IsLetter(typeName[0]); }
    item, sp := ItemWith(env, typeName, d, true), Spelling(marker, d.repeats, d.number);
    ItemSpelled(env, typeName, d, marker, true);
    ItemFlags(env, f, typeName, d, true);
    Regroup(marker, typeName, DetailsText(d));
  }

  /** The first item of some tokens, how it was spelled, and where it ends. */
  lemma ItemRead(env: Environment, f: Flags, ts: seq<Token>, pieces: seq<string>)
    returns (n: nat, item: ParsedItem, sp: Spelling)
    requires Readable(env.legal, ts, pieces) && OnTokens(env, f, ts).Some?
    requires Cleared(f) && ts != [] && Starts(ts[0].kind)
    ensures 0 < n && Spells(env, item, sp)
    ensures Reads(env, f, ts, pieces, n, SpelledItem(item, sp), WithItem(f, item))
  {
    if ts[0].kind == DescendantMarker {
      n, item, sp := MarkedItemRead(env, f, ts, pieces);
    } else {
      var m, d := TypeRead(env, f, ts, pieces);
      var typeName := ts[0].text;
      n, item, sp := m, ItemWith(env, typeName, d, false), Spelling("", d.repeats, d.number);
      ItemSpelled(env, typeName, d, "", false);
      ItemFlags(env, f, typeName, d, false);
      assert "" + typeName == typeName;
    }
  }

  lemma ChainSpelledMore(
    env: Environment, item: ParsedItem, sp: Spelling, rest: seq<ParsedItem>, spells: seq<Spelling>)
    requires rest != [] && Spells(env, item, sp) && AllSpell(env, rest, spells)
    ensures AllSpell(env, [item] + rest, [sp] + spells)
    ensures SpelledChain(env, [item] + rest, [sp] + spells)
         == SpelledItem(item, sp) + ("/" + SpelledChain(env, rest, spells))
  {
    var chain, sps := [item] + rest, [sp] + spells;
    assert chain[1..] == rest && sps[1..] == spells;
    assert AllSpell(env, chain, sps);
  }

  lemma OneSpelled(env: Environment, item: ParsedItem, sp: Spelling)
    requires Spells(env, item, sp)
    ensures AllSpell(env, [item], [sp]) && SpelledChain(env, [item], [sp]) == SpelledItem(item, sp) + ""
  {
  }

  /** The splitter between two items. */
  lemma SplitterRead(env: Environment, f: Flags, item: ParsedItem, ts: seq<Token>, pieces: seq<string>)
    requires Readable(env.legal, ts, pieces) && ts != [] && ts[0].kind == Splitter && Cleared(f)
    requires OnTokens(env, WithItem(f, item), ts).Some?
    ensures var next := OnSplitter(WithItem(f, item));
      && Cleared(next) && next.items == f.items + [item]
      && OnTokens(env, WithItem(f, item), ts) == OnTokens(env, next, ts[1..])
    ensures Readable(env.legal, ts[1..], pieces[1..])
    ensures |ts| > 1 && Starts(ts[1].kind) && Flat(pieces) == "/" + Flat(pieces[1..])
  {
    OnSplit(env, f, item);
    ReadableSuffix(env.legal, ts, pieces, 1);
    assert |ts| > 1 && Follows(ts[0], ts[1].kind);
    FirstPiece(pieces);
  }

  /** Tokens that compile spell the chain that they compile to. */
  lemma {:induction false} ChainRead(env: Environment, f: Flags, ts: seq<Token>, pieces: seq<string>)
    returns (chain: seq<ParsedItem>, sps: seq<Spelling>)
    requires Readable(env.legal, ts, pieces) && OnTokens(env, f, ts).Some?
    requires Cleared(f) && ts != [] && Starts(ts[0].kind)
    ensures chain != [] && AllSpell(env, chain, sps) && Flat(pieces) == SpelledChain(env, chain, sps)
    ensures OnEnd(OnTokens(env, f, ts).value) == Some(f.items + chain)
    decreases |ts|
  {
    var n, item, sp := ItemRead(env, f, ts, pieces);
    if n == |ts| {
      chain, sps := [item], [sp];
      OnLast(f, item);
      OneSpelled(env, item, sp);
      assert pieces[n..] == [] && ts[n..] == [];
    } else {
      ReadableSuffix(env.legal, ts, pieces, n);
      SplitterRead(env, f, item, ts[n..], pieces[n..]);
      var rest, spells := ChainRead(env, OnSplitter(WithItem(f, item)), ts[n..][1..], pieces[n..][1..]);
      chain, sps := [item] + rest, [sp] + spells;
      ChainSpelledMore(env, item, sp, rest, spells);
      Regroup(f.items, [item], rest);
    }
  }

  // ---------- The language ----------

  /** Is the query a spelling of the chain? */
  ghost predicate IsSpelling(env: Environment, query: string, chain: seq<ParsedItem>) {
    chain != [] && exists sps :: AllSpell(env, chain, sps) && SpelledChain(env, chain, sps) == query
  }

  lemma ParsedIsSpelled(env: Environment, query: string)
    requires query != "" && Parsed(env, query).Some?
    ensures IsSpelling(env, query, Parsed(env, query).value)
  {
    var ts := Tokens(env.legal, query).value;
    var pieces := TokensAreRead(env.legal, query);
    var chain, sps := ChainRead(env, NO_FLAGS, ts, pieces);
    assert [] + chain == chain;
  }

  /** A query is parsed as a chain exactly when it spells the chain; all other queries are rejected. */
  lemma ParsesIff(env: Environment, query: string, chain: seq<ParsedItem>)
    requires query != ""
    ensures Parsed(env, query) == Some(chain) <==> IsSpelling(env, query, chain)
  {
    if Parsed(env, query) == Some(chain) {
      ParsedIsSpelled(env, query);
    }
    if IsSpelling(env, query, chain) {
      var sps :| AllSpell(env, chain, sps) && SpelledChain(env, chain, sps) == query;
      SpelledIsParsed(env, chain, sps);
    }
  }
}
