/** Splitting a class chain query into tokens.

Letters and digits are the ASCII ones; class names have no others. Which characters
are legal in a predicate is foreign; the enclosing markers and `]` are. */
module ChainTokens {
  import opened Wrappers

  datatype Kind =
    | ClassName | Star | DescendantMarker | Splitter | OpeningBracket | ClosingBracket | Number
    | SelfPredicate | DescendantPredicate

  datatype Token = Token(kind: Kind, text: string, isParsingCompleted: bool, itemsToOverride: nat)

  /** The characters outside the illegal ones of Unicode. */
  type CharacterSet = legal: char -> bool | legal('`') && legal('$') && legal(']') witness c => true

  const DESCENDANT_MARKER := "**/"

  predicate IsLetter(c: char) {
    'a' <= c <= 'z' || 'A' <= c <= 'Z'
  }

  predicate IsPredicate(kind: Kind) {
    kind == SelfPredicate || kind == DescendantPredicate
  }

  /** The character that encloses a predicate. */
  function EnclosingMarker(kind: Kind): char {
    if kind == SelfPredicate then '`' else '$'
  }

  predicate CanConsume(kind: Kind, c: char) {
    match kind
    case ClassName => IsLetter(c)
    case Star => c == '*'
    case DescendantMarker => c == '*' || c == '/'
    case Splitter => c == '/'
    case OpeningBracket => c == '['
    case ClosingBracket => c == ']'
    case Number => '0' <= c <= '9' || c == '-'
    case SelfPredicate => c == EnclosingMarker(kind)
    case DescendantPredicate => c == EnclosingMarker(kind)
  }

  predicate HasRoom(t: Token) {
    match t.kind
    case DescendantMarker => |t.text| < 3
    case Splitter => |t.text| < 1
    case OpeningBracket => |t.text| < 1
    case ClosingBracket => |t.text| < 1
    case _ => true
  }

  function FirstThatConsumes(c: char, first: Kind, second: Kind): Option<Kind> {
    if CanConsume(first, c) then Some(first) else if CanConsume(second, c) then Some(second) else None
  }

  /** The first of the kinds allowed after `kind` that can consume the character. */
  function Follower(kind: Kind, c: char): Option<Kind> {
    match kind
    case ClassName => FirstThatConsumes(c, Splitter, OpeningBracket)
    case Star => FirstThatConsumes(c, Splitter, OpeningBracket)
    case DescendantMarker => FirstThatConsumes(c, ClassName, Star)
    case Splitter => FirstThatConsumes(c, Star, ClassName)
    case OpeningBracket =>
      if CanConsume(Number, c) then Some(Number) else FirstThatConsumes(c, SelfPredicate, DescendantPredicate)
    case ClosingBracket => FirstThatConsumes(c, Splitter, OpeningBracket)
    case _ => if CanConsume(ClosingBracket, c) then Some(ClosingBracket) else None
  }

  /** What a token makes of the next character: it rejects it, takes it itself, or
  is left in its final form for a new token that takes it. */
  datatype Next = Rejected | Same(token: Token) | Other(left: Token, token: Token)

  /** A new token after its first character; the opening marker of a predicate is not part of its text. */
  function First(kind: Kind, c: char): Token {
    Token(kind, if IsPredicate(kind) then "" else [c], false, 0)
  }

  function FollowingToken(left: Token, c: char): Next {
    var kind := Follower(left.kind, c);
    if kind.Some? then Other(left, First(kind.value, c)) else Rejected
  }

  function Append(t: Token, c: char): Token {
    t.(text := t.text + [c])
  }

  function NextToken(legal: CharacterSet, t: Token, c: char): Next {
    match t.kind
    case Star =>
      if c == '*' then
        if |t.text| >= 1 then Other(t, Token(DescendantMarker, "**", false, 1)) else Same(Append(t, c))
      else FollowingToken(t, c)
    case DescendantMarker =>
      if CanConsume(t.kind, c) && |t.text| <= 3 && t.text != "" && !(t.text <= DESCENDANT_MARKER) then Rejected
      else if CanConsume(t.kind, c) && |t.text| < 3 then Same(Append(t, c))
      else FollowingToken(t, c)
    case SelfPredicate => NextInPredicate(legal, t, c)
    case DescendantPredicate => NextInPredicate(legal, t, c)
    case _ =>
      if CanConsume(t.kind, c) && HasRoom(t) then Same(Append(t, c))
      else FollowingToken(t, c)
  }

  /** Until the closing marker every legal character is text; a second marker right
  after it takes the closing back. An illegal character can only follow the predicate. */
  function NextInPredicate(legal: CharacterSet, t: Token, c: char): Next {
    var marker := EnclosingMarker(t.kind);
    if !t.isParsingCompleted && legal(c) then
      if t.text == "" && c == marker then Same(t)
      else Same(Append(t, c).(isParsingCompleted := t.text != "" && c == marker))
    else if t.isParsingCompleted && c == marker then Same(t.(isParsingCompleted := false))
    else if t.isParsingCompleted then
      FollowingToken(t.(text := if t.text == "" then "" else t.text[..|t.text| - 1]), c)
    else FollowingToken(t, c)
  }

  // ---------- The loop over the query ----------

  datatype State = State(result: seq<Token>, token: Token)

  /** Takes back the items that a new token replaces. */
  function Override(result: seq<Token>, t: Token): seq<Token> {
    if t.itemsToOverride == 0 then result
    else if t.itemsToOverride > |result| then [] else result[..|result| - t.itemsToOverride]
  }

  function Feed(legal: CharacterSet, st: State, c: char): Option<State> {
    match NextToken(legal, st.token, c)
    case Rejected => None
    case Same(token) => Some(State(st.result, token))
    case Other(left, token) => Some(State(Override(st.result + [left], token), token))
  }

  function FeedAll(legal: CharacterSet, st: State, s: string): Option<State>
    decreases |s|
  {
    if s == "" then Some(st)
    else
      match Feed(legal, st, s[0])
      case None => None
      case Some(next) => FeedAll(legal, next, s[1..])
  }

  /** The first token of a query. */
  function Start(query: string): Option<Token>
    requires query != ""
  {
    if DESCENDANT_MARKER <= query then Some(Token(DescendantMarker, DESCENDANT_MARKER, false, 0))
    else if CanConsume(ClassName, query[0]) then Some(First(ClassName, query[0]))
    else if CanConsume(Star, query[0]) then Some(First(Star, query[0]))
    else None
  }

  predicate CanEnd(t: Token) {
    t.kind == ClosingBracket || t.kind == ClassName || t.kind == Star
  }

  function Finish(st: State): Option<seq<Token>> {
    if CanEnd(st.token) then Some(Override(st.result, st.token) + [st.token]) else None
  }

  function Tokens(legal: CharacterSet, query: string): Option<seq<Token>>
    requires query != ""
  {
    match Start(query)
    case None => None
    case Some(token) =>
      match FeedAll(legal, State([], token), query[|token.text|..])
      case None => None
      case Some(st) => Finish(st)
  }

  method TokenizedQuery(legal: CharacterSet, query: string) returns (r: Option<seq<Token>>)
    requires query != ""
    ensures r == Tokens(legal, query)
  {
    var start := Start(query);
    if start.None? {
      return None;
    }
    var token := start.value;
    var result: seq<Token> := [];
    for charIdx := |token.text| to |query|
      invariant FeedAll(legal, State(result, token), query[charIdx..])
             == FeedAll(legal, State([], start.value), query[|start.value.text|..])
    {
      assert query[charIdx..][1..] == query[charIdx + 1..];
      match NextToken(legal, token, query[charIdx]) {
        case Rejected =>
          return None;
        case Same(next) =>
          token := next;
        case Other(left, next) =>
          result := Override(result + [left], next);
          token := next;
      }
    }
    if !CanEnd(token) {
      return None;
    }
    return Some(Override(result, token) + [token]);
  }

  lemma {:induction false} FeedAppend(legal: CharacterSet, st: State, a: string, b: string)
    ensures FeedAll(legal, st, a + b) ==
      match FeedAll(legal, st, a) case None => None case Some(next) => FeedAll(legal, next, b)
    decreases |a|
  {
    if a == "" {
      assert a + b == b;
    } else {
      assert (a + b)[1..] == a[1..] + b;
      match Feed(legal, st, a[0]) {
        case None =>
        case Some(next) => FeedAppend(legal, next, a[1..], b);
      }
    }
  }
}
