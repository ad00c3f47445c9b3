/** Compiling the tokens of a class chain query into chain items. */
module ChainParser {
  import opened Wrappers
  import opened ChainTokens
  import opened MachineIntegers

  datatype ParsedPredicate = ParsedPredicate(onDescendants: bool, text: string)

  /** An item; the type name `*` stands for any type. */
  datatype ParsedItem = ParsedItem(
    typeName: string, position: Option<NSInteger>, predicates: seq<ParsedPredicate>, isDescendant: bool)

  /** What is foreign to the parser: the legal characters, the class names it knows, and
  reading and writing numbers. */
  datatype Environment = Environment(
    legal: CharacterSet, known: set<string>, read: string -> Option<NSInteger>, write: NSInteger -> string)

  const ANY := "*"

  // ---------- The compiler ----------

  datatype Flags = Flags(
    items: seq<ParsedItem>, typeName: string, position: Option<NSInteger>, isTypeSet: bool, isPositionSet: bool,
    isDescendantSet: bool, predicates: seq<ParsedPredicate>)

  const NO_FLAGS := Flags([], ANY, None, false, false, false, [])

  /** The low 32 bits of a position, which the parser compares with zero. */
  predicate IntValueIsZero(p: NSInteger) {
    p % 0x1_0000_0000 == 0
  }

  function ItemOf(f: Flags, isDescendant: bool): ParsedItem {
    ParsedItem(f.typeName, if f.isPositionSet then f.position else None, f.predicates, isDescendant)
  }

  function OnSplitter(f: Flags): Flags {
    var position := if f.isPositionSet then f.position else None;
    var done := f.(position := position, isTypeSet := false, isPositionSet := false, predicates := []);
    if !f.isDescendantSet then done.(items := f.items + [ItemOf(f, false)])
    else if f.isTypeSet then done.(items := f.items + [ItemOf(f, true)], isDescendantSet := false)
    else done
  }

  function OnToken(env: Environment, f: Flags, t: Token): Option<Flags> {
    match t.kind
    case ClassName =>
      if f.isTypeSet || t.text !in env.known then None else Some(f.(typeName := t.text, isTypeSet := true))
    case Star =>
      if f.isTypeSet then None else Some(f.(typeName := ANY, isTypeSet := true))
    case DescendantMarker =>
      if f.isDescendantSet then None
      else Some(f.(isTypeSet := false, isPositionSet := false, predicates := [], isDescendantSet := true))
    case SelfPredicate => OnPredicate(f, t)
    case DescendantPredicate => OnPredicate(f, t)
    case Number =>
      var position := env.read(t.text);
      if f.isPositionSet || position.None? || IntValueIsZero(position.value) then None
      else Some(f.(position := position, isPositionSet := true))
    case Splitter => Some(OnSplitter(f))
    case _ => Some(f)
  }

  function OnPredicate(f: Flags, t: Token): Option<Flags> {
    if f.isPositionSet || !t.isParsingCompleted then None
    else Some(f.(predicates := f.predicates + [ParsedPredicate(t.kind == DescendantPredicate, t.text)]))
  }

  function OnTokens(env: Environment, f: Flags, ts: seq<Token>): Option<Flags>
    decreases |ts|
  {
    if ts == [] then Some(f)
    else
      match OnToken(env, f, ts[0])
      case None => None
      case Some(next) => OnTokens(env, next, ts[1..])
  }

  function OnEnd(f: Flags): Option<seq<ParsedItem>> {
    if f.isDescendantSet && !f.isTypeSet then None
    else Some(f.items + [ItemOf(f, f.isDescendantSet)])
  }

  function Compiled(env: Environment, ts: seq<Token>): Option<seq<ParsedItem>> {
    match OnTokens(env, NO_FLAGS, ts)
    case None => None
    case Some(f) => OnEnd(f)
  }

  method CompiledQuery(env: Environment, tokens: seq<Token>) returns (r: Option<seq<ParsedItem>>)
    ensures r == Compiled(env, tokens)
  {
    var result: seq<ParsedItem> := [];
    var typeName := ANY;
    var position: Option<NSInteger> := None;
    var isTypeSet, isPositionSet, isDescendantSet := false, false, false;
    var predicates: seq<ParsedPredicate> := [];
    for i := 0 to |tokens|
      invariant
        var f := Flags(result, typeName, position, isTypeSet, isPositionSet, isDescendantSet, predicates);
        OnTokens(env, NO_FLAGS, tokens) == OnTokens(env, f, tokens[i..])
    {
      var token := tokens[i];
      assert tokens[i..][0] == token && tokens[i..][1..] == tokens[i + 1..];
      match token.kind {
        case ClassName =>
          if isTypeSet || token.text !in env.known { return None; }
          typeName, isTypeSet := token.text, true;
        case Star =>
          if isTypeSet { return None; }
          typeName, isTypeSet := ANY, true;
        case DescendantMarker =>
          if isDescendantSet { return None; }
          isTypeSet, isPositionSet, predicates, isDescendantSet := false, false, [], true;
        case SelfPredicate =>
          if isPositionSet || !token.isParsingCompleted { return None; }
          predicates := predicates + [ParsedPredicate(false, token.text)];
        case DescendantPredicate =>
          if isPositionSet || !token.isParsingCompleted { return None; }
          predicates := predicates + [ParsedPredicate(true, token.text)];
        case Number =>
          if isPositionSet { return None; }
          var number := env.read(token.text);
          if number.None? || IntValueIsZero(number.value) { return None; }
          position, isPositionSet := number, true;
        case Splitter =>
          if !isPositionSet { position := None; }
          if isDescendantSet {
            if isTypeSet {
              result := result + [ParsedItem(typeName, position, predicates, true)];
              isDescendantSet := false;
            }
          } else {
            result := result + [ParsedItem(typeName, position, predicates, false)];
          }
          isTypeSet, isPositionSet, predicates := false, false, [];
        case _ =>
      }
    }
    if !isPositionSet { position := None; }
    if isDescendantSet && !isTypeSet { return None; }
    return Some(result + [ParsedItem(typeName, position, predicates, isDescendantSet)]);
  }

  function Parsed(env: Environment, query: string): Option<seq<ParsedItem>>
    requires query != ""
  {
    match Tokens(env.legal, query)
    case None => None
    case Some(ts) => Compiled(env, ts)
  }

  method ParseQuery(env: Environment, query: string) returns (r: Option<seq<ParsedItem>>)
    requires query != ""
    ensures r == Parsed(env, query)
  {
    var tokens := TokenizedQuery(env.legal, query);
    if tokens.None? {
      return None;
    }
    r := CompiledQuery(env, tokens.value);
  }
}
