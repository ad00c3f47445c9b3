/** The JSON projection of a snapshot tree, with excluded attributes. */
module JsonTree {
  import opened ElementTree
  import opened Wrappers

  datatype ElementType =
    | TextView | TextField | SearchField | SecureTextField
    | Slider | Stepper
    | OtherType(code: int)

  datatype Attribute =
    | Frame | NativeFrame | Enabled | Visible | Accessible | Focused | Traits
    | PlaceholderValue | MinValue | MaxValue

  /** An attribute missing from `attributes` reads as nil. */
  datatype Data = Data(
    elementType: ElementType, shortType: string, identifier: string, rect: string,
    wdName: Option<string>, wdValue: Option<string>, wdLabel: Option<string>,
    attributes: map<Attribute, string>)

  type AttributedSnapshot = Tree<Data>

  datatype Json = Null | String(text: string)

  type Dictionary = map<string, Json>

  /** A dictionary without a `children` key has no children here. */
  type JsonNode = Tree<Dictionary>

  function ValueOrNull(value: Option<string>): Json {
    if value.Some? then String(value.value) else Null
  }

  // ---------- Attributes and their keys ----------

  function Name(a: Attribute): string {
    match a
    case Frame => "frame"
    case NativeFrame => "nativeFrame"
    case Enabled => "enabled"
    case Visible => "visible"
    case Accessible => "accessible"
    case Focused => "focused"
    case Traits => "traits"
    case PlaceholderValue => "placeholderValue"
    case MinValue => "minValue"
    case MaxValue => "maxValue"
  }

  const NON_PREFIXED_KEYS := {
    Name(Frame), Name(PlaceholderValue), Name(NativeFrame), Name(Traits), Name(MinValue), Name(MaxValue)
  }

  function Upper(c: char): char {
    if 'a' <= c <= 'z' then ((c as int) - 32) as char else c
  }

  function Lower(c: char): char {
    if 'A' <= c <= 'Z' then ((c as int) + 32) as char else c
  }

  /** `capitalizedString` of a single word of letters. */
  function Capitalized(word: string): string {
    if word == "" then "" else [Upper(word[0])] + seq(|word| - 1, i requires 0 <= i < |word| - 1 => Lower(word[i + 1]))
  }

  function Key(name: string): string {
    if name in NON_PREFIXED_KEYS then name else "is" + Capitalized(name)
  }

  predicate SupportsInnerText(t: ElementType) {
    t == TextView || t == TextField || t == SearchField || t == SecureTextField
  }

  predicate SupportsMinMaxValue(t: ElementType) {
    t == Slider || t == Stepper
  }

  /** The attributes that have a value block for this element. */
  function AttributeBlocks(d: Data): set<Attribute> {
    {Frame, NativeFrame, Enabled, Visible, Accessible, Focused, Traits}
    + (if SupportsInnerText(d.elementType) then {PlaceholderValue} else {})
    + (if SupportsMinMaxValue(d.elementType) then {MinValue, MaxValue} else {})
  }

  /** What the block of an attribute gives; `None` is nil. */
  function BlockValue(d: Data, a: Attribute): Option<Json> {
    if a in d.attributes then Some(String(d.attributes[a]))
    else if a == PlaceholderValue then Some(Null)
    else None
  }

  function BaseInfo(d: Data): Dictionary {
    map[
      "type" := String(d.shortType),
      "rawIdentifier" := if d.identifier == "" then Null else String(d.identifier),
      "name" := ValueOrNull(d.wdName),
      "value" := ValueOrNull(d.wdValue),
      "label" := ValueOrNull(d.wdLabel),
      "rect" := String(d.rect)
    ]
  }

  /** Assignment by subscript: nil removes the key. */
  function Assign(info: Dictionary, key: string, value: Option<Json>): Dictionary {
    if value.Some? then info[key := value.value] else info - {key}
  }

  // ---------- Renaming never collides ----------

  function KeyFor(a: Attribute): string {
    Key(Name(a))
  }

  lemma KeyLooks(a: Attribute)
    ensures |KeyFor(a)| > 2
    ensures (|KeyFor(a)|, KeyFor(a)[2]) == match a
      case Frame => (5, 'a')
      case NativeFrame => (11, 't')
      case Enabled => (9, 'E')
      case Visible => (9, 'V')
      case Accessible => (12, 'A')
      case Focused => (9, 'F')
      case Traits => (6, 'a')
      case PlaceholderValue => (16, 'a')
      case MinValue => (8, 'n')
      case MaxValue => (8, 'x')
  {
  }

  const BASE_KEYS := {"type", "rawIdentifier", "name", "value", "label", "rect"}

  /** Different attributes get different keys, none of them the key of a base entry or of the children. */
  lemma KeysNeverCollide(a: Attribute, b: Attribute)
    ensures KeyFor(a) == KeyFor(b) ==> a == b
    ensures KeyFor(a) !in BASE_KEYS && KeyFor(a) != "children"
  {
    KeyLooks(a);
    KeyLooks(b);
  }

  ghost predicate Distinct(keyOf: Attribute -> string, base: Dictionary) {
    && (forall a, b :: keyOf(a) == keyOf(b) ==> a == b)
    && (forall a :: keyOf(a) !in base)
  }

  lemma KeysAreDistinct(d: Data)
    ensures Distinct(KeyFor, BaseInfo(d))
  {
    assert BaseInfo(d).Keys == BASE_KEYS;
    forall a, b ensures KeyFor(a) == KeyFor(b) ==> a == b { KeysNeverCollide(a, b); }
    forall a ensures KeyFor(a) !in BaseInfo(d) { KeysNeverCollide(a, a); }
  }

  // ---------- The projection ----------

  /** A base dictionary with an entry for each of the attributes that has a value. */
  function WithEntries(
    base: Dictionary, keyOf: Attribute -> string, valueOf: Attribute -> Option<Json>, attributes: set<Attribute>)
    : Dictionary
    requires Distinct(keyOf, base)
  {
    base + map a | a in attributes && valueOf(a).Some? :: keyOf(a) := valueOf(a).value
  }

  ghost predicate Entry(
    keyOf: Attribute -> string, valueOf: Attribute -> Option<Json>, attributes: set<Attribute>, k: string, v: Json) {
    exists a :: a in attributes && keyOf(a) == k && valueOf(a) == Some(v)
  }

  /** What is found under a key: a base entry or the value of the one attribute with that key. */
  lemma Lookup(
    base: Dictionary, keyOf: Attribute -> string, valueOf: Attribute -> Option<Json>, attributes: set<Attribute>,
    k: string)
    requires Distinct(keyOf, base)
    ensures var info := WithEntries(base, keyOf, valueOf, attributes);
      && (k in info <==> k in base || exists v :: Entry(keyOf, valueOf, attributes, k, v))
      && (k in base ==> info[k] == base[k])
      && (k in info && k !in base ==> Entry(keyOf, valueOf, attributes, k, info[k]))
  {
    var info := WithEntries(base, keyOf, valueOf, attributes);
    if k in info && k !in base {
      var a :| a in attributes && valueOf(a).Some? && keyOf(a) == k;
      assert Entry(keyOf, valueOf, attributes, k, valueOf(a).value);
    }
  }

  predicate SameAt(m: Dictionary, n: Dictionary, k: string) {
    (k in m <==> k in n) && (k in m ==> m[k] == n[k])
  }

  lemma SameEverywhere(m: Dictionary, n: Dictionary)
    requires forall k :: SameAt(m, n, k)
    ensures m == n
  {
    forall k ensures k in m <==> k in n { assert SameAt(m, n, k); }
    forall k | k in m ensures m[k] == n[k] { assert SameAt(m, n, k); }
  }

  lemma AssignedIs(fewer: Dictionary, more: Dictionary, key: string, value: Option<Json>)
    requires forall k :: if k == key then (k in more <==> value.Some?) && (k in more ==> more[k] == value.value)
                         else SameAt(more, fewer, k)
    ensures more == Assign(fewer, key, value)
  {
    forall k ensures SameAt(more, Assign(fewer, key, value), k) { assert k != key ==> SameAt(more, fewer, k); }
    SameEverywhere(more, Assign(fewer, key, value));
  }

  lemma OneMoreLookup(
    base: Dictionary, keyOf: Attribute -> string, valueOf: Attribute -> Option<Json>, attributes: set<Attribute>,
    a: Attribute, k: string)
    requires Distinct(keyOf, base) && a !in attributes
    ensures var fewer := WithEntries(base, keyOf, valueOf, attributes);
      var more := WithEntries(base, keyOf, valueOf, attributes + {a});
      if k == keyOf(a) then (k in more <==> valueOf(a).Some?) && (k in more ==> more[k] == valueOf(a).value)
      else SameAt(more, fewer, k)
  {
    Lookup(base, keyOf, valueOf, attributes, k);
    Lookup(base, keyOf, valueOf, attributes + {a}, k);
    if k == keyOf(a) {
      if valueOf(a).Some? { assert Entry(keyOf, valueOf, attributes + {a}, k, valueOf(a).value); }
    } else {
      forall v ensures Entry(keyOf, valueOf, attributes, k, v) <==> Entry(keyOf, valueOf, attributes + {a}, k, v) { }
    }
  }

  lemma OneMoreEntry(
    base: Dictionary, keyOf: Attribute -> string, valueOf: Attribute -> Option<Json>, attributes: set<Attribute>,
    a: Attribute)
    requires Distinct(keyOf, base) && a !in attributes
    ensures WithEntries(base, keyOf, valueOf, attributes + {a})
         == Assign(WithEntries(base, keyOf, valueOf, attributes), keyOf(a), valueOf(a))
  {
    var fewer := WithEntries(base, keyOf, valueOf, attributes);
    var more := WithEntries(base, keyOf, valueOf, attributes + {a});
    forall k
      ensures if k == keyOf(a) then (k in more <==> valueOf(a).Some?) && (k in more ==> more[k] == valueOf(a).value)
              else SameAt(more, fewer, k)
    {
      OneMoreLookup(base, keyOf, valueOf, attributes, a, k);
    }
    AssignedIs(fewer, more, keyOf(a), valueOf(a));
  }

  lemma EntriesLess(
    base: Dictionary, keyOf: Attribute -> string, valueOf: Attribute -> Option<Json>,
    all: set<Attribute>, out: set<Attribute>)
    requires Distinct(keyOf, base)
    ensures WithEntries(base, keyOf, valueOf, all - out)
         == WithEntries(base, keyOf, valueOf, all) - set a | a in out :: keyOf(a)
  {
    var fewer, more := WithEntries(base, keyOf, valueOf, all - out), WithEntries(base, keyOf, valueOf, all);
    var keys := set a | a in out :: keyOf(a);
    forall k ensures SameAt(fewer, more - keys, k) {
      Lookup(base, keyOf, valueOf, all, k);
      Lookup(base, keyOf, valueOf, all - out, k);
    }
    SameEverywhere(fewer, more - keys);
  }

  function Blocks(d: Data): Attribute -> Option<Json> {
    a => BlockValue(d, a)
  }

  /** The dictionary of one element with the given attributes. */
  function InfoWith(d: Data, attributes: set<Attribute>): Dictionary {
    KeysAreDistinct(d);
    WithEntries(BaseInfo(d), KeyFor, Blocks(d), attributes)
  }

  predicate IsExcluded(name: string, excluded: Option<set<string>>) {
    excluded.Some? && name in excluded.value
  }

  function NotExcluded(attributes: set<Attribute>, nameOf: Attribute -> string, excluded: Option<set<string>>)
    : set<Attribute>
  {
    set a | a in attributes && !IsExcluded(nameOf(a), excluded)
  }

  /** `excluded` is `None` when no set is given. */
  function InfoOf(d: Data, excluded: Option<set<string>>): Dictionary {
    InfoWith(d, NotExcluded(AttributeBlocks(d), Name, excluded))
  }

  function Projection(s: AttributedSnapshot, excluded: Option<set<string>>): JsonNode {
    Node(
      InfoOf(s.data, excluded),
      seq(|s.children|, i requires 0 <= i < |s.children| => Projection(s.children[i], excluded)))
  }

  lemma NoEntries(base: Dictionary, keyOf: Attribute -> string, valueOf: Attribute -> Option<Json>)
    requires Distinct(keyOf, base)
    ensures WithEntries(base, keyOf, valueOf, {}) == base
  {
  }

  /** Runs the value blocks that are not excluded, in an arbitrary order. */
  method AddBlockValues(
    base: Dictionary, nameOf: Attribute -> string, keyOf: Attribute -> string, valueOf: Attribute -> Option<Json>,
    attributeBlocks: set<Attribute>, excluded: Option<set<string>>)
    returns (info: Dictionary)
    requires Distinct(keyOf, base)
    ensures info == WithEntries(base, keyOf, valueOf, NotExcluded(attributeBlocks, nameOf, excluded))
  {
    info := base;
    NoEntries(base, keyOf, valueOf);
    var blocks := attributeBlocks;
    ghost var included: set<Attribute> := {};
    while blocks != {}
      invariant blocks <= attributeBlocks
      invariant forall a :: a in included <==> a in attributeBlocks && a !in blocks && !IsExcluded(nameOf(a), excluded)
      invariant info == WithEntries(base, keyOf, valueOf, included)
      decreases |blocks|
    {
      var a :| a in blocks;
      if !IsExcluded(nameOf(a), excluded) {
        OneMoreEntry(base, keyOf, valueOf, included, a);
        info := Assign(info, keyOf(a), valueOf(a));
        included := included + {a};
      }
      blocks := blocks - {a};
    }
    assert included == NotExcluded(attributeBlocks, nameOf, excluded);
  }

  lemma ProjectionAtRoot(s: AttributedSnapshot, excluded: Option<set<string>>)
    ensures Projection(s, excluded).data == InfoOf(s.data, excluded)
  {
  }

  /** Are these the projections of the first children? */
  predicate ProjectsChildren(s: AttributedSnapshot, excluded: Option<set<string>>, children: seq<JsonNode>) {
    && |children| <= |s.children|
    && forall j :: 0 <= j < |children| ==> children[j] == Projection(s.children[j], excluded)
  }

  lemma OneMoreChild(s: AttributedSnapshot, excluded: Option<set<string>>, children: seq<JsonNode>, child: JsonNode)
    requires ProjectsChildren(s, excluded, children) && |children| < |s.children|
    requires child == Projection(s.children[|children|], excluded)
    ensures ProjectsChildren(s, excluded, children + [child])
  {
  }

  /** The dictionary of the element over the projections of its children is its projection. */
  lemma ProjectionFromChildren(s: AttributedSnapshot, excluded: Option<set<string>>, children: seq<JsonNode>)
    requires ProjectsChildren(s, excluded, children) && |children| == |s.children|
    ensures Projection(s, excluded) == Node(InfoOf(s.data, excluded), children)
  {
    assert Projection(s, excluded).children == children;
  }

  method InfoForElement(d: Data, excluded: Option<set<string>>) returns (info: Dictionary)
    ensures info == InfoOf(d, excluded)
  {
    KeysAreDistinct(d);
    info := AddBlockValues(BaseInfo(d), Name, KeyFor, Blocks(d), AttributeBlocks(d), excluded);
  }

  method DictionaryForElement(snapshot: AttributedSnapshot, recursive: bool, excluded: Option<set<string>>)
    returns (r: JsonNode)
    ensures var all := Projection(snapshot, excluded); r == if recursive then all else Node(all.data, [])
    decreases snapshot
  {
    var info := InfoForElement(snapshot.data, excluded);
    ProjectionAtRoot(snapshot, excluded);
    if !recursive {
      return Node(info, []);
    }
    var children: seq<JsonNode> := [];
    for i := 0 to |snapshot.children|
      invariant |children| == i && ProjectsChildren(snapshot, excluded, children)
    {
      var child := DictionaryForElement(snapshot.children[i], true, excluded);
      OneMoreChild(snapshot, excluded, children, child);
      children := children + [child];
    }
    ProjectionFromChildren(snapshot, excluded, children);
    r := Node(info, children);
  }

  // ---------- Exclusion is erasure ----------

  /** The tree with the given keys removed from every dictionary. */
  function Erased(n: JsonNode, keys: set<string>): JsonNode {
    Node(
      n.data - keys,
      seq(|n.children|, i requires 0 <= i < |n.children| => Erased(n.children[i], keys)))
  }

  function KeysOf(nameOf: Attribute -> string, keyOf: Attribute -> string, excluded: set<string>): set<string> {
    set a: Attribute | nameOf(a) in excluded :: keyOf(a)
  }

  function ExcludedKeys(excluded: set<string>): set<string> {
    KeysOf(Name, KeyFor, excluded)
  }

  lemma ExcludedEntries(
    base: Dictionary, nameOf: Attribute -> string, keyOf: Attribute -> string, valueOf: Attribute -> Option<Json>,
    all: set<Attribute>, excluded: set<string>)
    requires Distinct(keyOf, base)
    ensures WithEntries(base, keyOf, valueOf, NotExcluded(all, nameOf, Some(excluded)))
         == WithEntries(base, keyOf, valueOf, NotExcluded(all, nameOf, None)) - KeysOf(nameOf, keyOf, excluded)
  {
    var out := set a: Attribute | nameOf(a) in excluded;
    EntriesLess(base, keyOf, valueOf, all, out);
    assert NotExcluded(all, nameOf, None) == all && NotExcluded(all, nameOf, Some(excluded)) == all - out;
    assert KeysOf(nameOf, keyOf, excluded) == set a | a in out :: keyOf(a);
  }

  lemma ExcludedInfo(d: Data, excluded: set<string>)
    ensures InfoOf(d, Some(excluded)) == InfoOf(d, None) - ExcludedKeys(excluded)
  {
    KeysAreDistinct(d);
    ExcludedEntries(BaseInfo(d), Name, KeyFor, Blocks(d), AttributeBlocks(d), excluded);
  }

  /** The tree with excluded attributes is the full tree with their keys erased at every depth. */
  lemma {:induction false} ExclusionIsErasure(s: AttributedSnapshot, excluded: set<string>)
    ensures Projection(s, Some(excluded)) == Erased(Projection(s, None), ExcludedKeys(excluded))
    decreases s
  {
    ExcludedInfo(s.data, excluded);
    forall i | 0 <= i < |s.children|
      ensures Projection(s.children[i], Some(excluded))
           == Erased(Projection(s.children[i], None), ExcludedKeys(excluded))
    {
      ExclusionIsErasure(s.children[i], excluded);
    }
  }

  /** One node per snapshot, in the same place, about that snapshot. */
  lemma {:induction false} SameNodes(s: AttributedSnapshot, excluded: Option<set<string>>, p: Path)
    ensures Valid(Projection(s, excluded), p) <==> Valid(s, p)
    ensures Valid(s, p) ==>
      At(Projection(s, excluded), p).data == InfoOf(At(s, p).data, excluded)
    decreases p
  {
    if p != [] && p[0] < |s.children| {
      SameNodes(s.children[p[0]], excluded, p[1..]);
    }
  }

  /** An attribute has an entry exactly when it is not excluded and has a value; base entries are never changed. */
  lemma EntryOf(d: Data, excluded: Option<set<string>>, a: Attribute)
    ensures KeyFor(a) in InfoOf(d, excluded)
       <==> a in AttributeBlocks(d) && !IsExcluded(Name(a), excluded) && BlockValue(d, a).Some?
    ensures KeyFor(a) in InfoOf(d, excluded) ==> Some(InfoOf(d, excluded)[KeyFor(a)]) == BlockValue(d, a)
    ensures forall k :: k in BaseInfo(d) ==> k in InfoOf(d, excluded) && InfoOf(d, excluded)[k] == BaseInfo(d)[k]
  {
    KeysAreDistinct(d);
    OneEntry(BaseInfo(d), KeyFor, Blocks(d), NotExcluded(AttributeBlocks(d), Name, excluded), a);
  }

  lemma OneEntry(
    base: Dictionary, keyOf: Attribute -> string, valueOf: Attribute -> Option<Json>, attributes: set<Attribute>,
    a: Attribute)
    requires Distinct(keyOf, base)
    ensures var info := WithEntries(base, keyOf, valueOf, attributes);
      && (keyOf(a) in info <==> a in attributes && valueOf(a).Some?)
      && (keyOf(a) in info ==> Some(info[keyOf(a)]) == valueOf(a))
      && (forall k :: k in base ==> k in info && info[k] == base[k])
  {
  }

  // ---------- The entries, one by one ----------

  lemma CapitalizedIs(word: string, capitalized: string)
    requires |capitalized| == |word| && word != "" && capitalized[0] == Upper(word[0])
    requires forall i :: 1 <= i < |word| ==> capitalized[i] == Lower(word[i])
    ensures Capitalized(word) == capitalized
  {
    forall i | 0 <= i < |word| ensures Capitalized(word)[i] == capitalized[i] { }
  }

  lemma PrefixedKey(word: string, capitalized: string)
    requires word !in NON_PREFIXED_KEYS
    requires |capitalized| == |word| && word != "" && capitalized[0] == Upper(word[0])
    requires forall i :: 1 <= i < |word| ==> capitalized[i] == Lower(word[i])
    ensures Key(word) == "is" + capitalized
  {
    CapitalizedIs(word, capitalized);
  }

  lemma EnabledKey()
    ensures KeyFor(Enabled) == "isEnabled"
  {
    PrefixedKey("enabled", "Enabled");
  }

  lemma VisibleKey()
    ensures KeyFor(Visible) == "isVisible"
  {
    PrefixedKey("visible", "Visible");
  }

  lemma AccessibleKey()
    ensures KeyFor(Accessible) == "isAccessible"
  {
    PrefixedKey("accessible", "Accessible");
  }

  lemma FocusedKey()
    ensures KeyFor(Focused) == "isFocused"
  {
    PrefixedKey("focused", "Focused");
  }

  /** The key of each attribute. */
  lemma KeyIs(a: Attribute)
    ensures KeyFor(a) == match a
      case Frame => "frame"
      case NativeFrame => "nativeFrame"
      case Enabled => "isEnabled"
      case Visible => "isVisible"
      case Accessible => "isAccessible"
      case Focused => "isFocused"
      case Traits => "traits"
      case PlaceholderValue => "placeholderValue"
      case MinValue => "minValue"
      case MaxValue => "maxValue"
  {
    match a {
      case Enabled => EnabledKey();
      case Visible => VisibleKey();
      case Accessible => AccessibleKey();
      case Focused => FocusedKey();
      case _ =>
    }
  }

  /** Only text inputs have a placeholder, only sliders and steppers a minimum and a
  maximum, and every element has the other attributes. */
  lemma SupportedIff(d: Data, a: Attribute)
    ensures a in AttributeBlocks(d) <==>
      && (a == PlaceholderValue ==>
            d.elementType == TextView || d.elementType == TextField
            || d.elementType == SearchField || d.elementType == SecureTextField)
      && (a == MinValue || a == MaxValue ==> d.elementType == Slider || d.elementType == Stepper)
  {
  }

  /** A missing placeholder is null; any other attribute without a value has no entry. */
  lemma ValueIs(d: Data, a: Attribute)
    ensures BlockValue(d, a).None? <==> a !in d.attributes && a != PlaceholderValue
    ensures a in d.attributes ==> BlockValue(d, a) == Some(String(d.attributes[a]))
    ensures a !in d.attributes && a == PlaceholderValue ==> BlockValue(d, a) == Some(Null)
  {
  }

  lemma BaseEntries(d: Data)
    ensures forall k :: k in BaseInfo(d) <==>
      k == "type" || k == "rawIdentifier" || k == "name" || k == "value" || k == "label" || k == "rect"
    ensures BaseInfo(d)["type"] == String(d.shortType) && BaseInfo(d)["rect"] == String(d.rect)
    ensures BaseInfo(d)["rawIdentifier"] == if d.identifier == "" then Null else String(d.identifier)
    ensures BaseInfo(d)["name"] == if d.wdName.Some? then String(d.wdName.value) else Null
    ensures BaseInfo(d)["value"] == if d.wdValue.Some? then String(d.wdValue.value) else Null
    ensures BaseInfo(d)["label"] == if d.wdLabel.Some? then String(d.wdLabel.value) else Null
  {
  }
}
