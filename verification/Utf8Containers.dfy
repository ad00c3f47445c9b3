/** The recursive pass that makes every string in nested arrays and dictionaries safe. */
module Utf8Containers {
  import opened Utf8Encoding
  import opened Utf8Repair

  /** Dictionary keys are left as they are; `Other` is any object that is no string and no container. */
  datatype Value =
    | Str(text: Text)
    | Array(items: seq<Value>)
    | Dictionary(entries: map<Text, Value>)
    | Other(tag: int)

  function Safe(v: Value): Value {
    match v
    case Str(text) => Str(Repair(text, REPLACER))
    case Array(items) => Array(seq(|items|, i requires 0 <= i < |items| => Safe(items[i])))
    case Dictionary(entries) => Dictionary(map k | k in entries :: Safe(entries[k]))
    case Other(_) => v
  }

  method Utf8SafeArray(self: Value) returns (result: Value)
    requires self.Array?
    ensures result == Safe(self)
    decreases self
  {
    var safe: seq<Value> := [];
    for i := 0 to |self.items|
      invariant |safe| == i && forall j :: 0 <= j < i ==> safe[j] == Safe(self.items[j])
    {
      var item := self.items[i];
      var copy := item;
      if item.Str? {
        var text := Utf8SafeString(item.text, REPLACER);
        copy := Str(text);
      } else if item.Dictionary? {
        copy := Utf8SafeDictionary(item);
      } else if item.Array? {
        copy := Utf8SafeArray(item);
      }
      safe := safe + [copy];
    }
    result := Array(safe);
  }

  method Utf8SafeDictionary(self: Value) returns (result: Value)
    requires self.Dictionary?
    ensures result == Safe(self)
    decreases self
  {
    var safe := self.entries;
    var keys := self.entries.Keys;
    while keys != {}
      invariant keys <= self.entries.Keys == safe.Keys
      invariant forall k :: k in safe ==> safe[k] == if k in keys then self.entries[k] else Safe(self.entries[k])
      decreases |keys|
    {
      var key :| key in keys;
      var value := safe[key];
      if value.Str? {
        var text := Utf8SafeString(value.text, REPLACER);
        safe := safe[key := Str(text)];
      } else if value.Array? {
        var copy := Utf8SafeArray(value);
        safe := safe[key := copy];
      } else if value.Dictionary? {
        var copy := Utf8SafeDictionary(value);
        safe := safe[key := copy];
      }
      keys := keys - {key};
    }
    result := Dictionary(safe);
  }

  // ---------- What the pass does to every nested value ----------

  datatype Selector = Index(index: nat) | Key(key: Text)

  predicate HasPart(v: Value, s: Selector) {
    match s
    case Index(i) => v.Array? && i < |v.items|
    case Key(k) => v.Dictionary? && k in v.entries
  }

  function Part(v: Value, s: Selector): Value
    requires HasPart(v, s)
  {
    match s
    case Index(i) => v.items[i]
    case Key(k) => v.entries[k]
  }

  /** Does the route of indices and keys lead to a value? */
  predicate Reaches(v: Value, route: seq<Selector>)
    decreases |route|
  {
    route == [] || (HasPart(v, route[0]) && Reaches(Part(v, route[0]), route[1..]))
  }

  function Nested(v: Value, route: seq<Selector>): Value
    requires Reaches(v, route)
    decreases |route|
  {
    if route == [] then v else Nested(Part(v, route[0]), route[1..])
  }

  /** Two values of the same kind, with the same places for parts. */
  predicate SameShape(v: Value, w: Value) {
    match v
    case Str(_) => w.Str?
    case Array(items) => w.Array? && |w.items| == |items|
    case Dictionary(entries) => w.Dictionary? && w.entries.Keys == entries.Keys
    case Other(_) => w == v
  }

  /** The containers keep their shape at every depth and each string in them is repaired. */
  lemma {:induction false} EveryStringRepaired(v: Value, route: seq<Selector>)
    ensures Reaches(Safe(v), route) <==> Reaches(v, route)
    ensures Reaches(v, route) ==>
      && SameShape(Nested(v, route), Nested(Safe(v), route))
      && (Nested(v, route).Str? ==> Nested(Safe(v), route).text == Repair(Nested(v, route).text, REPLACER))
    decreases |route|
  {
    if route != [] && HasPart(v, route[0]) {
      assert Part(Safe(v), route[0]) == Safe(Part(v, route[0]));
      EveryStringRepaired(Part(v, route[0]), route[1..]);
    }
  }

  ghost predicate EveryString(v: Value, ok: Text -> bool) {
    forall route :: Reaches(v, route) && Nested(v, route).Str? ==> ok(Nested(v, route).text)
  }

  ghost predicate AllConvertible(v: Value) {
    EveryString(v, WellFormed)
  }

  ghost predicate InPlace(text: Text) {
    !Misaligned(text)
  }

  ghost predicate NoneMisaligned(v: Value) {
    EveryString(v, InPlace)
  }

  /** The whole structure becomes convertible exactly when none of its strings has a misaligned pair. */
  lemma PassIsSafeIff(v: Value)
    ensures AllConvertible(Safe(v)) <==> NoneMisaligned(v)
  {
    forall route | Reaches(v, route) && Nested(v, route).Str?
      ensures Reaches(Safe(v), route) && Nested(Safe(v), route).Str?
      ensures WellFormed(Nested(Safe(v), route).text) <==> InPlace(Nested(v, route).text)
    {
      EveryStringRepaired(v, route);
      RepairIsSafeIff(Nested(v, route).text, REPLACER);
    }
    forall route | Reaches(Safe(v), route) && Nested(Safe(v), route).Str?
      ensures Reaches(v, route) && Nested(v, route).Str?
    {
      EveryStringRepaired(v, route);
    }
  }

  lemma PartRoutes(v: Value, s: Selector, route: seq<Selector>)
    requires HasPart(v, s)
    ensures Reaches(v, [s] + route) <==> Reaches(Part(v, s), route)
    ensures Reaches(v, [s] + route) ==> Nested(v, [s] + route) == Nested(Part(v, s), route)
  {
    assert ([s] + route)[1..] == route;
  }

  /** The strings of a container are those of its parts. */
  lemma EveryStringByParts(v: Value, ok: Text -> bool)
    requires !v.Str?
    ensures EveryString(v, ok) <==> forall s :: HasPart(v, s) ==> EveryString(Part(v, s), ok)
  {
    if EveryString(v, ok) {
      forall s, route | HasPart(v, s) && Reaches(Part(v, s), route) && Nested(Part(v, s), route).Str?
        ensures ok(Nested(Part(v, s), route).text)
      {
        PartRoutes(v, s, route);
        assert Reaches(v, [s] + route);
      }
    } else {
      var route :| Reaches(v, route) && Nested(v, route).Str? && !ok(Nested(v, route).text);
      assert !EveryString(Part(v, route[0]), ok) by {
        assert Reaches(Part(v, route[0]), route[1..]);
      }
    }
  }

  lemma EveryStringOfText(text: Text, ok: Text -> bool)
    ensures EveryString(Str(text), ok) <==> ok(text)
  {
    assert Reaches(Str(text), []) && Nested(Str(text), []) == Str(text);
  }

  /** A structure that can already be converted comes back as it is. */
  lemma {:induction false} ConvertibleIsUnchanged(v: Value)
    requires AllConvertible(v)
    ensures Safe(v) == v
  {
    match v {
      case Str(text) =>
        EveryStringOfText(text, WellFormed);
      case Array(items) =>
        EveryStringByParts(v, WellFormed);
        forall i | 0 <= i < |items| ensures Safe(items[i]) == items[i] {
          assert HasPart(v, Index(i)) && Part(v, Index(i)) == items[i];
          ConvertibleIsUnchanged(items[i]);
        }
      case Dictionary(entries) =>
        EveryStringByParts(v, WellFormed);
        forall k | k in entries ensures Safe(entries[k]) == entries[k] {
          assert HasPart(v, Key(k)) && Part(v, Key(k)) == entries[k];
          ConvertibleIsUnchanged(entries[k]);
        }
      case Other(_) =>
    }
  }

  /** A second pass changes nothing more, exactly when no string has a misaligned pair. */
  lemma PassIsIdempotentIff(v: Value)
    ensures Safe(Safe(v)) == Safe(v) <==> NoneMisaligned(v)
  {
    if NoneMisaligned(v) {
      PassIsSafeIff(v);
      ConvertibleIsUnchanged(Safe(v));
    } else {
      var route :| Reaches(v, route) && Nested(v, route).Str? && !InPlace(Nested(v, route).text);
      EveryStringRepaired(v, route);
      EveryStringRepaired(Safe(v), route);
      RepairIsIdempotentIff(Nested(v, route).text, REPLACER);
    }
  }

  /** What the documentation promises: in each nested string the unpaired surrogates are replaced. */
  function Documented(v: Value): Value {
    match v
    case Str(text) => Str(Ideal(text, REPLACER))
    case Array(items) => Array(seq(|items|, i requires 0 <= i < |items| => Documented(items[i])))
    case Dictionary(entries) => Dictionary(map k | k in entries :: Documented(entries[k]))
    case Other(_) => v
  }

  /** Is the string repaired as documented? */
  ghost predicate RepairedAsDocumented(text: Text) {
    !Misaligned(text) && !EndsUnpaired(text)
  }

  lemma SameByParts(v: Value)
    requires !v.Str?
    ensures Safe(v) == Documented(v) <==> forall s :: HasPart(v, s) ==> Safe(Part(v, s)) == Documented(Part(v, s))
  {
    if Safe(v) == Documented(v) {
      forall s | HasPart(v, s) ensures Safe(Part(v, s)) == Documented(Part(v, s)) {
        assert Part(Safe(v), s) == Part(Documented(v), s);
      }
    }
    if forall s :: HasPart(v, s) ==> Safe(Part(v, s)) == Documented(Part(v, s)) {
      if v.Array? {
        forall i | 0 <= i < |v.items| ensures Safe(v.items[i]) == Documented(v.items[i]) {
          assert HasPart(v, Index(i));
        }
      } else if v.Dictionary? {
        forall k | k in v.entries ensures Safe(v.entries[k]) == Documented(v.entries[k]) {
          assert HasPart(v, Key(k));
        }
      }
    }
  }

  lemma PartIsSmaller(v: Value, s: Selector)
    requires HasPart(v, s)
    ensures Part(v, s) < v
  {
  }

  /** The whole structure comes out as documented exactly when no string in it has a
  misaligned pair or ends in an unpaired surrogate. */
  lemma {:induction false} PassAsDocumentedIff(v: Value)
    ensures Safe(v) == Documented(v) <==> EveryString(v, RepairedAsDocumented)
  {
    if v.Str? {
      RepairAsDocumentedIff(v.text, REPLACER);
      EveryStringOfText(v.text, RepairedAsDocumented);
    } else {
      SameByParts(v);
      EveryStringByParts(v, RepairedAsDocumented);
      forall s | HasPart(v, s)
        ensures Safe(Part(v, s)) == Documented(Part(v, s)) <==> EveryString(Part(v, s), RepairedAsDocumented)
      {
        PartIsSmaller(v, s);
        PassAsDocumentedIff(Part(v, s));
      }
    }
  }

  /** In a structure that comes out as documented, U+FFFD stands for each unpaired
  surrogate, and every other unit of every string is as it was. */
  lemma NestedUnits(v: Value, route: seq<Selector>, i: nat)
    requires EveryString(v, RepairedAsDocumented)
    requires Reaches(v, route) && Nested(v, route).Str? && i < |Nested(v, route).text|
    ensures Reaches(Safe(v), route) && Nested(Safe(v), route).Str?
    ensures var text, safe := Nested(v, route).text, Nested(Safe(v), route).text;
      |safe| == |text| && safe[i] == if Unpaired(text, i) then 0xfffd else text[i]
  {
    EveryStringRepaired(v, route);
    RepairAsDocumentedIff(Nested(v, route).text, REPLACER);
    IdealAt(Nested(v, route).text, REPLACER, i);
  }
}
