/** Snapshots whose `additionalAttributes` cache natively fetched values. */
module Snapshots {
  import opened Wrappers
  import opened AttributeCache

  class Snapshot {
    /** The proper descendants of the snapshot. */
    const descendants: seq<Snapshot>

    var additionalAttributes: Option<Attributes>

    constructor (descendants: seq<Snapshot>, additionalAttributes: Option<Attributes>)
      ensures this.descendants == descendants && this.additionalAttributes == additionalAttributes
    {
      this.descendants := descendants;
      this.additionalAttributes := additionalAttributes;
    }

    /** `additionalAttributes ?: @{}` */
    function Cached(): Attributes
      reads this
    {
      if additionalAttributes.Some? then additionalAttributes.value else map[]
    }

    function FetchSnapshotVisibility(): Option<int>
      reads this
    {
      if additionalAttributes.None? then None
      else if IsVisible in additionalAttributes.value then Some(additionalAttributes.value[IsVisible])
      else None
    }

    method HasVisibleDescendants(ghost tree: set<Snapshot>) returns (r: bool)
      requires forall d :: d in descendants ==> d in tree
      ensures r == AnyVisible(View(tree), descendants)
    {
      for i := 0 to |descendants|
        invariant forall j :: 0 <= j < i ==> !CachedVisible(View(tree), descendants[j])
      {
        var visibility := descendants[i].FetchSnapshotVisibility();
        if visibility.Some? && visibility.value != 0 {
          assert CachedVisible(View(tree), descendants[i]);
          return true;
        }
      }
      return false;
    }

    /** `fetched` is what the native fetch gives if one is made. */
    method FbIsVisible(fetched: Option<int>, ghost tree: set<Snapshot>) returns (r: bool)
      requires this in tree && forall d :: d in descendants ==> d in tree
      modifies this`additionalAttributes
      ensures View(tree) == Next(Below(tree), old(View(tree)), Lookup(this, IsVisible, fetched))
      ensures r == Truth(Answer(Below(tree), old(View(tree)), Lookup(this, IsVisible, fetched)))
      ensures r ==
        if IsVisible in old(Cached()) then old(Cached())[IsVisible] != 0
        else (exists d :: d in descendants && IsVisible in old(d.Cached()) && old(d.Cached())[IsVisible] != 0)
             || (fetched.Some? && fetched.value != 0)
    {
      var isVisible := FetchSnapshotVisibility();
      if isVisible.Some? {
        return isVisible.value != 0;
      }
      var visibleBelow := HasVisibleDescendants(tree);
      if visibleBelow {
        return true;
      }
      if fetched.Some? {
        var updatedValue := Cached()[IsVisible := fetched.value];
        additionalAttributes := Some(updatedValue);
        return fetched.value != 0;
      }
      return false;
    }

    method FbIsAccessibilityElement(fetched: Option<int>, ghost tree: set<Snapshot>) returns (r: bool)
      requires this in tree
      modifies this`additionalAttributes
      ensures View(tree) == Next(Below(tree), old(View(tree)), Lookup(this, IsElement, fetched))
      ensures r == Truth(Answer(Below(tree), old(View(tree)), Lookup(this, IsElement, fetched)))
      ensures r == if IsElement in old(Cached()) then old(Cached())[IsElement] != 0
                   else fetched.Some? && fetched.value != 0
    {
      if IsElement in Cached() {
        return Cached()[IsElement] != 0;
      }
      if fetched.Some? {
        additionalAttributes := Some(Cached()[IsElement := fetched.value]);
        return fetched.value != 0;
      }
      return false;
    }

    method FbNumericAttribute(symbol: Key, fetched: Option<int>, ghost tree: set<Snapshot>) returns (r: Option<int>)
      requires this in tree && symbol != IsVisible
      modifies this`additionalAttributes
      ensures View(tree) == Next(Below(tree), old(View(tree)), Lookup(this, symbol, fetched))
      ensures r == Answer(Below(tree), old(View(tree)), Lookup(this, symbol, fetched))
      ensures r == if symbol in old(Cached()) then Some(old(Cached())[symbol]) else fetched
    {
      if symbol in Cached() {
        return Some(Cached()[symbol]);
      }
      if fetched.Some? {
        additionalAttributes := Some(Cached()[symbol := fetched.value]);
        return fetched;
      }
      return None;
    }

    method FbMinValue(fetched: Option<int>, ghost tree: set<Snapshot>) returns (r: Option<int>)
      requires this in tree
      modifies this`additionalAttributes
      ensures View(tree) == Next(Below(tree), old(View(tree)), Lookup(this, MinValue, fetched))
      ensures r == Answer(Below(tree), old(View(tree)), Lookup(this, MinValue, fetched))
      ensures r == if MinValue in old(Cached()) then Some(old(Cached())[MinValue]) else fetched
    {
      r := FbNumericAttribute(MinValue, fetched, tree);
    }

    method FbMaxValue(fetched: Option<int>, ghost tree: set<Snapshot>) returns (r: Option<int>)
      requires this in tree
      modifies this`additionalAttributes
      ensures View(tree) == Next(Below(tree), old(View(tree)), Lookup(this, MaxValue, fetched))
      ensures r == Answer(Below(tree), old(View(tree)), Lookup(this, MaxValue, fetched))
      ensures r == if MaxValue in old(Cached()) then Some(old(Cached())[MaxValue]) else fetched
    {
      r := FbNumericAttribute(MaxValue, fetched, tree);
    }
  }

  /** The caches of all snapshots of a tree. */
  ghost function View(tree: set<Snapshot>): State<Snapshot>
    reads tree
  {
    map s | s in tree :: s.Cached()
  }

  ghost function Below(tree: set<Snapshot>): map<Snapshot, seq<Snapshot>> {
    map s | s in tree :: s.descendants
  }
}
