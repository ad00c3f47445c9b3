/** The accessibility tree of a snapshot tree: the first accessible elements that
are visible, and the containers above them. */
module AccessibilityTree {
  import opened ElementTree
  import opened Wrappers

  datatype Data = Data(
    elementType: int, identifier: string,
    wdName: Option<string>, wdValue: Option<string>, wdLabel: Option<string>,
    isAccessible: bool, isVisible: bool)

  type AccessibilitySnapshot = Tree<Data>

  /** The `value` and `label` keys of an info, present together or not at all. */
  datatype Text = Text(wdValue: Option<string>, wdLabel: Option<string>)

  datatype Entry = Entry(text: Option<Text>, elementType: int, rawIdentifier: Option<string>, wdName: Option<string>)

  /** An info dictionary; one without a `children` key has no children here. */
  type Info = Tree<Entry>

  function Describe(s: Data): Entry {
    Entry(
      if s.isAccessible then Some(Text(s.wdValue, s.wdLabel)) else None,
      s.elementType,
      if s.identifier == "" then None else Some(s.identifier),
      s.wdName)
  }

  function InfoOf(s: AccessibilitySnapshot): Option<Info>
    decreases s, |s.children| + 1
  {
    if s.data.isAccessible then
      if s.data.isVisible then Some(Node(Describe(s.data), [])) else None
    else
      var children := InfosFrom(s, 0);
      if children == [] then None else Some(Node(Describe(s.data), children))
  }

  /** The infos of the children numbered `i` or later that have one. */
  function InfosFrom(s: AccessibilitySnapshot, i: nat): seq<Info>
    requires i <= |s.children|
    decreases s, |s.children| - i
  {
    if i == |s.children| then []
    else
      var child := InfoOf(s.children[i]);
      (if child.Some? then [child.value] else []) + InfosFrom(s, i + 1)
  }

  method AccessibilityInfoForElement(snapshot: AccessibilitySnapshot) returns (r: Option<Info>)
    ensures r == InfoOf(snapshot)
    decreases snapshot
  {
    var text: Option<Text> := None;
    var children: seq<Info> := [];
    if snapshot.data.isAccessible {
      if snapshot.data.isVisible {
        text := Some(Text(snapshot.data.wdValue, snapshot.data.wdLabel));
      }
    } else {
      for i := 0 to |snapshot.children|
        invariant children + InfosFrom(snapshot, i) == InfosFrom(snapshot, 0)
      {
        var childInfo := AccessibilityInfoForElement(snapshot.children[i]);
        if childInfo.Some? {
          assert children + [childInfo.value] + InfosFrom(snapshot, i + 1)
              == children + ([childInfo.value] + InfosFrom(snapshot, i + 1));
          children := children + [childInfo.value];
        } else {
          assert [] + InfosFrom(snapshot, i + 1) == InfosFrom(snapshot, i + 1);
        }
      }
      assert children + [] == children;
    }
    if text.Some? || children != [] {
      var rawIdentifier := if snapshot.data.identifier == "" then None else Some(snapshot.data.identifier);
      return Some(Node(Entry(text, snapshot.data.elementType, rawIdentifier, snapshot.data.wdName), children));
    }
    return None;
  }

  // ---------- Which elements are shown ----------

  /** Is `p` the first accessible element on the way to it? */
  predicate FirstAccessible(s: AccessibilitySnapshot, p: Path) {
    if s.data.isAccessible then p == []
    else p != [] && p[0] < |s.children| && FirstAccessible(s.children[p[0]], p[1..])
  }

  predicate AccessibleAt(s: AccessibilitySnapshot, p: Path) {
    Valid(s, p) && At(s, p).data.isAccessible
  }

  lemma {:induction false} FirstAccessibleMeaning(s: AccessibilitySnapshot, p: Path)
    ensures FirstAccessible(s, p) <==> AccessibleAt(s, p) && forall k :: 0 <= k < |p| ==> !AccessibleAt(s, p[..k])
  {
    if p != [] && p[0] < |s.children| {
      var child, tail := s.children[p[0]], p[1..];
      FirstAccessibleMeaning(child, tail);
      assert p[..0] == [];
      forall k | 0 < k <= |p| ensures AccessibleAt(s, p[..k]) <==> AccessibleAt(child, tail[..k - 1]) {
        assert p[..k][1..] == tail[..k - 1];
      }
      assert p[..|p|] == p && tail[..|tail|] == tail;
      forall k | 0 <= k < |tail| ensures AccessibleAt(child, tail[..k]) <==> AccessibleAt(s, p[..k + 1]) {
        assert tail[..(k + 1) - 1] == tail[..k];
      }
    }
  }

  /** Does the element show as a leaf of the accessibility tree? */
  predicate Shown(s: AccessibilitySnapshot, p: Path) {
    FirstAccessible(s, p) && Valid(s, p) && At(s, p).data.isVisible
  }

  /** Is the element shown, or above one that is? */
  ghost predicate Kept(s: AccessibilitySnapshot, p: Path) {
    exists d :: p <= d && Shown(s, d)
  }

  // ---------- Where each info comes from ----------

  /** The positions at or after `i` that hold a value. */
  function SomesFrom<T>(options: seq<Option<T>>, i: nat): seq<nat>
    requires i <= |options|
    decreases |options| - i
  {
    if i == |options| then []
    else if options[i].Some? then [i] + SomesFrom(options, i + 1)
    else SomesFrom(options, i + 1)
  }

  function ValuesFrom<T>(options: seq<Option<T>>, i: nat): seq<T>
    requires i <= |options|
    decreases |options| - i
  {
    if i == |options| then []
    else (if options[i].Some? then [options[i].value] else []) + ValuesFrom(options, i + 1)
  }

  lemma {:induction false} SomesHoldValues<T>(options: seq<Option<T>>, i: nat)
    requires i <= |options|
    ensures var r := SomesFrom(options, i);
      && |r| == |ValuesFrom(options, i)|
      && forall k :: 0 <= k < |r| ==> i <= r[k] < |options| && options[r[k]] == Some(ValuesFrom(options, i)[k])
    decreases |options| - i
  {
    if i < |options| { SomesHoldValues(options, i + 1); }
  }

  predicate Increasing(r: seq<nat>) {
    forall j, k :: 0 <= j < k < |r| ==> r[j] < r[k]
  }

  lemma IncreasingCons(i: nat, rest: seq<nat>)
    requires Increasing(rest) && forall k :: 0 <= k < |rest| ==> i < rest[k]
    ensures Increasing([i] + rest)
  {
    var r := [i] + rest;
    forall j, k | 0 <= j < k < |r| ensures r[j] < r[k] {
      assert r[k] == rest[k - 1] && (j > 0 ==> r[j] == rest[j - 1]);
    }
  }

  lemma {:induction false} SomesInOrder<T>(options: seq<Option<T>>, i: nat)
    requires i <= |options|
    ensures Increasing(SomesFrom(options, i))
    decreases |options| - i
  {
    if i < |options| {
      SomesHoldValues(options, i + 1);
      SomesInOrder(options, i + 1);
      IncreasingCons(i, SomesFrom(options, i + 1));
    }
  }

  lemma {:induction false} SomesComplete<T>(options: seq<Option<T>>, i: nat, c: nat)
    requires i <= c < |options| && options[c].Some?
    ensures c in SomesFrom(options, i)
    decreases |options| - i
  {
    if i < c { SomesComplete(options, i + 1, c); }
  }

  function ChildInfos(s: AccessibilitySnapshot): seq<Option<Info>> {
    seq(|s.children|, i requires 0 <= i < |s.children| => InfoOf(s.children[i]))
  }

  lemma {:induction false} InfosAreValues(s: AccessibilitySnapshot, i: nat)
    requires i <= |s.children|
    ensures InfosFrom(s, i) == ValuesFrom(ChildInfos(s), i)
    decreases |s.children| - i
  {
    if i < |s.children| { InfosAreValues(s, i + 1); }
  }

  /** The children that have an info. */
  function Kids(s: AccessibilitySnapshot): (r: seq<nat>)
    ensures |r| == |InfosFrom(s, 0)|
    ensures forall k :: 0 <= k < |r| ==> r[k] < |s.children| && InfoOf(s.children[r[k]]) == Some(InfosFrom(s, 0)[k])
    ensures Increasing(r)
  {
    InfosAreValues(s, 0);
    SomesHoldValues(ChildInfos(s), 0);
    SomesInOrder(ChildInfos(s), 0);
    SomesFrom(ChildInfos(s), 0)
  }

  lemma KidAt(s: AccessibilitySnapshot, c: nat) returns (k: nat)
    requires c < |s.children| && InfoOf(s.children[c]).Some?
    ensures k < |Kids(s)| && Kids(s)[k] == c
  {
    SomesComplete(ChildInfos(s), 0, c);
    k :| 0 <= k < |Kids(s)| && Kids(s)[k] == c;
  }

  /** The element behind the info at path `q`. */
  function Origin(s: AccessibilitySnapshot, q: Path): Path
    requires InfoOf(s).Some? && Valid(InfoOf(s).value, q)
    decreases q
  {
    if q == [] then []
    else
      var c := Kids(s)[q[0]];
      [c] + Origin(s.children[c], q[1..])
  }

  lemma {:induction false} OriginDescribes(s: AccessibilitySnapshot, q: Path)
    requires InfoOf(s).Some? && Valid(InfoOf(s).value, q)
    ensures Valid(s, Origin(s, q))
    ensures InfoOf(At(s, Origin(s, q))) == Some(At(InfoOf(s).value, q))
    ensures At(InfoOf(s).value, q).data == Describe(At(s, Origin(s, q)).data)
    decreases q
  {
    if q != [] {
      var c := Kids(s)[q[0]];
      OriginDescribes(s.children[c], q[1..]);
      assert Origin(s, q)[1..] == Origin(s.children[c], q[1..]);
    }
  }

  /** Ancestors and document order are those of the snapshot tree. */
  lemma {:induction false} OriginKeepsOrder(s: AccessibilitySnapshot, p: Path, q: Path)
    requires InfoOf(s).Some? && Valid(InfoOf(s).value, p) && Valid(InfoOf(s).value, q)
    ensures p <= q <==> Origin(s, p) <= Origin(s, q)
    ensures Before(p, q) <==> Before(Origin(s, p), Origin(s, q))
    decreases p
  {
    if p != [] && q != [] {
      var kept := Kids(s);
      assert Origin(s, p)[1..] == Origin(s.children[kept[p[0]]], p[1..]);
      assert Origin(s, q)[1..] == Origin(s.children[kept[q[0]]], q[1..]);
      PrefixByHead(p, q);
      PrefixByHead(Origin(s, p), Origin(s, q));
      if p[0] == q[0] { OriginKeepsOrder(s.children[kept[p[0]]], p[1..], q[1..]); }
    }
  }

  lemma PrefixByHead(p: Path, q: Path)
    requires p != [] && q != []
    ensures p <= q <==> p[0] == q[0] && p[1..] <= q[1..]
  {
    if p[0] == q[0] && p[1..] <= q[1..] {
      assert p == [p[0]] + p[1..] && q == [q[0]] + q[1..];
    }
  }

  lemma {:induction false} ShownGivesInfo(s: AccessibilitySnapshot, d: Path)
    requires Shown(s, d)
    ensures InfoOf(s).Some?
    decreases d
  {
    if d != [] {
      ShownGivesInfo(s.children[d[0]], d[1..]);
      var k := KidAt(s, d[0]);
      assert |InfosFrom(s, 0)| > 0;
    }
  }

  lemma {:induction false} InfoGivesShown(s: AccessibilitySnapshot) returns (d: Path)
    requires InfoOf(s).Some?
    ensures Shown(s, d)
    decreases s
  {
    if s.data.isAccessible {
      d := [];
    } else {
      var c := Kids(s)[0];
      var rest := InfoGivesShown(s.children[c]);
      ShownBelow(s, c, rest);
      d := [c] + rest;
    }
  }

  /** There is an info exactly when something below is shown. */
  lemma InfoIffKept(s: AccessibilitySnapshot)
    ensures InfoOf(s).Some? <==> Kept(s, [])
  {
    if InfoOf(s).Some? {
      var d := InfoGivesShown(s);
      assert Shown(s, d);
    }
    if d: Path :| [] <= d && Shown(s, d) {
      ShownGivesInfo(s, d);
    }
  }

  lemma ShownBelow(s: AccessibilitySnapshot, c: nat, d: Path)
    requires c < |s.children| && !s.data.isAccessible
    ensures Shown(s, [c] + d) <==> Shown(s.children[c], d)
  {
    assert ([c] + d)[1..] == d;
  }

  lemma KeptBelow(s: AccessibilitySnapshot, p: Path)
    requires p != []
    ensures Kept(s, p) <==> !s.data.isAccessible && p[0] < |s.children| && Kept(s.children[p[0]], p[1..])
  {
    if d :| p <= d && Shown(s, d) {
      PrefixByHead(p, d);
      ShownBelow(s, d[0], d[1..]);
      assert d == [d[0]] + d[1..];
    }
    if !s.data.isAccessible && p[0] < |s.children| && Kept(s.children[p[0]], p[1..]) {
      var d :| p[1..] <= d && Shown(s.children[p[0]], d);
      ShownBelow(s, p[0], d);
      PrefixByHead(p, [p[0]] + d);
      assert ([p[0]] + d)[1..] == d;
    }
  }

  /** The elements that an info comes from are exactly those shown and those above them. */
  lemma {:induction false} OriginsAreKept(s: AccessibilitySnapshot, p: Path) returns (q: Path)
    requires Kept(s, p)
    ensures InfoOf(s).Some? && Valid(InfoOf(s).value, q) && Origin(s, q) == p
    decreases p
  {
    if p == [] {
      InfoIffKept(s);
      q := [];
    } else {
      KeptBelow(s, p);
      InfoIffKept(s);
      var rest := OriginsAreKept(s.children[p[0]], p[1..]);
      var k := KidAt(s, p[0]);
      OriginOfChild(s, k, rest);
      q := [k] + rest;
      assert p == [p[0]] + p[1..];
    }
  }

  lemma OriginOfChild(s: AccessibilitySnapshot, k: nat, q: Path)
    requires InfoOf(s).Some? && !s.data.isAccessible && k < |Kids(s)|
    requires var child := s.children[Kids(s)[k]]; Valid(InfoOf(child).value, q)
    ensures Valid(InfoOf(s).value, [k] + q)
    ensures Origin(s, [k] + q) == [Kids(s)[k]] + Origin(s.children[Kids(s)[k]], q)
  {
    assert ([k] + q)[1..] == q;
  }

  lemma {:induction false} OriginIsKept(s: AccessibilitySnapshot, q: Path)
    requires InfoOf(s).Some? && Valid(InfoOf(s).value, q)
    ensures Kept(s, Origin(s, q))
    decreases q
  {
    InfoIffKept(s);
    if q != [] {
      var c := Kids(s)[q[0]];
      OriginIsKept(s.children[c], q[1..]);
      assert Origin(s, q)[1..] == Origin(s.children[c], q[1..]);
      KeptBelow(s, Origin(s, q));
    }
  }

  // ---------- The leaves ----------

  /** An info is a leaf, and then has a value and a label, exactly when its element is shown. */
  lemma LeafIffShown(s: AccessibilitySnapshot, q: Path)
    requires InfoOf(s).Some? && Valid(InfoOf(s).value, q)
    ensures At(InfoOf(s).value, q).children == [] <==> Shown(s, Origin(s, q))
    ensures At(InfoOf(s).value, q).data.text.Some? <==> Shown(s, Origin(s, q))
  {
    var p := Origin(s, q);
    OriginDescribes(s, q);
    OriginIsKept(s, q);
    FirstAccessibleMeaning(s, p);
    var d :| p <= d && Shown(s, d);
    FirstAccessibleMeaning(s, d);
    assert d[..|p|] == p;
    if |d| == |p| { assert d == p; }
  }

  function LeavesAmong(info: Info, ps: seq<Path>): (r: seq<Path>)
    requires forall p :: p in ps ==> Valid(info, p)
    ensures forall p :: p in r <==> p in ps && At(info, p).children == []
  {
    if ps == [] then []
    else
      assert forall p :: p in ps <==> p == ps[0] || p in ps[1..];
      (if At(info, ps[0]).children == [] then [ps[0]] else []) + LeavesAmong(info, ps[1..])
  }

  /** The leaves from left to right. */
  function Leaves(info: Info): (r: seq<Path>)
    ensures forall p :: p in r <==> Valid(info, p) && At(info, p).children == []
  {
    assert forall p :: p in DocumentOrder(info) <==> Valid(info, p) by {
      forall p { DocumentOrderComplete(info, p); }
    }
    LeavesAmong(info, DocumentOrder(info))
  }

  function ShownAmong(s: AccessibilitySnapshot, ps: seq<Path>): (r: seq<Path>)
    ensures forall p :: p in r <==> p in ps && Shown(s, p)
  {
    if ps == [] then []
    else
      assert forall p :: p in ps <==> p == ps[0] || p in ps[1..];
      (if Shown(s, ps[0]) then [ps[0]] else []) + ShownAmong(s, ps[1..])
  }

  lemma {:induction false} LeavesAmongSorted(info: Info, ps: seq<Path>)
    requires Sorted(ps) && forall p :: p in ps ==> Valid(info, p)
    ensures Sorted(LeavesAmong(info, ps))
  {
    if ps != [] {
      SortedTail(ps);
      LeavesAmongSorted(info, ps[1..]);
      SortedCons(ps[0], LeavesAmong(info, ps[1..]));
    }
  }

  lemma {:induction false} ShownAmongSorted(s: AccessibilitySnapshot, ps: seq<Path>)
    requires Sorted(ps)
    ensures Sorted(ShownAmong(s, ps))
  {
    if ps != [] {
      SortedTail(ps);
      ShownAmongSorted(s, ps[1..]);
      SortedCons(ps[0], ShownAmong(s, ps[1..]));
    }
  }

  function Origins(s: AccessibilitySnapshot, qs: seq<Path>): seq<Path>
    requires InfoOf(s).Some? && forall q :: q in qs ==> Valid(InfoOf(s).value, q)
  {
    seq(|qs|, i requires 0 <= i < |qs| => Origin(s, qs[i]))
  }

  /** The leaves of the accessibility tree, left to right, come from exactly the
  visible ones among the first accessible elements, in document order. */
  lemma LeavesAreShown(s: AccessibilitySnapshot)
    requires InfoOf(s).Some?
    ensures Origins(s, Leaves(InfoOf(s).value)) == ShownAmong(s, DocumentOrder(s))
  {
    var info := InfoOf(s).value;
    var leaves := Leaves(info);
    var origins, shown := Origins(s, leaves), ShownAmong(s, DocumentOrder(s));
    DocumentOrderSorted(info);
    forall p | p in DocumentOrder(info) ensures Valid(info, p) { DocumentOrderComplete(info, p); }
    LeavesAmongSorted(info, DocumentOrder(info));
    DocumentOrderSorted(s);
    ShownAmongSorted(s, DocumentOrder(s));
    forall i, j | 0 <= i < j < |leaves| ensures Before(origins[i], origins[j]) {
      assert leaves[i] in leaves && leaves[j] in leaves;
      OriginKeepsOrder(s, leaves[i], leaves[j]);
    }
    forall p ensures p in origins <==> p in shown {
      DocumentOrderComplete(s, p);
      if p in origins {
        var i :| 0 <= i < |leaves| && origins[i] == p;
        assert leaves[i] in leaves;
        LeafIffShown(s, leaves[i]);
      }
      if p in shown {
        assert p <= p && Shown(s, p);
        var q := OriginsAreKept(s, p);
        LeafIffShown(s, q);
        assert q in leaves;
        var i :| 0 <= i < |leaves| && leaves[i] == q;
        assert origins[i] == p;
      }
    }
    SortedUnique(origins, shown);
  }

  /** There is no accessibility tree exactly when nothing is shown. */
  lemma NoTreeIffNothingShown(s: AccessibilitySnapshot)
    ensures InfoOf(s).None? <==> ShownAmong(s, DocumentOrder(s)) == []
  {
    InfoIffKept(s);
    if d: Path :| [] <= d && Shown(s, d) {
      DocumentOrderComplete(s, d);
      assert d in ShownAmong(s, DocumentOrder(s));
    }
    if ShownAmong(s, DocumentOrder(s)) != [] {
      var d := ShownAmong(s, DocumentOrder(s))[0];
      assert d in ShownAmong(s, DocumentOrder(s)) && [] <= d;
    }
  }

  /** The data of an info, key by key, from the snapshot it is of. */
  lemma InfoFields(s: AccessibilitySnapshot, q: Path)
    requires InfoOf(s).Some? && Valid(InfoOf(s).value, q) && Valid(s, Origin(s, q))
    ensures var entry, data := At(InfoOf(s).value, q).data, At(s, Origin(s, q)).data;
      && entry.elementType == data.elementType && entry.wdName == data.wdName
      && (entry.rawIdentifier.None? <==> data.identifier == "")
      && (entry.rawIdentifier.Some? ==> entry.rawIdentifier.value == data.identifier)
      && (entry.text.Some? <==> data.isAccessible && data.isVisible)
      && (entry.text.Some? ==> entry.text.value.wdValue == data.wdValue && entry.text.value.wdLabel == data.wdLabel)
  {
    OriginDescribes(s, q);
  }
}
