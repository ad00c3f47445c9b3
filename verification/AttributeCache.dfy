/** The attribute cache of a tree of snapshots, as a function of its lookups.

`native` is what the accessibility framework would answer. A fetch, when one is
made, either fails or gives the native value. The tree itself does not change;
each lookup may add one entry to the cache of its own node. */
module AttributeCache {
  import opened Wrappers

  /** The four cached attributes. Their symbols are distinct. */
  datatype Key = IsVisible | IsElement | MinValue | MaxValue

  type Attributes = map<Key, int>

  /** What is cached at each node. */
  type State<!N> = map<N, Attributes>

  /** A lookup of one attribute, and what the fetch gives if it comes to a fetch. */
  datatype Lookup<N> = Lookup(node: N, key: Key, fetched: Option<int>)

  predicate CachedVisible<N>(st: State<N>, node: N) {
    node in st && IsVisible in st[node] && st[node][IsVisible] != 0
  }

  predicate AnyVisible<N>(st: State<N>, nodes: seq<N>) {
    exists d :: d in nodes && CachedVisible(st, d)
  }

  /** Is the lookup answered without asking the framework? */
  predicate Known<N>(below: map<N, seq<N>>, st: State<N>, l: Lookup<N>) {
    l.node in st && l.node in below &&
    (l.key in st[l.node] || (l.key == IsVisible && AnyVisible(st, below[l.node])))
  }

  function Answer<N>(below: map<N, seq<N>>, st: State<N>, l: Lookup<N>): Option<int>
    requires l.node in st && l.node in below
  {
    if l.key in st[l.node] then Some(st[l.node][l.key])
    else if Known(below, st, l) then Some(1)
    else l.fetched
  }

  function Next<N>(below: map<N, seq<N>>, st: State<N>, l: Lookup<N>): State<N>
    requires l.node in st && l.node in below
  {
    if Known(below, st, l) || l.fetched.None? then st
    else st[l.node := st[l.node][l.key := l.fetched.value]]
  }

  /** A missing number reads as NO. */
  predicate Truth(answer: Option<int>) {
    answer.Some? && answer.value != 0
  }

  // ---------- Runs ----------

  predicate InTree<N>(below: map<N, seq<N>>, st: State<N>, ls: seq<Lookup<N>>) {
    st.Keys == below.Keys && forall i :: 0 <= i < |ls| ==> ls[i].node in st
  }

  function Run<N>(below: map<N, seq<N>>, st: State<N>, ls: seq<Lookup<N>>): (r: State<N>)
    requires InTree(below, st, ls)
    ensures r.Keys == st.Keys
  {
    if ls == [] then st
    else Next(below, Run(below, st, ls[..|ls| - 1]), ls[|ls| - 1])
  }

  ghost predicate Sound<N>(native: State<N>, st: State<N>) {
    forall n, k :: n in st && k in st[n] ==> n in native && k in native[n] && st[n][k] == native[n][k]
  }

  /** Every fetch of the run gives the native value or fails. */
  ghost predicate Honest<N>(native: State<N>, ls: seq<Lookup<N>>) {
    forall i :: 0 <= i < |ls| && ls[i].fetched.Some? ==>
      ls[i].node in native && ls[i].key in native[ls[i].node] && ls[i].fetched.value == native[ls[i].node][ls[i].key]
  }

  /** Natively, what is above something visible is visible. */
  ghost predicate UpwardVisible<N>(below: map<N, seq<N>>, native: State<N>) {
    forall n, d :: n in below && d in below[n] && CachedVisible(native, d) ==> CachedVisible(native, n)
  }

  lemma {:induction false} CacheStaysSound<N>(below: map<N, seq<N>>, native: State<N>, st: State<N>, ls: seq<Lookup<N>>)
    requires InTree(below, st, ls) && Sound(native, st) && Honest(native, ls)
    ensures Sound(native, Run(below, st, ls))
  {
    if ls != [] {
      CacheStaysSound(below, native, st, ls[..|ls| - 1]);
    }
  }

  /** The answer to the i-th lookup of a run. */
  function AnswerAt<N>(below: map<N, seq<N>>, st: State<N>, ls: seq<Lookup<N>>, i: nat): Option<int>
    requires InTree(below, st, ls) && i < |ls|
  {
    Answer(below, Run(below, st, ls[..i]), ls[i])
  }

  /** In any run, in any order and with any failures, every visibility YES is
  right, and the answer is the native one whenever a fetch would have succeeded. */
  lemma VisibilityIsNative<N>(below: map<N, seq<N>>, native: State<N>, st: State<N>, ls: seq<Lookup<N>>, i: nat)
    requires InTree(below, st, ls) && Sound(native, st) && Honest(native, ls) && UpwardVisible(below, native)
    requires i < |ls| && ls[i].key == IsVisible
    ensures Truth(AnswerAt(below, st, ls, i)) ==> CachedVisible(native, ls[i].node)
    ensures ls[i].fetched.Some? ==> (Truth(AnswerAt(below, st, ls, i)) <==> CachedVisible(native, ls[i].node))
  {
    CacheStaysSound(below, native, st, ls[..i]);
    var before := Run(below, st, ls[..i]);
    if ls[i].key !in before[ls[i].node] && Known(below, before, ls[i]) {
      var d :| d in below[ls[i].node] && CachedVisible(before, d);
      assert CachedVisible(native, d);
    }
  }

  /** The other attributes have no shortcut: any answer is the native one. */
  lemma OtherAnswersAreNative<N>(below: map<N, seq<N>>, native: State<N>, st: State<N>, ls: seq<Lookup<N>>, i: nat)
    requires InTree(below, st, ls) && Sound(native, st) && Honest(native, ls)
    requires i < |ls| && ls[i].key != IsVisible
    ensures AnswerAt(below, st, ls, i).Some? ==>
      && ls[i].node in native && ls[i].key in native[ls[i].node]
      && AnswerAt(below, st, ls, i).value == native[ls[i].node][ls[i].key]
    ensures ls[i].fetched.Some? ==> AnswerAt(below, st, ls, i).Some?
  {
    CacheStaysSound(below, native, st, ls[..i]);
  }

  /** The tree of the run after its first `i` lookups. */
  function CacheAt<N>(below: map<N, seq<N>>, st: State<N>, ls: seq<Lookup<N>>, i: nat): (r: State<N>)
    requires InTree(below, st, ls) && i <= |ls|
    ensures r.Keys == st.Keys
  {
    Run(below, st, ls[..i])
  }

  lemma CacheAtNext<N>(below: map<N, seq<N>>, st: State<N>, ls: seq<Lookup<N>>, i: nat)
    requires InTree(below, st, ls) && i < |ls|
    ensures CacheAt(below, st, ls, i + 1) == Next(below, CacheAt(below, st, ls, i), ls[i])
  {
    assert ls[..i + 1][..i] == ls[..i];
  }

  /** In every run, what is cached is answered as it is, and no cache changes, whatever a fetch would give. */
  lemma CachedIsAnswered<N>(below: map<N, seq<N>>, st: State<N>, ls: seq<Lookup<N>>, i: nat)
    requires InTree(below, st, ls) && i < |ls|
    requires ls[i].key in CacheAt(below, st, ls, i)[ls[i].node]
    ensures AnswerAt(below, st, ls, i) == Some(CacheAt(below, st, ls, i)[ls[i].node][ls[i].key])
    ensures CacheAt(below, st, ls, i + 1) == CacheAt(below, st, ls, i)
  {
    CacheAtNext(below, st, ls, i);
  }

  /** In every run, an element whose visibility is not cached is visible when one of its
  descendants is cached as visible, and no cache changes, whatever a fetch would give. */
  lemma VisibleBelowIsAnswered<N>(below: map<N, seq<N>>, st: State<N>, ls: seq<Lookup<N>>, i: nat, d: N)
    requires InTree(below, st, ls) && i < |ls| && ls[i].key == IsVisible
    requires IsVisible !in CacheAt(below, st, ls, i)[ls[i].node]
    requires d in below[ls[i].node] && d in st
    requires var cache := CacheAt(below, st, ls, i)[d]; IsVisible in cache && cache[IsVisible] != 0
    ensures AnswerAt(below, st, ls, i).Some? && AnswerAt(below, st, ls, i).value != 0
    ensures CacheAt(below, st, ls, i + 1) == CacheAt(below, st, ls, i)
  {
    CacheAtNext(below, st, ls, i);
    assert CachedVisible(CacheAt(below, st, ls, i), d);
  }

  /** In every run, all other lookups answer what the fetch gives, and cache it if it gives something. */
  lemma FetchedIsAnswered<N>(below: map<N, seq<N>>, st: State<N>, ls: seq<Lookup<N>>, i: nat)
    requires InTree(below, st, ls) && i < |ls|
    requires ls[i].key !in CacheAt(below, st, ls, i)[ls[i].node]
    requires ls[i].key == IsVisible ==> forall d :: d in below[ls[i].node] && d in st ==>
      var cache := CacheAt(below, st, ls, i)[d]; IsVisible !in cache || cache[IsVisible] == 0
    ensures AnswerAt(below, st, ls, i) == ls[i].fetched
    ensures var before, node := CacheAt(below, st, ls, i), ls[i].node;
      CacheAt(below, st, ls, i + 1)
      == if ls[i].fetched.Some? then before[node := before[node][ls[i].key := ls[i].fetched.value]] else before
  {
    CacheAtNext(below, st, ls, i);
  }

  /** When the fetch fails the answer is YES exactly when a non-zero value is cached for
  the element, or none at all and a non-zero one for some descendant. */
  lemma VisibleWithoutFetchIff<N>(below: map<N, seq<N>>, st: State<N>, ls: seq<Lookup<N>>, i: nat)
    requires InTree(below, st, ls) && i < |ls| && ls[i].key == IsVisible && ls[i].fetched.None?
    ensures var caches, node := CacheAt(below, st, ls, i), ls[i].node;
      Truth(AnswerAt(below, st, ls, i)) <==>
        if IsVisible in caches[node] then caches[node][IsVisible] != 0
        else exists d :: d in below[node] && d in st && IsVisible in caches[d] && caches[d][IsVisible] != 0
  {
    var caches, node := CacheAt(below, st, ls, i), ls[i].node;
    if IsVisible in caches[node] {
      CachedIsAnswered(below, st, ls, i);
    } else if d :| d in below[node] && d in st && IsVisible in caches[d] && caches[d][IsVisible] != 0 {
      VisibleBelowIsAnswered(below, st, ls, i, d);
    } else {
      FetchedIsAnswered(below, st, ls, i);
    }
  }

  function Empty<N>(below: map<N, seq<N>>): State<N> {
    map n | n in below :: map[]
  }

  ghost predicate AlwaysNative<N(!new)>(below: map<N, seq<N>>, native: State<N>) {
    forall ls: seq<Lookup<N>>, i: nat ::
      InTree(below, Empty(below), ls) && Honest(native, ls) && i < |ls| && ls[i].key == IsVisible && ls[i].fetched.Some?
      ==> (Truth(AnswerAt(below, Empty(below), ls, i)) <==> CachedVisible(native, ls[i].node))
  }

  /** The shortcut through descendants is right for all runs exactly when native visibility is closed upwards. */
  lemma ShortcutIsRightIff<N(!new)>(below: map<N, seq<N>>, native: State<N>)
    requires native.Keys == below.Keys
    requires forall n :: n in native ==> IsVisible in native[n]
    requires forall n, d :: n in below && d in below[n] ==> d in below && d != n
    ensures AlwaysNative(below, native) <==> UpwardVisible(below, native)
  {
    if UpwardVisible(below, native) {
      forall ls: seq<Lookup<N>>, i: nat
        | InTree(below, Empty(below), ls) && Honest(native, ls)
          && i < |ls| && ls[i].key == IsVisible && ls[i].fetched.Some?
        ensures Truth(AnswerAt(below, Empty(below), ls, i)) <==> CachedVisible(native, ls[i].node)
      {
        VisibilityIsNative(below, native, Empty(below), ls, i);
      }
    } else {
      var n, d :| n in below && d in below[n] && CachedVisible(native, d) && !CachedVisible(native, n);
      WrongYes(below, native, n, d);
    }
  }

  /** Asking for a visible descendant first makes its invisible container look visible. */
  lemma WrongYes<N(!new)>(below: map<N, seq<N>>, native: State<N>, n: N, d: N)
    requires native.Keys == below.Keys && n in below && d in below && d in below[n] && d != n
    requires IsVisible in native[n] && CachedVisible(native, d) && !CachedVisible(native, n)
    ensures !AlwaysNative(below, native)
  {
    var first := Lookup(d, IsVisible, Some(native[d][IsVisible]));
    var second := Lookup(n, IsVisible, Some(native[n][IsVisible]));
    var ls := [first, second];
    var st := Empty(below);
    assert ls[..1] == [first] && ls[..1][..0] == [];
    assert Run(below, st, ls[..1]) == Next(below, st, first);
    assert CachedVisible(Run(below, st, ls[..1]), d);
    assert Truth(AnswerAt(below, st, ls, 1));
  }

  // ---------- What a lookup changes, and how often it fetches ----------

  /** A lookup changes at most its own key of its own node. */
  lemma LookupChangesOwnEntry<N>(below: map<N, seq<N>>, st: State<N>, l: Lookup<N>)
    requires l.node in st && l.node in below
    ensures forall n :: n in st && n != l.node ==> Next(below, st, l)[n] == st[n]
    ensures Next(below, st, l)[l.node] - {l.key} == st[l.node] - {l.key}
    ensures l.key in st[l.node] ==> Next(below, st, l) == st
  {
  }

  /** Does lookup `i` of the run fetch the attribute of the node, with success? */
  predicate FetchesAt<N>(below: map<N, seq<N>>, st: State<N>, ls: seq<Lookup<N>>, i: nat, node: N, key: Key)
    requires InTree(below, st, ls) && i < |ls|
  {
    ls[i].node == node && ls[i].key == key && ls[i].fetched.Some? && !Known(below, Run(below, st, ls[..i]), ls[i])
  }

  lemma NextKeepsEntry<N>(below: map<N, seq<N>>, st: State<N>, l: Lookup<N>, node: N, key: Key)
    requires l.node in st && l.node in below && node in st && key in st[node]
    ensures node in Next(below, st, l) && key in Next(below, st, l)[node]
    ensures Next(below, st, l)[node][key] == st[node][key]
  {
  }

  lemma {:induction false} CachedStaysCached<N>(
    below: map<N, seq<N>>, st: State<N>, ls: seq<Lookup<N>>, i: nat, node: N, key: Key)
    requires InTree(below, st, ls) && i <= |ls| && node in st
    requires key in Run(below, st, ls[..i])[node]
    ensures key in Run(below, st, ls)[node] && Run(below, st, ls)[node][key] == Run(below, st, ls[..i])[node][key]
    decreases |ls|
  {
    if i == |ls| {
      assert ls[..i] == ls;
    } else {
      var front := ls[..|ls| - 1];
      assert front[..i] == ls[..i];
      CachedStaysCached(below, st, front, i, node, key);
      NextKeepsEntry(below, Run(below, st, front), ls[|ls| - 1], node, key);
    }
  }

  /** Each attribute of each node is fetched successfully at most once in a run,
  and never when it was cached to begin with. */
  lemma FetchedAtMostOnce<N>(below: map<N, seq<N>>, st: State<N>, ls: seq<Lookup<N>>, i: nat, j: nat, node: N, key: Key)
    requires InTree(below, st, ls) && i < j < |ls| && node in st
    requires FetchesAt(below, st, ls, i, node, key)
    ensures !FetchesAt(below, st, ls, j, node, key)
    ensures key !in st[node]
  {
    assert ls[..i + 1][..i] == ls[..i];
    assert key in Run(below, st, ls[..i + 1])[node];
    assert ls[..j][..i + 1] == ls[..i + 1];
    CachedStaysCached(below, st, ls[..j], i + 1, node, key);
    if key in st[node] {
      assert ls[..i][..0] == [];
      CachedStaysCached(below, st, ls[..i], 0, node, key);
    }
  }
}
