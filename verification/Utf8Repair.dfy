/** Making strings safe for UTF-8 by aligning them with their lossy conversion.

Strings are sequences of UTF-16 code units. The foreign lossy conversion is taken
to delete exactly the unpaired surrogates. */
module Utf8Repair {
  import opened Wrappers

  type CodeUnit = x: int | 0 <= x < 0x1_0000
  type Text = seq<CodeUnit>

  const REPLACER: CodeUnit := 0xfffd

  datatype Error = RangeException

  predicate IsHigh(u: CodeUnit) { 0xd800 <= u < 0xdc00 }

  predicate IsLow(u: CodeUnit) { 0xdc00 <= u < 0xe000 }

  predicate IsSurrogate(u: CodeUnit) { IsHigh(u) || IsLow(u) }

  predicate StartsWithPair(s: Text) {
    |s| >= 2 && IsHigh(s[0]) && IsLow(s[1])
  }

  /** Can the string be converted, that is, has it no unpaired surrogate? */
  predicate WellFormed(s: Text) {
    if s == [] then true
    else if StartsWithPair(s) then WellFormed(s[2..])
    else !IsSurrogate(s[0]) && WellFormed(s[1..])
  }

  /** The lossy conversion to UTF-8 and back. */
  function Lossy(s: Text): Text {
    if s == [] then []
    else if StartsWithPair(s) then s[..2] + Lossy(s[2..])
    else if IsSurrogate(s[0]) then Lossy(s[1..])
    else [s[0]] + Lossy(s[1..])
  }

  // ---------- The alignment loop ----------

  /** What the nested loops compute from `original` and `converted`. */
  function Align(original: Text, converted: Text, replacement: CodeUnit): Result<Text, Error> {
    if original == [] || converted == [] then Success([])
    else if original[0] == converted[0] then
      match Align(original[1..], converted[1..], replacement)
      case Success(rest) => Success([original[0]] + rest)
      case Failure(e) => Failure(e)
    else if |original| == 1 then Failure(RangeException)
    else
      match Align(original[1..], converted, replacement)
      case Success(rest) => Success([replacement] + rest)
      case Failure(e) => Failure(e)
  }

  function Prepend(done: Text, r: Result<Text, Error>): Result<Text, Error> {
    if r.Success? then Success(done + r.value) else r
  }

  method AlignLoop(original: Text, converted: Text, replacement: CodeUnit) returns (r: Result<Text, Error>)
    ensures r == Align(original, converted, replacement)
  {
    var result: Text := [];
    var originalIdx, convertedIdx := 0, 0;
    ghost var all := Align(original, converted, replacement);
    assert original[0..] == original && converted[0..] == converted;
    assert all.Success? ==> [] + all.value == all.value;
    while originalIdx < |original| && convertedIdx < |converted|
      invariant 0 <= originalIdx <= |original| && 0 <= convertedIdx <= |converted|
      invariant all == Prepend(result, Align(original[originalIdx..], converted[convertedIdx..], replacement))
      decreases |original| - originalIdx
    {
      var originalChar := original[originalIdx];
      var convertedChar := converted[convertedIdx];
      assert converted[convertedIdx..][1..] == converted[convertedIdx + 1..];
      if originalChar == convertedChar {
        AlignStep(result, original, originalIdx, converted[convertedIdx..], replacement);
        result := result + [originalChar];
        originalIdx := originalIdx + 1;
        convertedIdx := convertedIdx + 1;
        continue;
      }
      ghost var start := originalIdx;
      while originalChar != convertedChar && originalIdx < |original|
        invariant start <= originalIdx < |original| && originalChar == original[originalIdx]
        invariant all == Prepend(result, Align(original[originalIdx..], converted[convertedIdx..], replacement))
        invariant originalIdx == start ==> originalChar != convertedChar
        decreases |original| - originalIdx
      {
        AlignStep(result, original, originalIdx, converted[convertedIdx..], replacement);
        result := result + [replacement];
        originalIdx := originalIdx + 1;
        if originalIdx >= |original| {
          return Failure(RangeException);  // characterAtIndex: past the end
        }
        originalChar := original[originalIdx];
      }
    }
    assert result + [] == result;
    return Success(result);
  }

  /** One unit of the original is kept or replaced; the rest of the alignment is unchanged. */
  lemma AlignStep(done: Text, original: Text, i: nat, converted: Text, replacement: CodeUnit)
    requires i < |original| && converted != []
    ensures Prepend(done, Align(original[i..], converted, replacement))
      == if original[i] == converted[0]
         then Prepend(done + [original[i]], Align(original[i + 1..], converted[1..], replacement))
         else if i + 1 == |original| then Failure(RangeException)
         else Prepend(done + [replacement], Align(original[i + 1..], converted, replacement))
  {
    assert original[i..][1..] == original[i + 1..];
    var kept := original[i] == converted[0];
    var rest := Align(original[i + 1..], if kept then converted[1..] else converted, replacement);
    if rest.Success? {
      var unit := if kept then original[i] else replacement;
      assert done + ([unit] + rest.value) == done + [unit] + rest.value;
    }
  }

  // ---------- Greedy alignment is safe and complete ----------

  predicate Subsequence(c: Text, s: Text) {
    c == [] || (s != [] && ((c[0] == s[0] && Subsequence(c[1..], s[1..])) || Subsequence(c, s[1..])))
  }

  /** The units marked `true`, in order. */
  function Marked(s: Text, keep: seq<bool>): Text
    requires |s| == |keep|
  {
    if s == [] then [] else (if keep[0] then [s[0]] else []) + Marked(s[1..], keep[1..])
  }

  /** `result` covers a prefix of the original, unit by unit: the units marked in
  `keep` are the originals and read `converted`, the others are replacements. */
  ghost predicate Aligned(original: Text, converted: Text, replacement: CodeUnit, result: Text, keep: seq<bool>) {
    && |result| == |keep| <= |original|
    && (forall i :: 0 <= i < |keep| ==> result[i] == if keep[i] then original[i] else replacement)
    && Marked(original[..|keep|], keep) == converted
  }

  lemma {:induction false} DropFirst(c: Text, s: Text)
    requires c != [] && Subsequence(c, s)
    ensures Subsequence(c[1..], s) && Subsequence(c[1..], s[1..])
  {
    if !(c[0] == s[0] && Subsequence(c[1..], s[1..])) {
      DropFirst(c, s[1..]);
    }
  }

  /** Matching the first possible unit never loses an alignment, so no read is out
  of range and all of the converted string is consumed. */
  lemma {:induction false} GreedyAlignment(original: Text, converted: Text, replacement: CodeUnit)
    requires Subsequence(converted, original)
    ensures Align(original, converted, replacement).Success?
    ensures exists keep ::
      Aligned(original, converted, replacement, Align(original, converted, replacement).value, keep)
  {
    var r := Align(original, converted, replacement);
    if converted == [] {
      assert Aligned(original, converted, replacement, [], []);
    } else {
      var matched := original[0] == converted[0];
      var c := if matched then converted[1..] else converted;
      if matched { DropFirst(converted, original); }
      GreedyAlignment(original[1..], c, replacement);
      var rest := Align(original[1..], c, replacement);
      var keep :| Aligned(original[1..], c, replacement, rest.value, keep);
      AlignedStep(original, converted, replacement, rest.value, keep);
    }
  }

  lemma AlignedStep(original: Text, converted: Text, replacement: CodeUnit, rest: Text, keep: seq<bool>)
    requires original != [] && converted != []
    requires var matched := original[0] == converted[0];
      Aligned(original[1..], if matched then converted[1..] else converted, replacement, rest, keep)
    ensures var matched := original[0] == converted[0];
      Aligned(original, converted, replacement, [if matched then original[0] else replacement] + rest, [matched] + keep)
  {
    var all := [original[0] == converted[0]] + keep;
    assert original[..|all|][1..] == original[1..][..|keep|];
    assert all[1..] == keep;
  }

  lemma {:induction false} LossyIsSubsequence(s: Text)
    ensures Subsequence(Lossy(s), s)
  {
    if s != [] {
      if StartsWithPair(s) {
        LossyIsSubsequence(s[2..]);
        assert Lossy(s)[1..] == [s[1]] + Lossy(s[2..]);
        assert Lossy(s)[1..][1..] == Lossy(s[2..]) && s[1..][1..] == s[2..];
        assert Subsequence(Lossy(s)[1..], s[1..]);
      } else {
        LossyIsSubsequence(s[1..]);
        if !IsSurrogate(s[0]) { assert Lossy(s)[1..] == Lossy(s[1..]); }
      }
    }
  }

  // ---------- Repair of one string ----------

  function Repair(s: Text, replacement: CodeUnit): Text {
    LossyIsSubsequence(s);
    GreedyAlignment(s, Lossy(s), replacement);
    if WellFormed(s) then s else Align(s, Lossy(s), replacement).value
  }

  method Utf8SafeString(s: Text, replacement: CodeUnit) returns (r: Text)
    ensures r == Repair(s, replacement)
  {
    if WellFormed(s) {
      return s;
    }
    var convertedString := Lossy(s);
    var aligned := AlignLoop(s, convertedString, replacement);
    LossyIsSubsequence(s);
    GreedyAlignment(s, convertedString, replacement);
    r := aligned.value;
  }

  /** What the documentation promises: every unpaired surrogate replaced, all else kept. */
  function Ideal(s: Text, replacement: CodeUnit): (r: Text)
    ensures |r| == |s|
  {
    if s == [] then []
    else if StartsWithPair(s) then s[..2] + Ideal(s[2..], replacement)
    else [if IsSurrogate(s[0]) then replacement else s[0]] + Ideal(s[1..], replacement)
  }

  /** The length up to the last well-formed character. */
  function CoreLength(s: Text): (n: nat)
    ensures n <= |s|
  {
    if Lossy(s) == [] then 0
    else if StartsWithPair(s) then 2 + CoreLength(s[2..])
    else 1 + CoreLength(s[1..])
  }

  /** A run of high surrogates that ends in a pair holds the pair's high surrogate earlier as well. */
  ghost predicate Misaligned(s: Text) {
    exists i, j :: MisalignedAt(s, i, j)
  }

  predicate MisalignedAt(s: Text, i: int, j: int) {
    0 <= i < j < |s| - 1 && s[i] == s[j] && IsLow(s[j + 1]) && HighRun(s, i, j)
  }

  predicate HighRun(s: Text, i: int, j: int)
    requires 0 <= i && j < |s|
  {
    forall k :: i <= k <= j ==> IsHigh(s[k])
  }

  predicate EndsUnpaired(s: Text) {
    s != [] && (IsHigh(s[|s| - 1]) || (IsLow(s[|s| - 1]) && (|s| == 1 || !IsHigh(s[|s| - 2]))))
  }

  lemma MisalignedSuffix(s: Text, n: nat)
    requires n <= |s| && Misaligned(s[n..])
    ensures Misaligned(s)
  {
    var i, j :| MisalignedAt(s[n..], i, j);
    forall k | i + n <= k <= j + n ensures IsHigh(s[k]) {
      assert s[k] == s[n..][k - n];
    }
    assert MisalignedAt(s, i + n, j + n);
  }

  lemma MisalignedTail(s: Text, i: int, j: int, n: nat)
    requires MisalignedAt(s, i, j) && n <= i
    ensures Misaligned(s[n..])
  {
    assert MisalignedAt(s[n..], i - n, j - n);
  }

  /** The run of high surrogates in front of a pair leads to that pair. */
  lemma {:induction false} RunToPair(s: Text) returns (j: nat)
    requires s != [] && IsHigh(s[0]) && Lossy(s) != [] && IsHigh(Lossy(s)[0])
    ensures j < |s| - 1 && s[j] == Lossy(s)[0] && IsLow(s[j + 1]) && HighRun(s, 0, j)
  {
    if StartsWithPair(s) {
      j := 0;
    } else {
      assert |s| >= 2 && IsHigh(s[1]);
      j := RunToPair(s[1..]);
      forall k | 0 <= k <= j + 1 ensures IsHigh(s[k]) {
        if k > 0 { assert s[k] == s[1..][k - 1]; }
      }
      j := j + 1;
    }
  }

  /** The first well-formed character after a run of high surrogates is the pair that ends it. */
  lemma {:induction false} PairAfterRun(s: Text, j: nat)
    requires j < |s| - 1 && IsLow(s[j + 1]) && HighRun(s, 0, j)
    ensures |Lossy(s)| >= 2 && Lossy(s)[0] == s[j] && Lossy(s)[1] == s[j + 1]
  {
    if j > 0 {
      assert forall k :: 0 <= k <= j - 1 ==> s[1..][k] == s[k + 1];
      PairAfterRun(s[1..], j - 1);
    }
  }

  lemma LossyHead(s: Text)
    ensures Lossy(s) != [] ==> !IsLow(Lossy(s)[0])
  {
  }

  lemma MatchedTooEarly(s: Text)
    requires s != [] && IsHigh(s[0]) && !StartsWithPair(s) && Lossy(s) != [] && s[0] == Lossy(s)[0]
    ensures Misaligned(s)
  {
    var j := RunToPair(s);
    assert MisalignedAt(s, 0, j);
  }

  /** Without a misaligned pair the loops do what is documented, up to the last well-formed character. */
  lemma {:induction false} AlignIsIdeal(s: Text, replacement: CodeUnit)
    requires !Misaligned(s)
    ensures Align(s, Lossy(s), replacement) == Success(Ideal(s, replacement)[..CoreLength(s)])
  {
    if Lossy(s) != [] {
      if StartsWithPair(s) {
        if Misaligned(s[2..]) { MisalignedSuffix(s, 2); }
        AlignIsIdeal(s[2..], replacement);
        AlignPair(s, replacement);
        assert Ideal(s, replacement)[..CoreLength(s)] == s[..2] + Ideal(s[2..], replacement)[..CoreLength(s[2..])];
      } else {
        if Misaligned(s[1..]) { MisalignedSuffix(s, 1); }
        AlignIsIdeal(s[1..], replacement);
        assert Ideal(s, replacement)[..CoreLength(s)]
            == [Ideal(s, replacement)[0]] + Ideal(s[1..], replacement)[..CoreLength(s[1..])];
        if IsSurrogate(s[0]) {
          LossyHead(s);
          if s[0] == Lossy(s)[0] { MatchedTooEarly(s); }
        } else {
          assert Lossy(s)[1..] == Lossy(s[1..]);
        }
      }
    }
  }

  lemma AlignPair(s: Text, replacement: CodeUnit)
    requires StartsWithPair(s)
    ensures Align(s, Lossy(s), replacement) == Prepend(s[..2], Align(s[2..], Lossy(s[2..]), replacement))
  {
    var c := Lossy(s);
    assert c[1..] == [s[1]] + Lossy(s[2..]) && c[1..][1..] == Lossy(s[2..]) && s[1..][1..] == s[2..];
    var rest := Align(s[2..], Lossy(s[2..]), replacement);
    if rest.Success? {
      assert [s[0]] + ([s[1]] + rest.value) == s[..2] + rest.value;
    }
  }

  lemma {:induction false} WellFormedIsLossless(s: Text)
    ensures WellFormed(s) <==> Lossy(s) == s
    ensures !WellFormed(s) ==> |Lossy(s)| < |s|
    ensures |Lossy(s)| <= |s|
  {
    if s != [] {
      if StartsWithPair(s) {
        WellFormedIsLossless(s[2..]);
        assert s == s[..2] + s[2..];
        if Lossy(s) == s { assert Lossy(s[2..]) == Lossy(s)[2..]; }
      } else {
        WellFormedIsLossless(s[1..]);
        assert s == [s[0]] + s[1..];
      }
    }
  }

  lemma {:induction false} WellFormedIsAligned(s: Text)
    requires WellFormed(s)
    ensures !Misaligned(s)
  {
    if i, j :| MisalignedAt(s, i, j) {
      if StartsWithPair(s) {
        WellFormedIsAligned(s[2..]);
        MisalignedTail(s, i, j, 2);
      } else {
        WellFormedIsAligned(s[1..]);
        MisalignedTail(s, i, j, 1);
      }
    }
  }

  lemma {:induction false} IdealIsWellFormed(s: Text, replacement: CodeUnit)
    requires !IsSurrogate(replacement)
    ensures WellFormed(Ideal(s, replacement)[..CoreLength(s)]) && WellFormed(Ideal(s, replacement))
  {
    var ideal, n := Ideal(s, replacement), CoreLength(s);
    if s != [] {
      if StartsWithPair(s) {
        IdealIsWellFormed(s[2..], replacement);
        assert ideal[2..] == Ideal(s[2..], replacement);
        assert ideal[..n][2..] == Ideal(s[2..], replacement)[..CoreLength(s[2..])];
      } else {
        IdealIsWellFormed(s[1..], replacement);
        assert ideal[1..] == Ideal(s[1..], replacement);
        if n > 0 { assert ideal[..n][1..] == Ideal(s[1..], replacement)[..CoreLength(s[1..])]; }
      }
    }
  }

  /** A misaligned pair is torn apart: its high surrogate ends up in front of a replacement. */
  lemma {:induction false} MisalignedIsTorn(s: Text, replacement: CodeUnit)
    requires Misaligned(s) && !IsSurrogate(replacement)
    ensures var r := Align(s, Lossy(s), replacement); r.Success? && !WellFormed(r.value)
  {
    LossyIsSubsequence(s);
    GreedyAlignment(s, Lossy(s), replacement);
    var i, j :| MisalignedAt(s, i, j);
    if StartsWithPair(s) {
      MisalignedTail(s, i, j, 2);
      MisalignedIsTorn(s[2..], replacement);
      AlignPair(s, replacement);
      var rest := Align(s[2..], Lossy(s[2..]), replacement).value;
      assert (s[..2] + rest)[2..] == rest;
    } else if IsSurrogate(s[0]) && Lossy(s) != [] && s[0] == Lossy(s)[0] {
      LossyHead(s);
      TornHere(s, replacement);
    } else {
      if i == 0 { PairAfterRun(s, j); }
      MisalignedTail(s, i, j, 1);
      MisalignedIsTorn(s[1..], replacement);
      if !IsSurrogate(s[0]) {
        assert Lossy(s)[1..] == Lossy(s[1..]);
      }
    }
  }

  lemma TornHere(s: Text, replacement: CodeUnit)
    requires s != [] && IsHigh(s[0]) && !StartsWithPair(s) && !IsSurrogate(replacement)
    requires Lossy(s) != [] && s[0] == Lossy(s)[0]
    requires Align(s, Lossy(s), replacement).Success?
    ensures !WellFormed(Align(s, Lossy(s), replacement).value)
  {
    var j := RunToPair(s);
    PairAfterRun(s, j);
    var c := Lossy(s);
    assert c[1..][0] == s[j + 1] && s[1..][0] == s[1];
    var r := Align(s, c, replacement).value;
    assert |r| >= 2 && r[0] == s[0] && r[1] == replacement;
  }

  // ---------- What repair achieves ----------

  /** For every string: the repaired string covers a prefix of it, and the kept units spell its lossy conversion. */
  lemma RepairKeepsLossy(s: Text, replacement: CodeUnit)
    ensures exists keep :: Aligned(s, Lossy(s), replacement, Repair(s, replacement), keep)
  {
    LossyIsSubsequence(s);
    GreedyAlignment(s, Lossy(s), replacement);
    if WellFormed(s) {
      WellFormedIsLossless(s);
      var keep := seq(|s|, i => true);
      AllMarked(s, keep);
      assert s[..|keep|] == s;
      assert Aligned(s, Lossy(s), replacement, Repair(s, replacement), keep);
    } else {
      var keep :| Aligned(s, Lossy(s), replacement, Align(s, Lossy(s), replacement).value, keep);
      assert Aligned(s, Lossy(s), replacement, Repair(s, replacement), keep);
    }
  }

  lemma {:induction false} AllMarked(s: Text, keep: seq<bool>)
    requires |s| == |keep| && forall i :: 0 <= i < |keep| ==> keep[i]
    ensures Marked(s, keep) == s
  {
    if s != [] { AllMarked(s[1..], keep[1..]); }
  }

  lemma {:induction false} WellFormedIsIdeal(s: Text, replacement: CodeUnit)
    requires WellFormed(s)
    ensures Ideal(s, replacement) == s && CoreLength(s) == |s|
  {
    if s != [] {
      if StartsWithPair(s) {
        WellFormedIsIdeal(s[2..], replacement);
      } else {
        WellFormedIsIdeal(s[1..], replacement);
      }
    }
  }

  lemma RepairIsIdealCore(s: Text, replacement: CodeUnit)
    requires !Misaligned(s)
    ensures Repair(s, replacement) == Ideal(s, replacement)[..CoreLength(s)]
  {
    if WellFormed(s) {
      WellFormedIsIdeal(s, replacement);
    } else {
      AlignIsIdeal(s, replacement);
    }
  }

  /** The repaired string can be converted exactly when no pair is misaligned. */
  lemma RepairIsSafeIff(s: Text, replacement: CodeUnit)
    requires !IsSurrogate(replacement)
    ensures WellFormed(Repair(s, replacement)) <==> !Misaligned(s)
  {
    if Misaligned(s) {
      if WellFormed(s) { WellFormedIsAligned(s); }
      MisalignedIsTorn(s, replacement);
    } else {
      RepairIsIdealCore(s, replacement);
      IdealIsWellFormed(s, replacement);
    }
  }

  lemma {:induction false} CoreIsAllIff(s: Text)
    ensures CoreLength(s) < |s| <==> EndsUnpaired(s)
  {
    if s != [] {
      if StartsWithPair(s) {
        CoreIsAllIff(s[2..]);
      } else {
        CoreIsAllIff(s[1..]);
      }
    }
  }

  /** The documented result comes out exactly when no pair is misaligned and the
  string does not end in an unpaired surrogate, which would be dropped. */
  lemma RepairAsDocumentedIff(s: Text, replacement: CodeUnit)
    requires !IsSurrogate(replacement)
    ensures Repair(s, replacement) == Ideal(s, replacement) <==> !Misaligned(s) && !EndsUnpaired(s)
  {
    CoreIsAllIff(s);
    IdealIsWellFormed(s, replacement);
    RepairIsSafeIff(s, replacement);
    if !Misaligned(s) { RepairIsIdealCore(s, replacement); }
  }

  function Surrogates(s: Text): nat {
    if s == [] then 0 else (if IsSurrogate(s[0]) then 1 else 0) + Surrogates(s[1..])
  }

  lemma {:induction false} LossyLosesSurrogates(s: Text)
    ensures Surrogates(s) == Surrogates(Lossy(s)) + |s| - |Lossy(s)|
  {
    if s != [] {
      if StartsWithPair(s) {
        LossyLosesSurrogates(s[2..]);
        assert Lossy(s)[1..] == [s[1]] + Lossy(s[2..]) && Lossy(s)[1..][1..] == Lossy(s[2..]);
        assert s[1..][1..] == s[2..];
      } else {
        LossyLosesSurrogates(s[1..]);
        if !IsSurrogate(s[0]) { assert Lossy(s)[1..] == Lossy(s[1..]); }
      }
    }
  }

  lemma {:induction false} AlignAddsNoSurrogates(original: Text, converted: Text, replacement: CodeUnit)
    requires !IsSurrogate(replacement) && Align(original, converted, replacement).Success?
    ensures Surrogates(Align(original, converted, replacement).value) <= Surrogates(converted)
  {
    if original != [] && converted != [] {
      var r := Align(original, converted, replacement).value;
      if original[0] == converted[0] {
        AlignAddsNoSurrogates(original[1..], converted[1..], replacement);
        assert r[1..] == Align(original[1..], converted[1..], replacement).value;
      } else {
        AlignAddsNoSurrogates(original[1..], converted, replacement);
        assert r[1..] == Align(original[1..], converted, replacement).value;
      }
    }
  }

  /** Repairing twice changes nothing more, exactly when no pair is misaligned. */
  lemma RepairIsIdempotentIff(s: Text, replacement: CodeUnit)
    requires !IsSurrogate(replacement)
    ensures Repair(Repair(s, replacement), replacement) == Repair(s, replacement) <==> !Misaligned(s)
  {
    RepairIsSafeIff(s, replacement);
    var once := Repair(s, replacement);
    if Misaligned(s) {
      LossyIsSubsequence(once);
      GreedyAlignment(once, Lossy(once), replacement);
      WellFormedIsLossless(once);
      LossyLosesSurrogates(once);
      AlignAddsNoSurrogates(once, Lossy(once), replacement);
    }
  }

  /** A doubled high surrogate in front of its pair is torn: the condition above is needed. */
  lemma DoubledHighIsTorn(high: CodeUnit, low: CodeUnit, replacement: CodeUnit)
    requires IsHigh(high) && IsLow(low) && !IsSurrogate(replacement)
    ensures Repair([high, high, low], replacement) == [high, replacement, low]
    ensures Ideal([high, high, low], replacement) == [replacement, high, low]
  {
    var s: Text, pair: Text, last: Text := [high, high, low], [high, low], [low];
    assert s[1..] == pair && pair[1..] == last && last[1..] == [] && pair[2..] == [] && pair[..2] == pair;
    assert Lossy(pair) == pair && Lossy(s) == pair;
    assert Align(last[1..], last[1..], replacement) == Success([]);
    assert [last[0]] + [] == last;
    assert Align(last, last, replacement) == Success(last);
    assert Align(pair, last, replacement) == Success([replacement] + last);
    assert Align(s, pair, replacement) == Success([high] + ([replacement] + last));
    assert Ideal(pair, replacement) == pair + Ideal(pair[2..], replacement);
  }
}
