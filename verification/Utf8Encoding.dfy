/** What well-formed strings are: the UTF-16 encodings of sequences of scalar values.

The encoding is that of section 3.9 of the Unicode Standard, in plain arithmetic. */
module Utf8Encoding {
  import opened Utf8Repair

  type Scalar = c: int | 0 <= c < 0xd800 || 0xe000 <= c < 0x11_0000

  function EncodedScalar(c: Scalar): Text {
    if c < 0x1_0000 then [c] else [0xd800 + (c - 0x1_0000) / 0x400, 0xdc00 + (c - 0x1_0000) % 0x400]
  }

  function Encoded(cs: seq<Scalar>): Text {
    if cs == [] then [] else EncodedScalar(cs[0]) + Encoded(cs[1..])
  }

  lemma {:induction false} EncodedIsWellFormed(cs: seq<Scalar>)
    ensures WellFormed(Encoded(cs))
  {
    if cs != [] {
      EncodedIsWellFormed(cs[1..]);
      var first, rest := EncodedScalar(cs[0]), Encoded(cs[1..]);
      assert (first + rest)[|first|..] == rest;
    }
  }

  lemma PairIsEncoded(high: CodeUnit, low: CodeUnit) returns (c: Scalar)
    requires IsHigh(high) && IsLow(low)
    ensures EncodedScalar(c) == [high, low]
  {
    c := 0x1_0000 + (high - 0xd800) * 0x400 + (low - 0xdc00);
    assert (c - 0x1_0000) / 0x400 == high - 0xd800;
  }

  lemma {:induction false} Decoded(s: Text) returns (cs: seq<Scalar>)
    requires WellFormed(s)
    ensures Encoded(cs) == s
    decreases |s|
  {
    if s == [] {
      cs := [];
    } else if StartsWithPair(s) {
      var c := PairIsEncoded(s[0], s[1]);
      var rest := Decoded(s[2..]);
      cs := [c] + rest;
      assert s == [s[0], s[1]] + s[2..];
    } else {
      var rest := Decoded(s[1..]);
      cs := [s[0] as int] + rest;
      assert s == [s[0]] + s[1..];
    }
  }

  /** A string can be converted exactly when it encodes some sequence of scalar values. */
  lemma WellFormedIffEncoding(s: Text)
    ensures WellFormed(s) <==> exists cs :: Encoded(cs) == s
  {
    if WellFormed(s) {
      var cs := Decoded(s);
    }
    if cs :| Encoded(cs) == s {
      EncodedIsWellFormed(cs);
    }
  }

  /** A string of scalar values, emoji and all, comes back as it is. */
  lemma EncodedIsKept(cs: seq<Scalar>, replacement: CodeUnit)
    ensures Repair(Encoded(cs), replacement) == Encoded(cs)
  {
    EncodedIsWellFormed(cs);
  }

  /** The repaired string encodes scalar values exactly when no pair is misaligned. */
  lemma RepairedIsEncodingIff(s: Text, replacement: CodeUnit)
    requires replacement < 0xd800 || 0xe000 <= replacement
    ensures (exists cs :: Encoded(cs) == Repair(s, replacement)) <==> !Misaligned(s)
  {
    RepairIsSafeIff(s, replacement);
    WellFormedIffEncoding(Repair(s, replacement));
  }

  // ---------- Unpaired surrogates, unit by unit ----------

  /** A high surrogate without a low one after it, or a low one without a high one before it. */
  predicate Unpaired(s: Text, i: nat)
    requires i < |s|
  {
    || (0xd800 <= s[i] < 0xdc00 && !(i + 1 < |s| && 0xdc00 <= s[i + 1] < 0xe000))
    || (0xdc00 <= s[i] < 0xe000 && !(i > 0 && 0xd800 <= s[i - 1] < 0xdc00))
  }

  lemma UnpairedInSuffix(s: Text, n: nat, i: nat)
    requires n <= i < |s|
    requires n == i && n > 0 ==> !(0xd800 <= s[n - 1] < 0xdc00 && 0xdc00 <= s[n] < 0xe000)
    ensures Unpaired(s[n..], i - n) <==> Unpaired(s, i)
  {
  }

  /** The documented result has the replacement for each unpaired surrogate and all other units as they are. */
  lemma {:induction false} IdealAt(s: Text, replacement: CodeUnit, i: nat)
    requires i < |s|
    ensures Ideal(s, replacement)[i] == if Unpaired(s, i) then replacement else s[i]
    decreases |s|
  {
    var n := if StartsWithPair(s) then 2 else 1;
    if i >= n {
      IdealAt(s[n..], replacement, i - n);
      UnpairedInSuffix(s, n, i);
    }
  }

  function Paired(s: Text): seq<bool> {
    seq(|s|, i requires 0 <= i < |s| => !Unpaired(s, i))
  }

  lemma PairedInSuffix(s: Text, n: nat)
    requires n <= |s|
    requires 0 < n < |s| ==> !(0xd800 <= s[n - 1] < 0xdc00 && 0xdc00 <= s[n] < 0xe000)
    ensures Paired(s)[n..] == Paired(s[n..])
  {
    forall i: nat | n <= i < |s| ensures Paired(s)[i] == Paired(s[n..])[i - n] {
      UnpairedInSuffix(s, n, i);
    }
  }

  lemma MarkedOne(s: Text, keep: seq<bool>)
    requires |s| == |keep| >= 1
    ensures Marked(s, keep) == (if keep[0] then [s[0]] else []) + Marked(s[1..], keep[1..])
  {
  }

  lemma MarkedPair(s: Text, keep: seq<bool>)
    requires |s| == |keep| >= 2 && keep[0] && keep[1]
    ensures Marked(s, keep) == s[..2] + Marked(s[2..], keep[2..])
  {
    assert s[1..][1..] == s[2..] && keep[1..][1..] == keep[2..];
    MarkedOne(s, keep);
    MarkedOne(s[1..], keep[1..]);
    assert [s[0]] + ([s[1]] + Marked(s[2..], keep[2..])) == s[..2] + Marked(s[2..], keep[2..]);
  }

  /** The lossy conversion keeps all units but the unpaired surrogates. */
  lemma {:induction false} LossyDropsUnpaired(s: Text)
    ensures Lossy(s) == Marked(s, Paired(s))
    decreases |s|
  {
    if s == [] {
    } else if StartsWithPair(s) {
      LossyDropsUnpaired(s[2..]);
      PairedInSuffix(s, 2);
      MarkedPair(s, Paired(s));
    } else {
      LossyDropsUnpaired(s[1..]);
      PairedInSuffix(s, 1);
      MarkedOne(s, Paired(s));
    }
  }

  /** A last unpaired surrogate is what spoils the end of a repaired string. */
  lemma EndsUnpairedIff(s: Text)
    ensures EndsUnpaired(s) <==> s != [] && Unpaired(s, |s| - 1)
  {
  }

  /** For any string: all unpaired surrogates are replaced, and all else is kept, exactly
  when no pair is misaligned and the last unit is no unpaired surrogate. */
  lemma RepairReplacesUnpairedIff(s: Text, replacement: CodeUnit)
    requires replacement < 0xd800 || 0xe000 <= replacement
    ensures (|Repair(s, replacement)| == |s|
             && forall i :: 0 <= i < |s| ==>
                  Repair(s, replacement)[i] == if Unpaired(s, i) then replacement else s[i])
       <==> !Misaligned(s) && !(s != [] && Unpaired(s, |s| - 1))
  {
    RepairAsDocumentedIff(s, replacement);
    EndsUnpairedIff(s);
    forall i: nat | i < |s| ensures Ideal(s, replacement)[i] == if Unpaired(s, i) then replacement else s[i] {
      IdealAt(s, replacement, i);
    }
    if |Repair(s, replacement)| == |s|
      && forall i :: 0 <= i < |s| ==> Repair(s, replacement)[i] == if Unpaired(s, i) then replacement else s[i]
    {
      assert Repair(s, replacement) == Ideal(s, replacement);
    }
  }
}
