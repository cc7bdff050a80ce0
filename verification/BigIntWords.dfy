/**
 `JsBigInt`: reading a JavaScript BigInt of any size as a 128-bit integer.
 */
module BigIntWords {

  const W := 0x1_0000_0000_0000_0000
  const W2 := W * W
  const HALF := W2 / 2

  type Word = n: nat | n < W
  type Byte = n: nat | n < 256

  // What the engine keeps for a BigInt: a sign and its words, the low one first. Zero has
  // no words, no sign, and the top word is never zero.
  datatype BigInt = BigInt(negative: bool, words: seq<Word>)

  predicate Normal(b: BigInt) {
    if b.words == [] then !b.negative else b.words[|b.words| - 1] != 0
  }

  function Magnitude(words: seq<Word>): nat {
    if words == [] then 0 else words[0] + W * Magnitude(words[1..])
  }

  function Signed(negative: bool, magnitude: int): int {
    if negative then -magnitude else magnitude
  }

  function Value(b: BigInt): int {
    Signed(b.negative, Magnitude(b.words))
  }

  // ----- the bytes of an integer, in the order of the machine

  function LowFirst(n: nat, count: nat): (s: seq<Byte>)
    ensures |s| == count
  {
    if count == 0 then [] else [n % 256] + LowFirst(n / 256, count - 1)
  }

  function FromLowFirst(s: seq<Byte>): nat {
    if s == [] then 0 else s[0] + 256 * FromLowFirst(s[1..])
  }

  function Reversed<T>(s: seq<T>): (r: seq<T>)
    ensures |r| == |s|
  {
    if s == [] then [] else Reversed(s[1..]) + [s[0]]
  }

  function ToNeBytes(w: Word, little: bool): (s: seq<Byte>)
    ensures |s| == 8
  {
    if little then LowFirst(w, 8) else Reversed(LowFirst(w, 8))
  }

  function FromNeBytes(s: seq<Byte>, little: bool): nat {
    FromLowFirst(if little then s else Reversed(s))
  }

  function Power256(n: nat): (p: nat)
    ensures p > 0
  {
    if n == 0 then 1 else 256 * Power256(n - 1)
  }

  lemma {:induction false} ReadsBack(n: nat, count: nat)
    requires n < Power256(count)
    ensures FromLowFirst(LowFirst(n, count)) == n
  {
    if count > 0 {
      ReadsBack(n / 256, count - 1);
    }
  }

  lemma {:induction false} ReadsInTwo(low: seq<Byte>, high: seq<Byte>)
    ensures FromLowFirst(low + high) == FromLowFirst(low) + Power256(|low|) * FromLowFirst(high)
  {
    if low == [] {
      assert low + high == high;
    } else {
      assert (low + high)[1..] == low[1..] + high;
      ReadsInTwo(low[1..], high);
      Distributes(low[0], FromLowFirst(low[1..]), Power256(|low| - 1), FromLowFirst(high));
    }
  }

  lemma Distributes(a: nat, b: nat, p: nat, c: nat)
    ensures a + 256 * (b + p * c) == a + 256 * b + 256 * p * c
  {
  }

  lemma {:induction false} ReversedSplits<T>(a: seq<T>, b: seq<T>)
    ensures Reversed(a + b) == Reversed(b) + Reversed(a)
  {
    if a == [] {
      assert a + b == b && Reversed(b) + [] == Reversed(b);
    } else {
      assert (a + b)[1..] == a[1..] + b;
      ReversedSplits(a[1..], b);
    }
  }

  lemma {:induction false} ReversedTwice<T>(s: seq<T>)
    ensures Reversed(Reversed(s)) == s
  {
    if s != [] {
      ReversedTwice(s[1..]);
      ReversedSplits(Reversed(s[1..]), [s[0]]);
      assert Reversed([s[0]]) == [s[0]];
    }
  }

  lemma Powers()
    ensures Power256(8) == W
  {
    assert Power256(4) == 0x1_0000_0000;
    assert Power256(5) == 256 * Power256(4);
    assert Power256(6) == 256 * Power256(5);
    assert Power256(7) == 256 * Power256(6);
  }

  // Both byte orders put the two words together to the same number.
  lemma TwoWords(low: Word, high: Word, little: bool)
    ensures var (l, h) := (ToNeBytes(low, little), ToNeBytes(high, little));
      FromNeBytes(if little then l + h else h + l, little) == low + W * high
  {
    var l, h := LowFirst(low, 8), LowFirst(high, 8);
    Powers();
    ReadsBack(low, 8);
    ReadsBack(high, 8);
    ReadsInTwo(l, h);
    if !little {
      ReversedSplits(Reversed(h), Reversed(l));
      ReversedTwice(l);
      ReversedTwice(h);
    }
  }

  // ----- 128-bit integers

  // The 128-bit two's-complement integer that is `n` modulo 2^128.
  function Wrapped(n: int): (r: int)
    ensures -HALF <= r < HALF
  {
    var m := n % W2;
    if m < HALF then m else m - W2
  }

  // `overflowing_neg`
  function OverflowingNeg(v: int): (int, bool) {
    if v == -HALF then (v, true) else (-v, false)
  }

  lemma WrappedIsTheOnlyOne(n: int, r: int, k: int)
    requires -HALF <= r < HALF && r == n + W2 * k
    ensures r == Wrapped(n)
  {
    ModIsTheOnlyOne(n, if r < 0 then r + W2 else r, if r < 0 then k + 1 else k);
  }

  lemma ModIsTheOnlyOne(n: int, m: int, k: int)
    requires 0 <= m < W2 && m == n + W2 * k
    ensures n % W2 == m
  {
    var q := n / W2;
    assert n == W2 * q + n % W2;
    var d := q + k;
    assert m - n % W2 == W2 * d;
  }

  function First<T>(s: seq<T>, k: nat, default: T): T {
    if k < |s| then s[k] else default
  }

  function LowTwo(words: seq<Word>): nat {
    First(words, 0, 0) + W * First(words, 1, 0)
  }

  lemma LowTwoOf(words: seq<Word>) returns (k: int)
    ensures Magnitude(words) == LowTwo(words) + W2 * k
    ensures k >= 0 && LowTwo(words) < W2
    ensures |words| <= 2 ==> k == 0
    ensures |words| > 2 ==> k == Magnitude(words[2..])
  {
    k := if |words| > 2 then Magnitude(words[2..]) else 0;
    if |words| >= 2 {
      assert words[1..][1..] == words[2..];
      assert Magnitude(words) == words[0] + W * (words[1] + W * Magnitude(words[2..]));
    } else if |words| == 1 {
      assert words[1..] == [];
    }
  }

  lemma {:induction false} TopWordShows(words: seq<Word>)
    requires words != [] && words[|words| - 1] != 0
    ensures Magnitude(words) > 0
  {
    if |words| > 1 {
      TopWordShows(words[1..]);
    }
  }

  class JsBigInt {
    const raw: BigInt
    var wordCount: nat

    // The count handed to the engine covers the words it has to write.
    predicate Valid()
      reads this
    {
      Normal(raw) && |raw.words| <= wordCount
    }

    // `from_napi_value`
    constructor (raw: BigInt)
      requires Normal(raw)
      ensures Valid() && this.raw == raw && wordCount == |raw.words|
    {
      this.raw := raw;
      wordCount := |raw.words|;
    }

    // `from_raw_unchecked`
    constructor Unchecked(raw: BigInt, wordCount: nat)
      requires Normal(raw) && |raw.words| <= wordCount
      ensures Valid() && this.raw == raw && this.wordCount == wordCount
    {
      this.raw := raw;
      this.wordCount := wordCount;
    }

    method GetWords() returns (signed: bool, words: seq<Word>)
      requires Valid()
      modifies this`wordCount
      ensures Valid() && wordCount == |words|
      ensures signed == raw.negative && words == raw.words
    {
      wordCount := |raw.words|;
      signed, words := raw.negative, raw.words;
    }

    // `copy_from_slice`
    method CopyFromSlice(val: array<Byte>, at: nat, part: seq<Byte>)
      requires at + |part| <= val.Length
      modifies val
      ensures val[at..at + |part|] == part
      ensures val[..at] == old(val[..at]) && val[at + |part|..] == old(val[at + |part|..])
    {
      for i := 0 to |part|
        invariant val[at..at + i] == part[..i]
        invariant val[..at] == old(val[..at]) && val[at + i..] == old(val[at + i..])
      {
        val[at + i] := part[i];
      }
    }

    // The sixteen bytes, through the two halves of one array.
    method Assemble(words: seq<Word>, little: bool) returns (bytes: seq<Byte>)
      ensures FromNeBytes(bytes, little) == LowTwo(words)
    {
      var lowPart := ToNeBytes(First(words, 0, 0), little);
      var highPart := ToNeBytes(First(words, 1, 0), little);
      var val := new Byte[16](_ => 0);
      var highVal, lowVal;
      if little {
        lowVal, highVal := 0, 8;
      } else {
        highVal, lowVal := 0, 8;
      }
      CopyFromSlice(val, highVal, highPart);
      CopyFromSlice(val, lowVal, lowPart);
      bytes := val[..];
      assert val[lowVal..lowVal + 8] == lowPart && val[highVal..highVal + 8] == highPart;
      assert bytes == val[0..8] + val[8..16];
      TwoWords(First(words, 0, 0), First(words, 1, 0), little);
    }

    // The value is the BigInt cut to 128 bits, sign and all. The flag goes up beyond two
    // words and for -2^127 only.
    method GetI128(little: bool) returns (val: int, loss: bool)
      requires Valid()
      modifies this`wordCount
      ensures Valid()
      ensures val == Wrapped(Value(raw))
      ensures loss <==> |raw.words| > 2 || (raw.negative && LowTwo(raw.words) == HALF)
    {
      var signed, words := GetWords();
      var bytes := Assemble(words, little);
      var unsigned := FromNeBytes(bytes, little);
      var k := LowTwoOf(words);
      val := if unsigned < HALF then unsigned else unsigned - W2;
      loss := |words| > 2;
      var overflow := false;
      if signed {
        var result := OverflowingNeg(val);
        val := result.0;
        overflow := result.1;
      }
      loss := overflow || loss;
      NegationWraps(Magnitude(words), unsigned, k, signed);
    }

    method GetU128(little: bool) returns (signed: bool, val: nat, loss: bool)
      requires Valid()
      modifies this`wordCount
      ensures Valid()
      ensures signed == raw.negative
      ensures val == Magnitude(raw.words) % W2
      ensures loss <==> val != Magnitude(raw.words)
    {
      var words;
      signed, words := GetWords();
      var bytes := Assemble(words, little);
      val := FromNeBytes(bytes, little);
      var len := |words|;
      loss := len > 2;
      var k := LowTwoOf(words);
      ModIsTheOnlyOne(Magnitude(words), val, -k);
      if len > 2 {
        TopWordShows(words[2..]);
      }
    }
  }

  lemma NegationWraps(magnitude: int, low: int, k: int, signed: bool)
    requires magnitude == low + W2 * k && 0 <= low < W2
    ensures var v := if low < HALF then low else low - W2;
      Wrapped(Signed(signed, magnitude)) == if signed then OverflowingNeg(v).0 else v
  {
    var v := if low < HALF then low else low - W2;
    var up := if low < HALF then 0 else 1;
    if signed {
      if v == -HALF {
        WrappedIsTheOnlyOne(-magnitude, v, k);
      } else {
        WrappedIsTheOnlyOne(-magnitude, -v, k + up);
      }
    } else {
      WrappedIsTheOnlyOne(magnitude, v, -k - up);
    }
  }

  predicate Fits(n: int) {
    -HALF <= n < HALF
  }

  function Flag(b: BigInt): bool {
    |b.words| > 2 || (b.negative && LowTwo(b.words) == HALF)
  }

  lemma FitsInTwoWords(b: BigInt)
    requires Normal(b) && |b.words| > 2
    ensures Magnitude(b.words) >= W2
  {
    var k := LowTwoOf(b.words);
    TopWordShows(b.words[2..]);
  }

  // The cut value is the BigInt itself if and only if that fits; but the flag tells so for
  // neither the values of two words that do not fit, which come out wrong in silence, nor
  // for the least one, which comes out right with the flag up.
  lemma ExactlyWhenItFits(b: BigInt)
    requires Normal(b)
    ensures Wrapped(Value(b)) == Value(b) <==> Fits(Value(b))
    ensures !Flag(b) && Wrapped(Value(b)) != Value(b) <==> |b.words| <= 2 && !Fits(Value(b))
    ensures Flag(b) && Wrapped(Value(b)) == Value(b) <==> Value(b) == -HALF
  {
    if Fits(Value(b)) {
      WrappedIsTheOnlyOne(Value(b), Value(b), 0);
    }
    var k := LowTwoOf(b.words);
    if |b.words| > 2 {
      FitsInTwoWords(b);
    }
  }

  // The flag can be trusted if and only if the BigInt has more than two words, or lies
  // strictly between -2^127 and 2^127.
  lemma FlagIsRightExactly(b: BigInt)
    requires Normal(b)
    ensures (Flag(b) <==> Wrapped(Value(b)) != Value(b)) <==> |b.words| > 2 || -HALF < Value(b) < HALF
  {
    ExactlyWhenItFits(b);
    if |b.words| > 2 {
      FitsInTwoWords(b);
    }
  }

  // ----- creation

  // The engine drops zero words at the top, and the sign of zero.
  function Trimmed(words: seq<Word>): seq<Word> {
    if words == [] then []
    else if words[|words| - 1] == 0 then Trimmed(words[..|words| - 1])
    else words
  }

  function Created(signBit: bool, words: seq<Word>): BigInt {
    BigInt(signBit && Trimmed(words) != [], Trimmed(words))
  }

  lemma {:induction false} ZeroOnTop(words: seq<Word>)
    requires words != [] && words[|words| - 1] == 0
    ensures Magnitude(words[..|words| - 1]) == Magnitude(words)
  {
    if |words| > 1 {
      assert words[1..][..|words| - 2] == words[..|words| - 1][1..];
      ZeroOnTop(words[1..]);
    }
  }

  lemma {:induction false} TrimmedIsNormal(words: seq<Word>)
    ensures var t := Trimmed(words);
      && Magnitude(t) == Magnitude(words) && |t| <= |words|
      && (t == [] || t[|t| - 1] != 0)
  {
    if words != [] && words[|words| - 1] == 0 {
      ZeroOnTop(words);
      TrimmedIsNormal(words[..|words| - 1]);
    }
  }

  lemma CreatedIsMeant(signBit: bool, words: seq<Word>)
    ensures var b := Created(signBit, words);
      && Normal(b) && |b.words| <= |words|
      && Value(b) == Signed(signBit, Magnitude(words))
  {
    TrimmedIsNormal(words);
  }

  // The two words `u128_with_sign_to_napi_value` hands over.
  function SplitWords(val: nat): (r: seq<Word>)
    requires val < W2
    ensures |r| == 2
  {
    [val % W, val / W]
  }

  lemma SplitIsWhole(val: nat)
    requires val < W2
    ensures Magnitude(SplitWords(val)) == val
  {
    var ws := SplitWords(val);
    assert ws[1..][1..] == [] && ws[1..][0] == val / W;
    assert Magnitude(ws[1..]) == val / W;
  }

  method U128WithSign(val: nat, signBit: bool) returns (raw: BigInt)
    requires val < W2
    ensures Normal(raw) && |raw.words| <= 2
    ensures Value(raw) == Signed(signBit, val)
  {
    raw := Created(signBit, SplitWords(val));
    CreatedIsMeant(signBit, SplitWords(val));
    SplitIsWhole(val);
  }

  method CreateBigintFromI128(value: int) returns (b: JsBigInt)
    requires Fits(value)
    ensures fresh(b) && b.Valid() && Value(b.raw) == value && |b.raw.words| <= 2
  {
    var raw := U128WithSign(if value < 0 then -value else value, value <= 0);
    b := new JsBigInt.Unchecked(raw, 2);
  }

  method CreateBigintFromU128(value: nat) returns (b: JsBigInt)
    requires value < W2
    ensures fresh(b) && b.Valid() && Value(b.raw) == value && |b.raw.words| <= 2
  {
    var raw := U128WithSign(value, false);
    b := new JsBigInt.Unchecked(raw, 2);
  }

  // Every i128 goes to JavaScript and back unchanged, whatever the byte order; only the
  // least one comes back flagged.
  method I128ThereAndBack(value: int, little: bool) returns (back: int, loss: bool)
    requires Fits(value)
    ensures back == value
    ensures loss <==> value == -HALF
  {
    var b := CreateBigintFromI128(value);
    back, loss := b.GetI128(little);
    ExactlyWhenItFits(b.raw);
  }

  method U128ThereAndBack(value: nat, little: bool) returns (signed: bool, back: nat, loss: bool)
    requires value < W2
    ensures !signed && back == value && !loss
  {
    var b := CreateBigintFromU128(value);
    signed, back, loss := b.GetU128(little);
    ModIsTheOnlyOne(value, value, 0);
    if signed {
      MagnitudeOfNegative(b.raw);
    }
  }

  lemma MagnitudeOfNegative(b: BigInt)
    requires Normal(b) && b.negative
    ensures Value(b) < 0
  {
    TopWordShows(b.words);
  }
}
