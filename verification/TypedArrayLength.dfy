/**
 `normalize_typed_array_length` and its twin: how long a typed array may be taken to be,
 when an engine reports its length in bytes or beyond its buffer.
 */
module TypedArrayLength {

  datatype TypedArrayType =
    | Int8 | Uint8 | Uint8Clamped | Int16 | Uint16 | Int32 | Uint32 | Float32 | Float64
    | BigInt64 | BigUint64 | Unknown

  function ElementSize(t: TypedArrayType): (size: nat)
    ensures size in {1, 2, 4, 8}
  {
    match t
    case Int8 | Uint8 | Uint8Clamped => 1
    case Int16 | Uint16 => 2
    case Int32 | Uint32 | Float32 => 4
    case Float64 => 8
    case BigInt64 | BigUint64 => 8
    case Unknown => 1
  }

  // The name of the JavaScript class, its number apart.
  function NameParts(t: TypedArrayType): (string, string, string) {
    match t
    case Int8 => ("Int", "8", "Array")
    case Uint8 => ("Uint", "8", "Array")
    case Uint8Clamped => ("Uint", "8", "ClampedArray")
    case Int16 => ("Int", "16", "Array")
    case Uint16 => ("Uint", "16", "Array")
    case Int32 => ("Int", "32", "Array")
    case Uint32 => ("Uint", "32", "Array")
    case Float32 => ("Float", "32", "Array")
    case Float64 => ("Float", "64", "Array")
    case BigInt64 => ("BigInt", "64", "Array")
    case BigUint64 => ("BigUint", "64", "Array")
    case Unknown => ("", "", "")
  }

  function ClassName(t: TypedArrayType): string {
    NameParts(t).0 + NameParts(t).1 + NameParts(t).2
  }

  // The number in a name that holds one.
  function NumberIn(name: string, value: nat): nat {
    if name == "" then value
    else NumberIn(name[1..], if '0' <= name[0] <= '9' then 10 * value + (name[0] as int - '0' as int) else value)
  }

  // An element has the bits its class is named after, eight to a byte; a kind that is not
  // known counts bytes.
  lemma SizeIsInTheName(t: TypedArrayType)
    ensures if t.Unknown? then ElementSize(t) == 1 else 8 * ElementSize(t) == NumberIn(ClassName(t), 0)
  {
    if !t.Unknown? {
      var (front, digits, back) := NameParts(t);
      PartsAreNamed(t);
      Named(front, digits, back);
    }
  }

  lemma PartsAreNamed(t: TypedArrayType)
    requires !t.Unknown?
    ensures var (front, digits, back) := NameParts(t);
      NoDigits(front) && NoDigits(back) && digits in {"8", "16", "32", "64"}
  {
  }

  predicate NoDigits(s: string) {
    forall i | 0 <= i < |s| :: !('0' <= s[i] <= '9')
  }

  lemma {:induction false} Letters(s: string, value: nat)
    requires NoDigits(s)
    ensures NumberIn(s, value) == value
  {
    if s != "" {
      Letters(s[1..], value);
    }
  }

  lemma {:induction false} NumberOfSum(a: string, b: string, value: nat)
    ensures NumberIn(a + b, value) == NumberIn(b, NumberIn(a, value))
  {
    if a == "" {
      assert a + b == b;
    } else {
      assert (a + b)[1..] == a[1..] + b;
      NumberOfSum(a[1..], b, if '0' <= a[0] <= '9' then 10 * value + (a[0] as int - '0' as int) else value);
    }
  }

  lemma Named(front: string, digits: string, back: string)
    requires NoDigits(front) && NoDigits(back) && digits in {"8", "16", "32", "64"}
    ensures NumberIn(front + digits + back, 0)
      == if digits == "8" then 8 else if digits == "16" then 16 else if digits == "32" then 32 else 64
  {
    NumberOfSum(front + digits, back, 0);
    NumberOfSum(front, digits, 0);
    Letters(front, 0);
    Letters(back, NumberIn(front + digits, 0));
    if digits == "8" {
      assert digits[1..] == "";
    } else {
      var first := digits[0] as int - '0' as int;
      assert digits[1..][1..] == "";
      assert NumberIn(digits[1..], first) == 10 * first + (digits[1] as int - '0' as int);
    }
  }

  function Min(a: nat, b: nat): nat {
    if a <= b then a else b
  }

  // What is left of the buffer after the offset.
  function Available(buffer: nat, offset: nat): nat {
    if offset <= buffer then buffer - offset else 0
  }

  // `saturating_mul`, where `max` is usize::MAX.
  function SaturatingMul(a: nat, b: nat, max: nat): nat {
    Min(a * b, max)
  }

  function Normalized(buffer: nat, offset: nat, reported: nat, t: TypedArrayType, max: nat): nat {
    var available, size := Available(buffer, offset), ElementSize(t);
    if reported == 0 || size == 1 then Min(reported, available)
    else if SaturatingMul(reported, size, max) <= available then reported
    else if reported <= available && reported % size == 0 then reported / size
    else available / size
  }

  // `normalize_typed_array_lengths`: elements and bytes.
  function NormalizedBoth(buffer: nat, offset: nat, reported: nat, t: TypedArrayType, max: nat): (nat, nat) {
    var available, size := Available(buffer, offset), ElementSize(t);
    if reported == 0 || size == 1 then (Min(reported, available), Min(reported, available))
    else if SaturatingMul(reported, size, max) <= available then (reported, SaturatingMul(reported, size, max))
    else if reported <= available && reported % size == 0 then (reported / size, reported)
    else (available / size, available / size * size)
  }

  lemma DivMul(a: nat, size: nat)
    requires size > 0
    ensures a / size * size <= a < (a / size + 1) * size
    ensures a / size <= a
  {
    assert a == size * (a / size) + a % size;
    if a / size > a {
      MulGrows(a / size, size);
    }
  }

  lemma MulGrows(a: nat, size: nat)
    requires size > 0
    ensures a * size >= a
  {
    assert a * size == a + a * (size - 1);
    assert a * (size - 1) >= 0;
  }

  // The view lies within the buffer, except if and only if the buffer fills all of the
  // address space and the byte length overflows.
  lemma WithinTheBuffer(buffer: nat, offset: nat, reported: nat, t: TypedArrayType, max: nat)
    requires buffer <= max && offset <= max && reported <= max
    ensures var r, available, size := Normalized(buffer, offset, reported, t, max), Available(buffer, offset), ElementSize(t);
      && r <= reported
      && (r * size <= available <==> !(available == max && reported * size > max))
  {
    var available, size := Available(buffer, offset), ElementSize(t);
    DivMul(reported, size);
    DivMul(available, size);
    if available < reported * size {
      QuotientBelow(available, reported, size);
    }
  }

  lemma QuotientBelow(a: nat, b: nat, size: nat)
    requires size > 0 && a < b * size
    ensures a / size < b
  {
    DivMul(a, size);
  }

  // A length that fits is left alone.
  lemma FittingIsKept(buffer: nat, offset: nat, reported: nat, t: TypedArrayType, max: nat)
    requires buffer <= max && offset <= max && reported <= max
    requires reported * ElementSize(t) <= Available(buffer, offset)
    ensures Normalized(buffer, offset, reported, t, max) == reported
  {
    MulGrows(reported, ElementSize(t));
  }

  lemma Idempotent(buffer: nat, offset: nat, reported: nat, t: TypedArrayType, max: nat)
    requires buffer <= max && offset <= max && reported <= max
    ensures var r := Normalized(buffer, offset, reported, t, max);
      Normalized(buffer, offset, r, t, max) == r
  {
    WithinTheBuffer(buffer, offset, reported, t, max);
    var r := Normalized(buffer, offset, reported, t, max);
    if r * ElementSize(t) <= Available(buffer, offset) {
      FittingIsKept(buffer, offset, r, t, max);
    }
  }

  // When nothing shorter was meant, the view is as long as the buffer lets it be.
  lemma LongestThatFits(buffer: nat, offset: nat, reported: nat, t: TypedArrayType, max: nat)
    requires buffer <= max && offset <= max && reported <= max
    ensures var r, available, size := Normalized(buffer, offset, reported, t, max), Available(buffer, offset), ElementSize(t);
      && (r < reported && !(reported <= available && reported % size == 0) ==> (r + 1) * size > available)
      && (r < reported && reported <= available && reported % size == 0 ==> r * size == reported)
  {
    var available, size := Available(buffer, offset), ElementSize(t);
    DivMul(available, size);
    DivMul(reported, size);
  }

  // The twins agree, and the byte length is that of the elements with the same exception.
  lemma TwinsAgree(buffer: nat, offset: nat, reported: nat, t: TypedArrayType, max: nat)
    requires buffer <= max && offset <= max && reported <= max
    ensures var (elements, bytes) := NormalizedBoth(buffer, offset, reported, t, max);
      && elements == Normalized(buffer, offset, reported, t, max)
      && bytes <= Available(buffer, offset)
      && (bytes == elements * ElementSize(t)
          <==> !(Available(buffer, offset) == max && reported * ElementSize(t) > max))
  {
    WithinTheBuffer(buffer, offset, reported, t, max);
    DivMul(Available(buffer, offset), ElementSize(t));
  }
}
