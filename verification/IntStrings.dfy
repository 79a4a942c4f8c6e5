/** Printing integers in any base and reading them back, with the widths and wrap-around of
    the types involved. */
module IntStrings {
  import opened Options
  import opened Words

  // ----- positional numbers -----------------------------------------------------------

  function Pow(base: nat, k: nat): nat {
    if k == 0 then 1 else base * Pow(base, k - 1)
  }

  /** The number written by digits, most significant first. */
  function ValueOf(digits: seq<nat>, base: nat): nat {
    if digits == [] then 0 else digits[0] * Pow(base, |digits| - 1) + ValueOf(digits[1..], base)
  }

  lemma MulMono(a: int, b: int, c: nat)
    requires a <= b
    ensures c * a <= c * b && a * c <= b * c
  {
  }

  lemma QuotientIsSmaller(v: nat, base: nat)
    requires base >= 2 && v > 0
    ensures v / base < v
  {
    MulMono(2, base, v / base);
  }

  /** How many digits `v` needs. */
  function Count(v: nat, base: nat): (n: nat)
    requires base >= 2
    ensures n >= 1
  {
    if v < base then 1
    else
      QuotientIsSmaller(v, base);
      1 + Count(v / base, base)
  }

  /** The digits of `v` in `n` places. */
  function Places(v: nat, base: nat, n: nat): (r: seq<nat>)
    requires base >= 2
    ensures |r| == n
    decreases n
  {
    if n == 0 then []
    else
      PowPositive(base, n - 1);
      [v / Pow(base, n - 1)] + Places(v % Pow(base, n - 1), base, n - 1)
  }

  function DigitsOf(v: nat, base: nat): seq<nat>
    requires base >= 2
  {
    Places(v, base, Count(v, base))
  }

  lemma PowPositive(base: nat, k: nat)
    requires base >= 1
    ensures Pow(base, k) >= 1
  {
    if k > 0 {
      PowPositive(base, k - 1);
      assert base * Pow(base, k - 1) >= 1;
    }
  }

  lemma PowGrows(base: nat, j: nat, k: nat)
    requires base >= 1 && j <= k
    ensures Pow(base, j) <= Pow(base, k)
    decreases k
  {
    if j < k {
      PowGrows(base, j, k - 1);
      assert base * Pow(base, k - 1) >= Pow(base, k - 1);
    }
  }

  /** The digit count is right: base^(n-1) <= v < base^n, except that zero has one digit. */
  lemma {:induction false} CountBounds(v: nat, base: nat)
    requires base >= 2
    ensures v < Pow(base, Count(v, base))
    ensures v > 0 ==> Pow(base, Count(v, base) - 1) <= v
    decreases v
  {
    if v < base {
      assert Pow(base, 0) == 1 && Pow(base, 1) == base;
    } else {
      QuotientIsSmaller(v, base);
      CountBounds(v / base, base);
      CountStep(v, base, v / base, Count(v / base, base));
    }
  }

  lemma CountStep(v: nat, base: nat, q: nat, k: nat)
    requires base >= 2 && v >= base && q == v / base && k >= 1 && Pow(base, k - 1) <= q < Pow(base, k)
    ensures Pow(base, k) <= v < Pow(base, k + 1)
  {
    var lo, hi := Pow(base, k - 1), Pow(base, k);
    MulMono(lo, q, base);
    MulMono(q + 1, hi, base);
    Enclose(v, base, q, v % base, lo, hi);
  }

  lemma Enclose(v: nat, base: nat, q: nat, r: nat, lo: nat, hi: nat)
    requires v == base * q + r && r < base && base * lo <= base * q && base * (q + 1) <= base * hi
    ensures base * lo <= v < base * hi
  {
    assert base * (q + 1) == base * q + base;
  }

  /** Dividing by the place value yields a digit, and the rest fits in one place less. */
  lemma SplitTop(v: nat, base: nat, n: nat)
    requires base >= 2 && n >= 1 && v < Pow(base, n)
    ensures Pow(base, n - 1) >= 1
    ensures v / Pow(base, n - 1) < base && v % Pow(base, n - 1) < Pow(base, n - 1)
    ensures v == (v / Pow(base, n - 1)) * Pow(base, n - 1) + v % Pow(base, n - 1)
  {
    PowPositive(base, n - 1);
    var s := Pow(base, n - 1);
    var q := v / s;
    assert v == q * s + v % s;
    if q >= base { MulMono(base, q, s); }
  }

  /** Digits below the base, worth `v` together. */
  lemma {:induction false} PlacesWorth(v: nat, base: nat, n: nat)
    requires base >= 2 && v < Pow(base, n)
    ensures ValueOf(Places(v, base, n), base) == v
    ensures forall i :: 0 <= i < n ==> Places(v, base, n)[i] < base
    decreases n
  {
    if n > 0 {
      SplitTop(v, base, n);
      PlacesWorth(v % Pow(base, n - 1), base, n - 1);
      assert Places(v, base, n)[1..] == Places(v % Pow(base, n - 1), base, n - 1);
    }
  }

  /** The digits of `v` are below the base, are worth `v`, and have no leading zero. */
  lemma DigitsWorth(v: nat, base: nat)
    requires base >= 2
    ensures ValueOf(DigitsOf(v, base), base) == v && DigitsOf(v, base) != []
    ensures forall i :: 0 <= i < |DigitsOf(v, base)| ==> DigitsOf(v, base)[i] < base
    ensures v > 0 ==> DigitsOf(v, base)[0] > 0
  {
    var n := Count(v, base);
    CountBounds(v, base);
    PlacesWorth(v, base, n);
    SplitTop(v, base, n);
    var s := Pow(base, n - 1);
    assert v / s == 0 ==> v == v % s < s;
  }

  // ----- the types --------------------------------------------------------------------

  datatype IntType = IntType(bits: nat, signed: bool)

  predicate ValidType(t: IntType) {
    t.bits == 8 || t.bits == 16 || t.bits == 32 || t.bits == 64
  }

  /** 2^bits. */
  function Modulus(t: IntType): (m: nat)
    requires ValidType(t)
    ensures m > 1 && m % 2 == 0 && m <= WORD && WORD % m == 0
  {
    if t.bits == 8 then 0x100 else if t.bits == 16 then 0x1_0000
    else if t.bits == 32 then 0x1_0000_0000 else WORD
  }

  function MaxOf(t: IntType): nat
    requires ValidType(t)
  {
    if t.signed then Modulus(t) / 2 - 1 else Modulus(t) - 1
  }

  function MinOf(t: IntType): int
    requires ValidType(t)
  {
    if t.signed then -(Modulus(t) / 2) else 0
  }

  /** `static_cast<T>`: modular. */
  function Cast(t: IntType, n: int): (r: int)
    requires ValidType(t)
    ensures MinOf(t) <= r <= MaxOf(t)
  {
    var m := n % Modulus(t);
    if t.signed && m >= Modulus(t) / 2 then m - Modulus(t) else m
  }

  lemma CastFits(t: IntType, n: int)
    requires ValidType(t) && MinOf(t) <= n <= MaxOf(t)
    ensures Cast(t, n) == n
  {
    if n < 0 { DivModUnique(n, Modulus(t), -1, n + Modulus(t)); } else { DivModUnique(n, Modulus(t), 0, n); }
  }

  /** One past the greatest signed value is the least. */
  lemma CastOverflow(t: IntType)
    requires ValidType(t) && t.signed
    ensures Cast(t, Modulus(t) / 2) == MinOf(t)
  {
    DivModUnique(Modulus(t) / 2, Modulus(t), 0, Modulus(t) / 2);
  }

  // ----- printing ---------------------------------------------------------------------

  /** What the digit set and the base must satisfy. */
  predicate ValidBase(base: nat, glyphs: string) {
    2 <= base <= |glyphs| && base < WORD
  }

  /** The text of an unsigned value. */
  function UintText(v: nat, base: nat, glyphs: string): (s: string)
    requires ValidBase(base, glyphs)
  {
    DigitsWorth(v, base);
    Glyphs(DigitsOf(v, base), glyphs)
  }

  function Glyphs(digits: seq<nat>, glyphs: string): (s: string)
    requires forall i :: 0 <= i < |digits| ==> digits[i] < |glyphs|
    ensures |s| == |digits| && forall i :: 0 <= i < |digits| ==> s[i] == glyphs[digits[i]]
  {
    seq(|digits|, i requires 0 <= i < |digits| => glyphs[digits[i]])
  }

  /** The text of a signed value. */
  function IntText(v: int, base: nat, glyphs: string): string
    requires ValidBase(base, glyphs)
  {
    if v >= 0 then UintText(v, base, glyphs) else ['-'] + UintText(-v, base, glyphs)
  }

  /** `digits()`. */
  method Digits(v: nat, base: nat) returns (count: nat)
    requires base >= 2
    ensures count == Count(v, base)
    ensures v < Pow(base, count) && (v > 0 ==> Pow(base, count - 1) <= v)
  {
    count := 1;
    var val: nat := v;
    while val >= base
      invariant count >= 1 && count - 1 + Count(val, base) == Count(v, base)
      decreases Count(val, base)
    {
      val := val / base;
      count := count + 1;
    }
    CountBounds(v, base);
  }

  /** `max_base_scale()`: the place value of the leading digit; it never wraps. */
  method MaxBaseScale(t: IntType, v: nat, base: nat) returns (scale: nat)
    requires ValidType(t) && !t.signed && v <= MaxOf(t) && 2 <= base < WORD
    ensures scale == Pow(base, Count(v, base) - 1) && scale >= 1 && (v > 0 ==> scale <= v)
  {
    var count := Digits(v, base);
    scale := 1;
    var i := 1;
    PowGrows(base, 0, count - 1);
    while i < count
      invariant 1 <= i <= count && scale == Pow(base, i - 1)
    {
      PowGrows(base, i, count - 1);
      assert scale * base == Pow(base, i) <= v;
      DivModUnique(scale * base, WORD, 0, scale * base);
      CastFits(t, scale * base);
      scale := Cast(t, (scale * base) % WORD);
      i := i + 1;
    }
  }

  /** One round of printing: the leading digit, the rest, and the next scale. */
  lemma PlacesStep(r: nat, base: nat, n: nat, scale: nat)
    requires base >= 2 && n >= 1 && r < Pow(base, n) && scale == Pow(base, n - 1)
    ensures scale >= 1 && r / scale < base && r % scale < Pow(base, n - 1)
    ensures Places(r, base, n)[0] == r / scale
    ensures Places(r, base, n)[1..] == Places(r % scale, base, n - 1)
    ensures n > 1 ==> scale / base == Pow(base, n - 2)
  {
    SplitTop(r, base, n);
    if n > 1 { PowShrinks(base, n - 1); }
  }

  /** `impl()`: the glyphs, most significant first, and a terminator. The scale is never zero
      when it divides. */
  method Impl(t: IntType, v: nat, base: nat, glyphs: string) returns (text: string)
    requires ValidType(t) && !t.signed && v <= MaxOf(t) && ValidBase(base, glyphs)
    ensures text == UintText(v, base, glyphs) + ['\0']
  {
    var count := Digits(v, base);
    var arr := new char[count + 1];
    var remaining: nat := v;
    var scale := MaxBaseScale(t, v, base);
    DigitsWorth(v, base);
    var i := 0;
    ghost var digits := DigitsOf(v, base);
    while i < count
      invariant i <= count && remaining < Pow(base, count - i)
      invariant i < count ==> scale == Pow(base, count - i - 1)
      invariant digits[i..] == Places(remaining, base, count - i)
      invariant forall k :: 0 <= k < i ==> arr[k] == glyphs[digits[k]]
    {
      PlacesStep(remaining, base, count - i, scale);
      assert digits[i..][0] == digits[i] && digits[i..][1..] == digits[i + 1..];
      arr[i] := glyphs[remaining / scale];
      remaining := remaining % scale;
      scale := scale / base;
      i := i + 1;
    }
    arr[count] := '\0';
    text := arr[..];
    assert text[..count] == UintText(v, base, glyphs);
  }

  lemma PowShrinks(base: nat, k: nat)
    requires base >= 2 && k >= 1
    ensures Pow(base, k) / base == Pow(base, k - 1)
  {
    assert Pow(base, k) == Pow(base, k - 1) * base + 0;
    DivModUnique(Pow(base, k), base, Pow(base, k - 1), 0);
  }

  /** The magnitude of a signed value: negation of the unsigned counterpart. */
  method Magnitude(t: IntType, v: int) returns (m: nat)
    requires ValidType(t) && t.signed && MinOf(t) <= v <= MaxOf(t)
    ensures m == if v < 0 then -v else v
    ensures m <= MaxOf(t.(signed := false))
  {
    var u := t.(signed := false);
    if v < 0 {
      DivModUnique(v, Modulus(t), -1, v + Modulus(t));
      DivModUnique(-(v + Modulus(t)), Modulus(t), -1, -v);
      m := Cast(u, -Cast(u, v));
    } else {
      CastFits(u, v);
      m := Cast(u, v);
    }
  }

  /** `IntToStr`: a minus sign before the magnitude of a negative value. */
  method IntToStr(t: IntType, v: int, base: nat, glyphs: string) returns (text: string)
    requires ValidType(t) && t.signed && MinOf(t) <= v <= MaxOf(t) && ValidBase(base, glyphs)
    ensures text == IntText(v, base, glyphs) + ['\0']
  {
    var m := Magnitude(t, v);
    var arr := Impl(t.(signed := false), m, base, glyphs);
    text := if v >= 0 then arr else ['-'] + arr;
  }
}
