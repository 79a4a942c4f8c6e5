/** Reading an integer back from its text: the right-to-left loop with its wrapping multiplier,
    and exactly when it undoes printing. */
module IntParsing {
  import opened IntStrings
  import opened Options
  import opened Words

  datatype Error = UnknownGlyph | SignedInput | Overflow

  /** An error is an exception or a failed constant evaluation. */
  datatype Parsed<T> = Value(value: T) | Reject(error: Error)

  /** The two variables of the loop. */
  datatype Acc = Acc(sum: int, multiplier: nat)

  /** `string_view::find`: the first position of a glyph. */
  function Find(glyphs: string, c: char): (r: Option<nat>)
    ensures r.Some? ==> r.value < |glyphs| && glyphs[r.value] == c && forall k :: 0 <= k < r.value ==> glyphs[k] != c
    ensures r.None? ==> c !in glyphs
  {
    if glyphs == [] then None
    else if glyphs[0] == c then Some(0)
    else match Find(glyphs[1..], c)
         case None => None
         case Some(k) => Some(k + 1)
  }

  /** `ret_val += x`: types narrower than `int` are added as `int` and converted back, signed
      types as wide as `int` must not overflow, unsigned types wrap. */
  function Add(t: IntType, a: int, x: int): Option<int>
    requires ValidType(t)
  {
    if t.signed && t.bits >= 32 && !(MinOf(t) <= a + x <= MaxOf(t)) then None else Some(Cast(t, a + x))
  }

  /** One character: its digit value times the multiplier, computed in `size_t` and cast. */
  function Digit(t: IntType, base: nat, glyphs: string, c: char, a: Acc): Parsed<Acc>
    requires ValidType(t)
  {
    match Find(glyphs, c)
    case None => Reject(UnknownGlyph)
    case Some(d) =>
      match Add(t, a.sum, Cast(t, (d * a.multiplier) % WORD))
      case None => Reject(Overflow)
      case Some(sum) => Value(Acc(sum, (a.multiplier * base) % WORD))
  }

  /** The loop over the characters of `s`, from the right. */
  function Accumulate(t: IntType, base: nat, glyphs: string, s: string): Parsed<Acc>
    requires ValidType(t)
  {
    if s == [] then Value(Acc(0, 1))
    else match Accumulate(t, base, glyphs, s[1..])
         case Reject(e) => Reject(e)
         case Value(a) => Digit(t, base, glyphs, s[0], a)
  }

  /** `return ret_val * -1`. */
  function Negated(t: IntType, a: int): Parsed<int>
    requires ValidType(t)
  {
    if t.bits >= 32 && -a > MaxOf(t) then Reject(Overflow) else Value(Cast(t, -a))
  }

  /** What `str_to_int` makes of a text. */
  function Parse(t: IntType, base: nat, glyphs: string, text: string): Parsed<int>
    requires ValidType(t) && text != []
  {
    match Accumulate(t, base, glyphs, text[1..])
    case Reject(e) => Reject(e)
    case Value(a) =>
      if text[0] == '-' then
        if t.signed then Negated(t, a.sum) else Reject(SignedInput)
      else
        match Digit(t, base, glyphs, text[0], a)
        case Reject(e) => Reject(e)
        case Value(b) => Value(b.sum)
  }

  /** `str_to_int`. */
  method StrToInt(t: IntType, base: nat, glyphs: string, text: string) returns (r: Parsed<int>)
    requires ValidType(t) && ValidBase(base, glyphs) && text != []
    ensures r == Parse(t, base, glyphs, text)
  {
    var sum, multiplier: nat := 0, 1;
    var it := |text|;
    while it != 1
      invariant 1 <= it <= |text|
      invariant Accumulate(t, base, glyphs, text[it..]) == Value(Acc(sum, multiplier))
      decreases it
    {
      it := it - 1;
      assert text[it..][1..] == text[it + 1..];
      var pos := Find(glyphs, text[it]);
      if pos.None? {
        RejectsAll(t, base, glyphs, text[1..], it - 1);
        assert text[1..][it - 1..] == text[it..];
        return Reject(UnknownGlyph);
      }
      var added := Add(t, sum, Cast(t, (pos.value * multiplier) % WORD));
      if added.None? {
        RejectsAll(t, base, glyphs, text[1..], it - 1);
        assert text[1..][it - 1..] == text[it..];
        return Reject(Overflow);
      }
      sum := added.value;
      multiplier := (multiplier * base) % WORD;
    }
    if text[0] == '-' {
      r := if t.signed then Negated(t, sum) else Reject(SignedInput);
    } else {
      var pos := Find(glyphs, text[0]);
      if pos.None? { return Reject(UnknownGlyph); }
      var added := Add(t, sum, Cast(t, (pos.value * multiplier) % WORD));
      r := if added.Some? then Value(added.value) else Reject(Overflow);
    }
  }

  /** An error in a suffix is the error of the whole. */
  lemma {:induction false} RejectsAll(t: IntType, base: nat, glyphs: string, s: string, k: nat)
    requires ValidType(t) && k <= |s|
    ensures Accumulate(t, base, glyphs, s[k..]).Reject? ==>
              Accumulate(t, base, glyphs, s) == Accumulate(t, base, glyphs, s[k..])
    decreases k
  {
    if k == 0 {
      assert s[0..] == s;
    } else {
      RejectsAll(t, base, glyphs, s[1..], k - 1);
      assert s[1..][k - 1..] == s[k..];
    }
  }

  // ----- what the loop computes ---------------------------------------------------------

  /** The positions at which the characters of `s` are found. */
  ghost predicate Found(glyphs: string, s: string, ps: seq<nat>) {
    |ps| == |s| && forall i :: 0 <= i < |s| ==> Find(glyphs, s[i]) == Some(ps[i])
  }

  lemma FoundTail(glyphs: string, s: string, ps: seq<nat>)
    requires Found(glyphs, s, ps) && s != []
    ensures Found(glyphs, s[1..], ps[1..]) && Find(glyphs, s[0]) == Some(ps[0])
  {
  }

  /** As long as the number fits, the loop computes its value, however many zeros stand
      before it. */
  lemma {:induction false} AccumulateValue(t: IntType, base: nat, glyphs: string, s: string, ps: seq<nat>)
    requires ValidType(t) && base >= 1 && Found(glyphs, s, ps) && ValueOf(ps, base) <= MaxOf(t)
    ensures Accumulate(t, base, glyphs, s) == Value(Acc(ValueOf(ps, base), Pow(base, |s|) % WORD))
    decreases |s|
  {
    if s == [] {
      DivModUnique(1, WORD, 0, 1);
    } else {
      FoundTail(glyphs, s, ps);
      RestWorth(ps, base);
      AccumulateValue(t, base, glyphs, s[1..], ps[1..]);
      DigitAdds(t, base, glyphs, s[0], ValueOf(ps[1..], base), Pow(base, |s| - 1), ps[0]);
    }
  }

  lemma NextMultiplier(p: nat, base: nat)
    ensures ((p % WORD) * base) % WORD == (base * p) % WORD
  {
    var q := p / WORD;
    assert p == q * WORD + p % WORD;
    var x := (p % WORD) * base;
    assert base * p == (base * q) * WORD + x by { assert base * (q * WORD) == (base * q) * WORD; }
    assert x == (x / WORD) * WORD + x % WORD;
    DivModUnique(base * p, WORD, base * q + x / WORD, x % WORD);
  }

  /** A zero may have a multiplier that has wrapped. */
  lemma ZeroAdds(t: IntType, base: nat, glyphs: string, c: char, low: nat, p: nat)
    requires ValidType(t) && Find(glyphs, c) == Some(0) && low <= MaxOf(t)
    ensures Digit(t, base, glyphs, c, Acc(low, p % WORD)) == Value(Acc(low, ((p % WORD) * base) % WORD))
  {
    assert 0 * (p % WORD) == 0;
    CastFits(t, 0);
    CastFits(t, low);
  }

  lemma DigitAdds(t: IntType, base: nat, glyphs: string, c: char, low: nat, p: nat, d: nat)
    requires ValidType(t) && Find(glyphs, c) == Some(d) && d * p + low <= MaxOf(t)
    ensures Digit(t, base, glyphs, c, Acc(low, p % WORD)) == Value(Acc(d * p + low, (base * p) % WORD))
  {
    if d == 0 {
      ZeroAdds(t, base, glyphs, c, low, p);
      NextMultiplier(p, base);
    } else {
      MulMono(1, d, p);
      DivModUnique(p, WORD, 0, p);
      DigitFits(t, base, glyphs, c, low, p, d);
    }
  }

  /** One digit that fits is added exactly. */
  lemma DigitFits(t: IntType, base: nat, glyphs: string, c: char, low: nat, p: nat, d: nat)
    requires ValidType(t) && Find(glyphs, c) == Some(d) && d * p + low <= MaxOf(t)
    ensures Digit(t, base, glyphs, c, Acc(low, p)) == Value(Acc(d * p + low, (base * p) % WORD))
  {
    DivModUnique(d * p, WORD, 0, d * p);
    CastFits(t, d * p);
    CastFits(t, d * p + low);
    assert p * base == base * p;
  }

  // ----- the text of a number -----------------------------------------------------------

  /** Each printed glyph stands for its digit alone: it does not occur earlier in the set. */
  ghost predicate Faithful(glyphs: string, digits: seq<nat>) {
    forall i :: 0 <= i < |digits| ==> digits[i] < |glyphs| && Find(glyphs, glyphs[digits[i]]) == Some(digits[i])
  }

  /** In a set of distinct glyphs every text is faithful. */
  lemma DistinctIsFaithful(glyphs: string, base: nat, v: nat)
    requires ValidBase(base, glyphs) && forall i, j :: 0 <= i < j < base ==> glyphs[i] != glyphs[j]
    ensures Faithful(glyphs, DigitsOf(v, base))
  {
    DigitsWorth(v, base);
    var digits := DigitsOf(v, base);
    forall i | 0 <= i < |digits| ensures Find(glyphs, glyphs[digits[i]]) == Some(digits[i]) {
      FindFirst(glyphs, digits[i]);
    }
  }

  lemma FindFirst(glyphs: string, d: nat)
    requires d < |glyphs|
    ensures Find(glyphs, glyphs[d]).Some? && Find(glyphs, glyphs[d]).value <= d
  {
    assert glyphs[d] in glyphs;
  }

  /** Where the glyphs of `digits` are found. */
  ghost function Positions(glyphs: string, digits: seq<nat>): (ps: seq<nat>)
    requires forall i :: 0 <= i < |digits| ==> digits[i] < |glyphs|
    ensures |ps| == |digits|
    ensures forall i :: 0 <= i < |digits| ==> Find(glyphs, glyphs[digits[i]]) == Some(ps[i])
  {
    if digits == [] then []
    else
      FindFirst(glyphs, digits[0]);
      [Find(glyphs, glyphs[digits[0]]).value] + Positions(glyphs, digits[1..])
  }

  lemma PositionsFound(glyphs: string, digits: seq<nat>)
    requires forall i :: 0 <= i < |digits| ==> digits[i] < |glyphs|
    ensures Found(glyphs, Glyphs(digits, glyphs), Positions(glyphs, digits))
    ensures forall i :: 0 <= i < |digits| ==> Positions(glyphs, digits)[i] <= digits[i]
    ensures Positions(glyphs, digits) == digits <==> Faithful(glyphs, digits)
  {
    forall i | 0 <= i < |digits| ensures Positions(glyphs, digits)[i] <= digits[i] {
      FindFirst(glyphs, digits[i]);
    }
  }

  /** Digits no greater are worth no more, and less unless they are equal. */
  lemma {:induction false} ValueMonotone(ps: seq<nat>, ds: seq<nat>, base: nat)
    requires base >= 1 && |ps| == |ds| && forall i :: 0 <= i < |ps| ==> ps[i] <= ds[i]
    ensures ValueOf(ps, base) <= ValueOf(ds, base)
    ensures ValueOf(ps, base) == ValueOf(ds, base) ==> ps == ds
    decreases |ps|
  {
    if ps != [] {
      ValueMonotone(ps[1..], ds[1..], base);
      var p := Pow(base, |ps| - 1);
      PowPositive(base, |ps| - 1);
      MulMono(ps[0], ds[0], p);
      if ps[0] < ds[0] {
        MulMono(ps[0] + 1, ds[0], p);
        assert (ps[0] + 1) * p == ps[0] * p + p;
      } else {
        assert ps == [ps[0]] + ps[1..] && ds == [ds[0]] + ds[1..];
      }
    }
  }

  /** `ds` are the digits of `v` without a leading zero. */
  ghost predicate Numeral(ds: seq<nat>, v: nat, base: nat) {
    && ds != [] && ValueOf(ds, base) == v && (v == 0 ==> ds == [0])
    && (forall i :: 0 <= i < |ds| ==> ds[i] < base)
    && 1 <= Pow(base, |ds| - 1) < WORD
    && (v > 0 ==> ds[0] > 0)
  }

  lemma NumeralOf(v: nat, base: nat)
    requires 2 <= base && v < WORD
    ensures Numeral(DigitsOf(v, base), v, base)
  {
    DigitsWorth(v, base);
    CountBounds(v, base);
    PowPositive(base, Count(v, base) - 1);
    if v == 0 { ZeroDigits(base); }
  }

  lemma ZeroDigits(base: nat)
    requires 2 <= base
    ensures DigitsOf(0, base) == [0] && Pow(base, 0) == 1
  {
    assert Places(0, base, 1) == [0 / Pow(base, 0)] + Places(0 % Pow(base, 0), base, 0);
  }

  // ----- round trips ----------------------------------------------------------------------

  /** The positions of the glyphs are worth no more than the digits, and as much only when the
      text is faithful. */
  lemma PositionsWorth(glyphs: string, ds: seq<nat>, base: nat)
    requires base >= 1 && forall i :: 0 <= i < |ds| ==> ds[i] < |glyphs|
    ensures ValueOf(Positions(glyphs, ds), base) <= ValueOf(ds, base)
    ensures ValueOf(Positions(glyphs, ds), base) == ValueOf(ds, base) <==> Faithful(glyphs, ds)
  {
    PositionsFound(glyphs, ds);
    ValueMonotone(Positions(glyphs, ds), ds, base);
  }

  /** Dropping the leading digit leaves a smaller number. */
  lemma RestWorth(ps: seq<nat>, base: nat)
    requires ps != [] && base >= 1
    ensures ValueOf(ps[1..], base) <= ValueOf(ps, base)
    ensures |ps| > 1 ==> Pow(base, |ps| - 2) <= Pow(base, |ps| - 1)
  {
    PowPositive(base, |ps| - 1);
    MulMono(0, ps[0], Pow(base, |ps| - 1));
    if |ps| > 1 { PowGrows(base, |ps| - 2, |ps| - 1); }
  }

  /** A text without a sign is read as the loop reads it; with one, what follows is. */
  lemma ParseByLoop(t: IntType, base: nat, glyphs: string, s: string, whole: int, rest: int)
    requires ValidType(t) && s != []
    requires Accumulate(t, base, glyphs, s).Value? && Accumulate(t, base, glyphs, s).value.sum == whole
    requires Accumulate(t, base, glyphs, s[1..]).Value? && Accumulate(t, base, glyphs, s[1..]).value.sum == rest
    ensures Parse(t, base, glyphs, s) ==
              if s[0] != '-' then Value(whole) else if t.signed then Negated(t, rest) else Reject(SignedInput)
  {
  }

  /** The text of digits is read as the value of the positions of its glyphs; after a sign,
      as the value of the rest. */
  lemma ParseText(t: IntType, v: nat, base: nat, glyphs: string, ds: seq<nat>)
    requires ValidType(t) && ValidBase(base, glyphs) && v <= MaxOf(t) && Numeral(ds, v, base)
    ensures var s, ps := Glyphs(ds, glyphs), Positions(glyphs, ds);
            Parse(t, base, glyphs, s) ==
              if s[0] != '-' then Value(ValueOf(ps, base))
              else if t.signed then Negated(t, ValueOf(ps[1..], base))
              else Reject(SignedInput)
  {
    var s, ps := Glyphs(ds, glyphs), Positions(glyphs, ds);
    PositionsWorth(glyphs, ds, base);
    PositionsFound(glyphs, ds);
    RestWorth(ps, base);
    AccumulateValue(t, base, glyphs, s, ps);
    FoundTail(glyphs, s, ps);
    AccumulateValue(t, base, glyphs, s[1..], ps[1..]);
    ParseByLoop(t, base, glyphs, s, ValueOf(ps, base), ValueOf(ps[1..], base));
  }

  /** Negating a number that fits is exact. */
  lemma NegatedFits(t: IntType, a: nat)
    requires ValidType(t) && t.signed && a <= MaxOf(t)
    ensures Negated(t, a) == Parsed<int>.Value(0 - a)
  {
    var n: int := a;
    CastFits(t, -n);
  }

  lemma UnsignedNumeral(t: IntType, v: nat, base: nat, glyphs: string, ds: seq<nat>)
    requires ValidType(t) && !t.signed && v <= MaxOf(t) && ValidBase(base, glyphs) && Numeral(ds, v, base)
    ensures Parse(t, base, glyphs, Glyphs(ds, glyphs)) == Value(v) <==>
            Glyphs(ds, glyphs)[0] != '-' && Faithful(glyphs, ds)
  {
    ParseText(t, v, base, glyphs, ds);
    PositionsWorth(glyphs, ds, base);
  }

  lemma NonNegativeNumeral(t: IntType, v: nat, base: nat, glyphs: string, ds: seq<nat>)
    requires ValidType(t) && t.signed && v <= MaxOf(t) && ValidBase(base, glyphs) && Numeral(ds, v, base)
    ensures Parse(t, base, glyphs, Glyphs(ds, glyphs)) == Value(v) <==>
            v == 0 || (Glyphs(ds, glyphs)[0] != '-' && Faithful(glyphs, ds))
  {
    var ps := Positions(glyphs, ds);
    ParseText(t, v, base, glyphs, ds);
    PositionsWorth(glyphs, ds, base);
    RestWorth(ps, base);
    NegatedFits(t, ValueOf(ps[1..], base));
    if v == 0 { assert ps[1..] == []; }
  }

  lemma NegativeNumeral(t: IntType, m: nat, base: nat, glyphs: string, ds: seq<nat>)
    requires ValidType(t) && t.signed && 0 < m <= -MinOf(t) && ValidBase(base, glyphs) && Numeral(ds, m, base)
    ensures Parse(t, base, glyphs, ['-'] + Glyphs(ds, glyphs)) == Parsed<int>.Value(0 - m) <==>
            Faithful(glyphs, ds) && !(m == 0 - MinOf(t) && t.bits >= 32)
  {
    var s, ps := Glyphs(ds, glyphs), Positions(glyphs, ds);
    assert (['-'] + s)[1..] == s;
    PositionsWorth(glyphs, ds, base);
    PositionsFound(glyphs, ds);
    var w := ValueOf(ps, base);
    if w <= MaxOf(t) {
      AccumulateValue(t, base, glyphs, s, ps);
      NegatedFits(t, w);
    } else {
      AccumulateLeast(t, base, glyphs, s, ps);
      CastOverflow(t);
    }
  }

  /** The magnitude of the least value, one past the greatest: wide types overflow on the last
      addition unless the leading digit alone is the whole of it, narrow types wrap to the
      least value. */
  lemma AccumulateLeast(t: IntType, base: nat, glyphs: string, s: string, ps: seq<nat>)
    requires ValidType(t) && t.signed && ValidBase(base, glyphs) && s != [] && Found(glyphs, s, ps)
    requires ValueOf(ps, base) == MaxOf(t) + 1 && ps[0] > 0 && 1 <= Pow(base, |s| - 1) < WORD
    ensures var r := Accumulate(t, base, glyphs, s);
            && (r.Value? ==> r.value.sum == MinOf(t))
            && (r.Reject? ==> t.bits >= 32)
  {
    FoundTail(glyphs, s, ps);
    var p, low := Pow(base, |s| - 1), ValueOf(ps[1..], base);
    assert ps[0] * p + low == MaxOf(t) + 1;
    assert ps[0] * p >= 1 by { MulMono(1, ps[0], p); }
    assert p % WORD == p by { DivModUnique(p, WORD, 0, p); }
    AccumulateValue(t, base, glyphs, s[1..], ps[1..]);
    LeastDigit(t, base, glyphs, s[0], low, p, ps[0]);
  }

  /** The digit that takes the sum one past the greatest value. */
  lemma LeastDigit(t: IntType, base: nat, glyphs: string, c: char, low: nat, p: nat, d: nat)
    requires ValidType(t) && t.signed && Find(glyphs, c) == Some(d)
    requires d * p + low == MaxOf(t) + 1 && d * p >= 1
    ensures var r := Digit(t, base, glyphs, c, Acc(low, p));
            && (r.Value? ==> r.value.sum == MinOf(t))
            && (r.Reject? ==> t.bits >= 32)
  {
    DivModUnique(d * p, WORD, 0, d * p);
    CastOverflow(t);
    if low > 0 { CastFits(t, d * p); } else { CastFits(t, MinOf(t)); }
  }

  /** Parsing undoes printing of an unsigned value if and only if the text does not begin with
      a glyph that reads as a minus sign and no glyph in it occurs earlier in the digit set. */
  lemma UnsignedRoundTrip(t: IntType, v: nat, base: nat, glyphs: string)
    requires ValidType(t) && !t.signed && v <= MaxOf(t) && ValidBase(base, glyphs)
    ensures UintText(v, base, glyphs) != []
    ensures Parse(t, base, glyphs, UintText(v, base, glyphs)) == Value(v) <==>
            UintText(v, base, glyphs)[0] != '-' && Faithful(glyphs, DigitsOf(v, base))
  {
    NumeralOf(v, base);
    UnsignedNumeral(t, v, base, glyphs, DigitsOf(v, base));
  }

  /** The same for a signed value that is not negative, where zero always survives. */
  lemma NonNegativeRoundTrip(t: IntType, v: nat, base: nat, glyphs: string)
    requires ValidType(t) && t.signed && v <= MaxOf(t) && ValidBase(base, glyphs)
    ensures UintText(v, base, glyphs) != []
    ensures Parse(t, base, glyphs, IntText(v, base, glyphs)) == Value(v) <==>
            v == 0 || (UintText(v, base, glyphs)[0] != '-' && Faithful(glyphs, DigitsOf(v, base)))
  {
    NumeralOf(v, base);
    NonNegativeNumeral(t, v, base, glyphs, DigitsOf(v, base));
  }

  /** A negative value survives if and only if no glyph of its text occurs earlier in the digit
      set and it is not the least value of a type at least as wide as `int`. */
  lemma NegativeRoundTrip(t: IntType, v: int, base: nat, glyphs: string)
    requires ValidType(t) && t.signed && MinOf(t) <= v < 0 && ValidBase(base, glyphs)
    ensures Parse(t, base, glyphs, IntText(v, base, glyphs)) == Value(v) <==>
            Faithful(glyphs, DigitsOf(-v, base)) && !(v == MinOf(t) && t.bits >= 32)
  {
    NumeralOf(-v, base);
    NegativeNumeral(t, -v, base, glyphs, DigitsOf(-v, base));
  }

  /** The law as promised: with distinct glyphs and no minus sign among them, reading undoes
      printing for every value of every type but the least of the wide signed types. */
  lemma RoundTrip(t: IntType, v: int, base: nat, glyphs: string)
    requires ValidType(t) && MinOf(t) <= v <= MaxOf(t) && ValidBase(base, glyphs)
    requires forall i, j :: 0 <= i < j < base ==> glyphs[i] != glyphs[j]
    requires forall i :: 0 <= i < base ==> glyphs[i] != '-'
    ensures IntText(v, base, glyphs) != []
    ensures Parse(t, base, glyphs, IntText(v, base, glyphs)) == Value(v) <==>
            !(t.signed && v == MinOf(t) && t.bits >= 32)
  {
    var m := if v < 0 then -v else v;
    NumeralOf(m, base);
    DistinctIsFaithful(glyphs, base, m);
    if v < 0 {
      NegativeRoundTrip(t, v, base, glyphs);
    } else if t.signed {
      NonNegativeRoundTrip(t, v, base, glyphs);
    } else {
      UnsignedRoundTrip(t, v, base, glyphs);
    }
  }

  // ----- any text -------------------------------------------------------------------------

  /** Signed overflow is an error in these types; all others wrap. */
  predicate Checked(t: IntType) {
    t.signed && t.bits >= 32
  }

  ghost predicate Known(glyphs: string, s: string) {
    forall i :: 0 <= i < |s| ==> s[i] in glyphs
  }

  ghost function PositionsIn(glyphs: string, s: string): (ps: seq<nat>)
    requires Known(glyphs, s)
    ensures Found(glyphs, s, ps)
  {
    if s == [] then []
    else
      var first := s[0];
      assert first in glyphs;
      assert forall i :: 0 <= i < |s[1..]| ==> s[1..][i] == s[i + 1];
      [Find(glyphs, first).value] + PositionsIn(glyphs, s[1..])
  }

  /** `static_cast` forgets multiples of the modulus and nothing else. */
  lemma CastForgets(t: IntType, n: int, k: int)
    requires ValidType(t)
    ensures Cast(t, n + k * Modulus(t)) == Cast(t, n)
  {
    var m := Modulus(t);
    assert n + k * m == (n / m + k) * m + n % m;
    DivModUnique(n + k * m, m, n / m + k, n % m);
  }

  lemma CastIsNear(t: IntType, n: int) returns (k: int)
    requires ValidType(t)
    ensures n == Cast(t, n) + k * Modulus(t)
  {
    var m := Modulus(t);
    k := if Cast(t, n) < 0 then n / m + 1 else n / m;
    assert n == (n / m) * m + n % m;
    assert (n / m + 1) * m == (n / m) * m + m;
  }

  lemma WordIsNear(t: IntType, n: nat) returns (k: int)
    requires ValidType(t)
    ensures n % WORD == n + k * Modulus(t)
  {
    var m := Modulus(t);
    var q, w := n / WORD, WORD / m;
    assert n == q * WORD + n % WORD && WORD == w * m;
    k := 0 - q * w;
    assert q * WORD == (q * w) * m;
  }

  /** The product is computed with a multiplier that has wrapped. */
  lemma ProductIsNear(t: IntType, d: nat, p: nat) returns (k: int)
    requires ValidType(t)
    ensures (d * (p % WORD)) % WORD == d * p + k * Modulus(t)
  {
    var i := WordIsNear(t, p);
    var j := WordIsNear(t, d * (p % WORD));
    k := d * i + j;
    var m := Modulus(t);
    assert d * (p % WORD) == d * p + d * (i * m);
    assert d * (i * m) == (d * i) * m;
    assert (d * i + j) * m == (d * i) * m + j * m;
  }

  /** Adding up casts and casting the sum are the same. */
  lemma CastSum(t: IntType, a: int, low: int, x: int, high: int, i: int, j: int)
    requires ValidType(t) && low == a + i * Modulus(t) && x == high + j * Modulus(t)
    ensures Cast(t, a + Cast(t, x)) == Cast(t, high + low)
  {
    var m := Modulus(t);
    var k := CastIsNear(t, x);
    assert a + Cast(t, x) == high + low + (j - i - k) * m by {
      assert (j - i - k) * m == j * m - i * m - k * m;
    }
    CastForgets(t, high + low, j - i - k);
  }

  lemma AddIsCast(t: IntType, a: int, x: int)
    requires ValidType(t)
    ensures Add(t, a, x).Some? ==> Add(t, a, x) == Some(Cast(t, a + x))
    ensures Add(t, a, x).None? ==> Checked(t)
  {
  }

  lemma DigitMeans(t: IntType, base: nat, glyphs: string, c: char, low: nat, p: nat, d: nat)
    requires ValidType(t) && Find(glyphs, c) == Some(d)
    ensures var r := Digit(t, base, glyphs, c, Acc(Cast(t, low), p % WORD));
            && (r.Value? ==> r.value == Acc(Cast(t, d * p + low), ((p % WORD) * base) % WORD))
            && (r.Reject? ==> r.error == Overflow && Checked(t))
  {
    var i := CastIsNear(t, low);
    var j := ProductIsNear(t, d, p);
    CastSum(t, Cast(t, low), low, (d * (p % WORD)) % WORD, d * p, i, j);
    AddIsCast(t, Cast(t, low), Cast(t, (d * (p % WORD)) % WORD));
  }

  /** Whatever its length and its value, the loop computes the value of the text modulo the range
      of the type, or stops because a checked sum has left it. */
  lemma {:induction false} AccumulateMeans(t: IntType, base: nat, glyphs: string, s: string, ps: seq<nat>)
    requires ValidType(t) && Found(glyphs, s, ps)
    ensures var r := Accumulate(t, base, glyphs, s);
            && (r.Value? ==> r.value == Acc(Cast(t, ValueOf(ps, base)), Pow(base, |s|) % WORD))
            && (r.Reject? ==> r.error == Overflow && Checked(t))
    decreases |s|
  {
    if s == [] {
      DivModUnique(1, WORD, 0, 1);
      CastFits(t, 0);
    } else {
      FoundTail(glyphs, s, ps);
      AccumulateMeans(t, base, glyphs, s[1..], ps[1..]);
      var p := Pow(base, |s| - 1);
      DigitMeans(t, base, glyphs, s[0], ValueOf(ps[1..], base), p, ps[0]);
      NextMultiplier(p, base);
    }
  }

  /** A character that is not a glyph stops the loop, unless a sum has overflowed before. */
  lemma {:induction false} UnknownStops(t: IntType, base: nat, glyphs: string, s: string)
    requires ValidType(t) && !Known(glyphs, s)
    ensures var r := Accumulate(t, base, glyphs, s);
            r.Reject? && (r.error == UnknownGlyph || (r.error == Overflow && Checked(t)))
    decreases |s|
  {
    var rest := s[1..];
    assert forall i :: 0 <= i < |rest| ==> rest[i] == s[i + 1];
    if Known(glyphs, rest) {
      assert s[0] !in glyphs;
      AccumulateMeans(t, base, glyphs, rest, PositionsIn(glyphs, rest));
    } else {
      UnknownStops(t, base, glyphs, rest);
    }
  }

  /** What `str_to_int` reads as digits: all of the text, or all behind a minus sign. */
  function Body(text: string): string
    requires text != []
  {
    if text[0] == '-' then text[1..] else text
  }

  /** A number behind a minus sign. */
  lemma NegatedMeans(t: IntType, v: nat)
    requires ValidType(t)
    ensures Negated(t, Cast(t, v)) == Value(Cast(t, 0 - v)) ||
            (Negated(t, Cast(t, v)) == Reject(Overflow) && t.bits >= 32)
  {
    var k := CastIsNear(t, v);
    assert -Cast(t, v) == (0 - v) + k * Modulus(t);
    CastForgets(t, 0 - v, k);
  }

  /** What becomes of any text at all. A character that is no glyph is an error; a sign in an
      unsigned type is one; otherwise the result is the value of the text, negated after a sign,
      modulo the range of the type, except that wide signed types may report an overflow. */
  lemma AnyText(t: IntType, base: nat, glyphs: string, text: string)
    requires ValidType(t) && ValidBase(base, glyphs) && text != []
    ensures var r, negative := Parse(t, base, glyphs, text), text[0] == '-';
            if !Known(glyphs, Body(text)) then
              r == Reject(UnknownGlyph) || (r == Reject(Overflow) && Checked(t))
            else if negative && !t.signed then r == Reject(SignedInput)
            else
              var v := ValueOf(PositionsIn(glyphs, Body(text)), base);
              r == Parsed<int>.Value(Cast(t, if negative then 0 - v else v)) || (r == Reject(Overflow) && Checked(t))
  {
    var body := Body(text);
    if Known(glyphs, body) {
      AccumulateMeans(t, base, glyphs, body, PositionsIn(glyphs, body));
      if text[0] == '-' { NegatedMeans(t, ValueOf(PositionsIn(glyphs, body), base)); }
    } else {
      UnknownStops(t, base, glyphs, body);
    }
    if text[0] != '-' { ParseIsLoop(t, base, glyphs, text); }
  }

  /** A text without a sign is read by the loop alone. */
  lemma ParseIsLoop(t: IntType, base: nat, glyphs: string, text: string)
    requires ValidType(t) && text != [] && text[0] != '-'
    ensures var r := Accumulate(t, base, glyphs, text);
            Parse(t, base, glyphs, text) == if r.Value? then Value(r.value.sum) else Reject(r.error)
  {
  }

  /** Any text whose number fits its type is read as that number, canonical or not. */
  lemma FittingText(t: IntType, base: nat, glyphs: string, text: string)
    requires ValidType(t) && ValidBase(base, glyphs) && text != []
    requires Known(glyphs, Body(text)) && (text[0] == '-' ==> t.signed)
    requires ValueOf(PositionsIn(glyphs, Body(text)), base) <= MaxOf(t)
    ensures var v := ValueOf(PositionsIn(glyphs, Body(text)), base);
            Parse(t, base, glyphs, text) == Parsed<int>.Value(if text[0] == '-' then 0 - v else v)
  {
    var body := Body(text);
    AccumulateValue(t, base, glyphs, body, PositionsIn(glyphs, body));
    if text[0] == '-' {
      NegatedFits(t, ValueOf(PositionsIn(glyphs, body), base));
    } else {
      ParseIsLoop(t, base, glyphs, text);
    }
  }
}
