/**
 * The pseudo floating point numbers of encode.h: codes of `n` bits whose lowest `e` bits
 * are an exponent once the highest bit is set.
 */
module PseudoFloat {
  import opened Bytes

  ghost predicate Widths(n: nat, e: nat) { n > e > 0 }

  /** m << t */
  function Shl(m: nat, t: nat): nat { if t == 0 then m else 2 * Shl(m, t - 1) }

  /** v >> t */
  function Shr(v: nat, t: nat): nat { if t == 0 then v else Shr(v, t - 1) / 2 }

  /** The lowest `e` bits. */
  function Low(r: nat, e: nat): nat {
    ShrBrackets(r, e);
    r - Shl(Shr(r, e), e)
  }

  function HiBit(n: nat): nat
    requires n > 0
  {
    Pow2(n - 1)
  }

  /** The bits of `x` from bit `e` up to bit `n - 1`: the mask MMASK. */
  function Mantissa(n: nat, e: nat, x: nat): nat { Shl(Shr(Low(x, n), e), e) }

  /** MAX_VALUE */
  function MaxValue(n: nat, e: nat): nat
    requires n >= e
  {
    Pow2Mono(e, n);
    Shl(Pow2(n) - Pow2(e), Pow2(e) - 1)
  }

  /** COAP_PSEUDOFP_DECODE_8_4 */
  function Decode(n: nat, e: nat, r: nat): nat
    requires n > 0
  {
    if r < HiBit(n) then r else Shl(Mantissa(n, e, r), Low(r, e))
  }

  /** The shift of both encodings. */
  function Shift(n: nat, v: nat): nat
    requires n > 0 && v >= HiBit(n)
  {
    FlsTop(v, FlsOf(v));
    FlsAtLeast(n, v, FlsOf(v));
    FlsOf(v) - n
  }

  /** COAP_PSEUDOFP_ENCODE_8_4_DOWN */
  function Down(n: nat, e: nat, v: nat): nat
    requires n > 0
  {
    if v < HiBit(n) then v
    else Mantissa(n, e, Shr(v, Shift(n, v))) + Shift(n, v)
  }

  /** The mantissa of rounding up, before it is masked. */
  function Raised(e: nat, v: nat, ls: nat): nat {
    ShlPow2(e, ls);
    Shr(v + Shl(Pow2(e), ls) - 1, ls)
  }

  /** COAP_PSEUDOFP_ENCODE_8_4_UP: a mantissa that overflows carries into the exponent. */
  function Up(n: nat, e: nat, v: nat): nat
    requires n > 0
  {
    if v < HiBit(n) then v
    else
      var ls := Shift(n, v);
      var s := Mantissa(n, e, Raised(e, v, ls));
      if s == 0 then HiBit(n) + ls + 1 else s + ls
  }

  // ----- Shifts -----

  lemma {:induction false} ShlAdd(a: nat, b: nat, t: nat)
    ensures Shl(a + b, t) == Shl(a, t) + Shl(b, t)
  {
    if t > 0 {
      ShlAdd(a, b, t - 1);
    }
  }

  lemma {:induction false} ShlMono(a: nat, b: nat, t: nat)
    ensures a <= b <==> Shl(a, t) <= Shl(b, t)
  {
    if t > 0 {
      ShlMono(a, b, t - 1);
    }
  }

  lemma {:induction false} ShlShl(a: nat, s: nat, t: nat)
    ensures Shl(Shl(a, s), t) == Shl(a, s + t)
  {
    if t > 0 {
      ShlShl(a, s, t - 1);
    }
  }

  /** A shifted power of two is a power of two. */
  lemma {:induction false} ShlPow2(a: nat, t: nat)
    ensures Shl(Pow2(a), t) == Pow2(a + t)
  {
    if t > 0 {
      ShlPow2(a, t - 1);
    }
  }

  /** Shifting right and back rounds down to a multiple of 2^t. */
  lemma {:induction false} ShrBrackets(v: nat, t: nat)
    ensures Shl(Shr(v, t), t) <= v < Shl(Shr(v, t), t) + Pow2(t)
  {
    if t > 0 {
      ShrBrackets(v, t - 1);
      var x := Shr(v, t - 1);
      ShlHalf(x, t);
    }
  }

  lemma ShlHalf(x: nat, t: nat)
    requires t > 0
    ensures Shl(x / 2, t) <= Shl(x, t - 1) <= Shl(x / 2, t) + Pow2(t - 1)
  {
    ShlAdd(x / 2, x / 2, t - 1);
    ShlAdd(2 * (x / 2), x % 2, t - 1);
    ShlPow2(0, t - 1);
    ShlZero(t - 1);
  }

  lemma {:induction false} ShlZero(t: nat)
    ensures Shl(0, t) == 0
  {
    if t > 0 {
      ShlZero(t - 1);
    }
  }

  lemma ShlNext(k: nat, t: nat)
    ensures Shl(k + 1, t) == Shl(k, t) + Pow2(t)
  {
    ShlAdd(k, 1, t);
    ShlPow2(0, t);
  }

  /** Shifting right is a quotient. */
  lemma ShrIs(v: nat, t: nat, k: nat)
    ensures Shl(k, t) <= v <==> k <= Shr(v, t)
    ensures Shl(k, t) <= v < Shl(k, t) + Pow2(t) ==> Shr(v, t) == k
  {
    ShrBrackets(v, t);
    ShlMono(k, Shr(v, t), t);
    ShlNext(k, t);
    ShlNext(Shr(v, t), t);
    ShlMono(Shr(v, t) + 1, k, t);
    ShlMono(k + 1, Shr(v, t), t);
  }

  lemma ShrAbove(v: nat, t: nat, k: nat)
    requires Shl(k, t) <= v
    ensures k <= Shr(v, t)
  {
    ShrIs(v, t, k);
  }

  lemma ShrBelow(v: nat, t: nat, k: nat)
    requires v < Shl(k, t)
    ensures Shr(v, t) < k
  {
    ShrIs(v, t, k);
  }

  /** Two different multiples of 2^t are at least 2^t apart. */
  lemma ShlApart(a: nat, b: nat, t: nat)
    requires Shl(a, t) < Shl(b, t)
    ensures Shl(a, t) + Pow2(t) <= Shl(b, t)
  {
    ShlMono(b, a, t);
    ShlMono(a + 1, b, t);
    ShlNext(a, t);
  }

  lemma MultipleBelow(j: nat, v: nat, t: nat)
    requires Shl(j, t) <= v
    ensures Shl(j, t) <= Shl(Shr(v, t), t)
  {
    ShrIs(v, t, j);
    ShlMono(j, Shr(v, t), t);
  }

  lemma MultipleAbove(j: nat, c: nat, v: nat, t: nat)
    requires v <= Shl(j, t) && Shl(c, t) < v + Pow2(t)
    ensures Shl(c, t) <= Shl(j, t)
  {
    if Shl(j, t) < Shl(c, t) {
      ShlApart(j, c, t);
    }
  }

  lemma {:induction false} ShrShr(v: nat, s: nat, t: nat)
    ensures Shr(Shr(v, s), t) == Shr(v, s + t)
  {
    if t > 0 {
      ShrShr(v, s, t - 1);
    }
  }

  /** A number of `n` bits is not changed by masking. */
  lemma LowSmall(x: nat, n: nat)
    requires x < Pow2(n)
    ensures Shr(x, n) == 0 && Low(x, n) == x
  {
    ShlZero(n);
    ShrIs(x, n, 0);
  }

  // ----- Codes and their values -----

  /** `f` is the position of the highest bit of `v`. */
  ghost predicate TopBit(v: nat, f: nat) { f > 0 && Pow2(f - 1) <= v < Pow2(f) }

  lemma FlsTop(v: nat, f: nat)
    requires v > 0 && f == FlsOf(v)
    ensures TopBit(v, f)
  {
    FlsBrackets(v);
  }

  lemma FlsAtLeast(n: nat, v: nat, f: nat)
    requires n > 0 && v >= HiBit(n) && TopBit(v, f)
    ensures f >= n
  {
    if f < n {
      Pow2Mono(f, n - 1);
    }
  }

  /** Shifted right by `ls`, `v` has exactly `n` bits. */
  ghost predicate Fills(n: nat, v: nat, ls: nat)
    requires n > 0
  {
    Shl(HiBit(n), ls) <= v < Shl(Pow2(n), ls)
  }

  lemma TopBitFills(n: nat, v: nat, ls: nat)
    requires n > 0 && TopBit(v, n + ls)
    ensures Fills(n, v, ls)
  {
    ShlPow2(n - 1, ls);
    ShlPow2(n, ls);
  }

  lemma ShiftFills(n: nat, v: nat)
    requires n > 0 && v >= HiBit(n)
    ensures Fills(n, v, Shift(n, v))
  {
    FlsTop(v, FlsOf(v));
    TopBitFills(n, v, Shift(n, v));
  }

  /** The mantissa of `k` units has its highest bit set. */
  ghost predicate Normal(n: nat, e: nat, k: nat)
    requires n > 0
  {
    HiBit(n) <= Shl(k, e) < Pow2(n)
  }

  lemma NormalBelow(n: nat, e: nat, k: nat)
    requires Widths(n, e) && Normal(n, e, k)
    ensures Shl(k, e) + Pow2(e) <= Pow2(n)
  {
    ShlPow2(n - e, e);
    BelowTop(k, Pow2(n - e), e, Pow2(n));
  }

  lemma BelowTop(k: nat, m: nat, e: nat, top: nat)
    requires Shl(m, e) == top && Shl(k, e) < top
    ensures Shl(k, e) + Pow2(e) <= top
  {
    ShlApart(k, m, e);
  }

  /** The mantissa of a number of exactly `n` bits. */
  lemma NormalQuotient(n: nat, e: nat, x: nat)
    requires Widths(n, e) && HiBit(n) <= x < Pow2(n)
    ensures Normal(n, e, Shr(x, e)) && Mantissa(n, e, x) == Shl(Shr(x, e), e)
    ensures x == Mantissa(n, e, x) + Low(x, e) && Low(x, e) < Pow2(e)
  {
    LowSmall(x, n);
    ShrBrackets(x, e);
    ShlPow2(n - 1 - e, e);
    ShrIs(x, e, Pow2(n - 1 - e));
    ShlMono(Pow2(n - 1 - e), Shr(x, e), e);
  }

  /** The code made of a normal mantissa and an exponent denotes their product. */
  lemma CodeDecodes(n: nat, e: nat, k: nat, t: nat)
    requires Widths(n, e) && Normal(n, e, k) && t < Pow2(e)
    ensures HiBit(n) <= Shl(k, e) + t < Pow2(n)
    ensures Decode(n, e, Shl(k, e) + t) == Shl(k, e + t)
  {
    NormalBelow(n, e, k);
    ShrIs(Shl(k, e) + t, e, k);
    LowSmall(Shl(k, e) + t, n);
    ShlShl(k, e, t);
  }

  /** A value up to the maximum has a shift that fits into the exponent. */
  lemma ShiftFits(n: nat, e: nat, v: nat)
    requires Widths(n, e) && HiBit(n) <= v <= MaxValue(n, e)
    ensures Shift(n, v) < Pow2(e)
  {
    ShiftFills(n, v);
    if Shift(n, v) >= Pow2(e) {
      TooLarge(n, e, Shift(n, v));
    }
  }

  lemma TooLarge(n: nat, e: nat, ls: nat)
    requires Widths(n, e) && ls >= Pow2(e)
    ensures Shl(HiBit(n), ls) > MaxValue(n, e)
  {
    var a, p := Pow2(n), Pow2(e);
    assert p <= a by { Pow2Mono(e, n); }
    assert Shl(a - p, p - 1) < Shl(a, p - 1) by { ShlMono(a, a - p, p - 1); }
    assert Shl(a, p - 1) == Pow2(n + p - 1) by { ShlPow2(n, p - 1); }
    assert Shl(HiBit(n), ls) == Pow2(n - 1 + ls) by { ShlPow2(n - 1, ls); }
    assert Pow2(n + p - 1) <= Pow2(n - 1 + ls) by { Pow2Mono(n + p - 1, n - 1 + ls); }
  }

  /** Rounding down denotes the multiple of 2^(e + ls) below `v`. */
  lemma DownValue(n: nat, e: nat, v: nat)
    requires Widths(n, e) && HiBit(n) <= v <= MaxValue(n, e)
    ensures Down(n, e, v) < Pow2(n)
    ensures Decode(n, e, Down(n, e, v)) == Shl(Shr(v, e + Shift(n, v)), e + Shift(n, v))
  {
    var ls := Shift(n, v);
    ShiftFills(n, v);
    ShiftFits(n, e, v);
    ShrIs(v, ls, HiBit(n));
    ShrIs(v, ls, Pow2(n));
    var x := Shr(v, ls);
    NormalQuotient(n, e, x);
    CodeDecodes(n, e, Shr(x, e), ls);
    ShrShr(v, ls, e);
  }

  // ----- Rounding up -----

  /** What is raised is at least a number of `n` bits, and exceeds these by less than a mantissa unit. */
  lemma RaisedBounds(e: nat, v: nat, ls: nat, h: nat, a: nat)
    requires Shl(h, ls) <= v < Shl(a, ls)
    ensures h <= Raised(e, v, ls) < a + Pow2(e)
  {
    var u := Shl(Pow2(e), ls);
    assert u >= 1 by { ShlPow2(e, ls); }
    assert v + u - 1 < Shl(a + Pow2(e), ls) by { ShlAdd(a, Pow2(e), ls); }
    ShrAbove(v + u - 1, ls, h);
    ShrBelow(v + u - 1, ls, a + Pow2(e));
  }

  /** With the largest exponent, nothing up to the maximum overflows. */
  lemma RaisedTop(e: nat, v: nat, ls: nat, a: nat)
    requires Pow2(e) <= a && v <= Shl(a - Pow2(e), ls)
    ensures Raised(e, v, ls) < a
  {
    ShlPow2(e, ls);
    ShlAdd(a - Pow2(e), Pow2(e), ls);
    ShrIs(v + Shl(Pow2(e), ls) - 1, ls, a);
  }

  /** Rounding up, as a multiple of 2^(e + ls). */
  lemma RaisedCeiling(e: nat, v: nat, ls: nat, c: nat)
    requires c == Shr(Raised(e, v, ls), e)
    ensures v <= Shl(c, e + ls) < v + Pow2(e + ls)
  {
    var w := v + Shl(Pow2(e), ls) - 1;
    ShlPow2(e, ls);
    ShrShr(w, ls, e);
    ShrBrackets(w, e + ls);
  }

  /** The mantissa carries only if there is room for the larger exponent. */
  lemma CarryFits(n: nat, e: nat, v: nat)
    requires Widths(n, e) && HiBit(n) <= v <= MaxValue(n, e) && Shift(n, v) < Pow2(e)
    requires Raised(e, v, Shift(n, v)) >= Pow2(n)
    ensures Shift(n, v) + 1 < Pow2(e)
  {
    if Shift(n, v) == Pow2(e) - 1 {
      Pow2Mono(e, n);
      RaisedTop(e, v, Shift(n, v), Pow2(n));
    }
  }

  /** An overflowing mantissa reads zero. */
  lemma OverflowMantissa(n: nat, e: nat, y: nat)
    requires Widths(n, e) && Pow2(n) <= y < Pow2(n) + Pow2(e)
    ensures Mantissa(n, e, y) == 0 && Shr(y, e) == Pow2(n - e)
  {
    ShlPow2(n - e, e);
    ShrIs(y, e, Pow2(n - e));
    Pow2Mono(e, n);
    ShlPow2(0, n);
    ShrIs(y, n, 1);
    LowSmall(y - Pow2(n), e);
    ShlZero(e);
  }

  /** The code of the carry case. */
  lemma CarryDecodes(n: nat, e: nat, ls: nat)
    requires Widths(n, e) && ls + 1 < Pow2(e)
    ensures HiBit(n) + ls + 1 < Pow2(n)
    ensures Decode(n, e, HiBit(n) + ls + 1) == Shl(Pow2(n - e), e + ls)
  {
    ShlPow2(n - 1 - e, e);
    CodeDecodes(n, e, Pow2(n - 1 - e), ls + 1);
    ShlPow2(n - 1 - e, e + ls + 1);
    ShlPow2(n - e, e + ls);
  }

  /** Rounding up denotes the multiple of 2^(e + ls) above `v`, also when the mantissa carries. */
  lemma UpValue(n: nat, e: nat, v: nat) returns (c: nat)
    requires Widths(n, e) && HiBit(n) <= v <= MaxValue(n, e)
    ensures Up(n, e, v) < Pow2(n)
    ensures Decode(n, e, Up(n, e, v)) == Shl(c, e + Shift(n, v))
    ensures v <= Shl(c, e + Shift(n, v)) < v + Pow2(e + Shift(n, v))
  {
    var ls := Shift(n, v);
    ShiftFills(n, v);
    ShiftFits(n, e, v);
    RaisedBounds(e, v, ls, HiBit(n), Pow2(n));
    var y := Raised(e, v, ls);
    c := Shr(y, e);
    RaisedCeiling(e, v, ls, c);
    if y < Pow2(n) {
      NormalQuotient(n, e, y);
      CodeDecodes(n, e, c, ls);
    } else {
      OverflowMantissa(n, e, y);
      CarryFits(n, e, v);
      CarryDecodes(n, e, ls);
    }
  }

  // ----- The codes around a value -----

  /** A value is a multiple of 2^(e + ls), or lies below the power of two that is at most `v`. */
  lemma Lattice(n: nat, e: nat, ls: nat, r: nat) returns (j: nat)
    requires Widths(n, e) && r < Pow2(n)
    ensures Decode(n, e, r) == Shl(j, e + ls) || Decode(n, e, r) < Shl(HiBit(n), ls)
  {
    j := 0;
    ShlPow2(n - 1, ls);
    Pow2Mono(n - 1, n - 1 + ls);
    if r >= HiBit(n) {
      NormalQuotient(n, e, r);
      var k, t := Shr(r, e), Low(r, e);
      CodeDecodes(n, e, k, t);
      if t < ls {
        ShlShl(k, e, t);
        ShlMono(Pow2(n), Shl(k, e), t);
        ShlPow2(n, t);
        Pow2Mono(n + t, n - 1 + ls);
      } else {
        j := Shl(k, t - ls);
        ShlShl(k, t - ls, e + ls);
      }
    }
  }

  /** Rounding down is exact below the highest bit, and otherwise gives the greatest value that is at most `v`. */
  lemma DownIsGreatest(n: nat, e: nat, v: nat, r: nat)
    requires Widths(n, e) && v <= MaxValue(n, e) && r < Pow2(n)
    ensures Down(n, e, v) < Pow2(n)
    ensures Decode(n, e, Down(n, e, v)) <= v
    ensures Decode(n, e, r) <= v ==> Decode(n, e, r) <= Decode(n, e, Down(n, e, v))
  {
    if v >= HiBit(n) {
      var ls := Shift(n, v);
      DownValue(n, e, v);
      ShrBrackets(v, e + ls);
      var j := Lattice(n, e, ls, r);
      if Shl(j, e + ls) <= v {
        MultipleBelow(j, v, e + ls);
      }
      TopBelow(n, e, v, ls);
    }
  }

  /** The power of two below `v` is a multiple too. */
  lemma TopBelow(n: nat, e: nat, v: nat, ls: nat)
    requires Widths(n, e) && v >= HiBit(n) && ls == Shift(n, v)
    ensures Shl(HiBit(n), ls) <= Shl(Shr(v, e + ls), e + ls)
  {
    ShiftFills(n, v);
    ShlPow2(n - 1, ls);
    ShlPow2(n - 1 - e, e + ls);
    MultipleBelow(Pow2(n - 1 - e), v, e + ls);
  }

  /** Rounding up gives the least value that is at least `v`. */
  lemma UpIsLeast(n: nat, e: nat, v: nat, r: nat)
    requires Widths(n, e) && v <= MaxValue(n, e) && r < Pow2(n)
    ensures Up(n, e, v) < Pow2(n)
    ensures Decode(n, e, Up(n, e, v)) >= v
    ensures Decode(n, e, r) >= v ==> Decode(n, e, r) >= Decode(n, e, Up(n, e, v))
  {
    if v >= HiBit(n) {
      var u := e + Shift(n, v);
      var c := UpValue(n, e, v);
      var j := Lattice(n, e, Shift(n, v), r);
      ShiftFills(n, v);
      if Shl(j, u) >= v {
        MultipleAbove(j, c, v, u);
      }
    }
  }

  /** Both codes denote `v` itself, or the values on either side of it that are 2^(e + ls) apart. */
  lemma Gap(n: nat, e: nat, v: nat)
    requires Widths(n, e) && v <= MaxValue(n, e)
    ensures v < HiBit(n) ==> Decode(n, e, Down(n, e, v)) == v == Decode(n, e, Up(n, e, v))
    ensures v >= HiBit(n) ==>
      && v - Decode(n, e, Down(n, e, v)) < Pow2(e + Shift(n, v))
      && Decode(n, e, Up(n, e, v)) - v < Pow2(e + Shift(n, v))
      && Decode(n, e, Up(n, e, v)) - Decode(n, e, Down(n, e, v)) <= Pow2(e + Shift(n, v))
  {
    if v >= HiBit(n) {
      var u := e + Shift(n, v);
      var m := Shr(v, u);
      DownValue(n, e, v);
      ShrBrackets(v, u);
      var c := UpValue(n, e, v);
      ShlNext(m, u);
      ShlNext(m + 1, u);
      ShlMono(m + 2, c, u);
      ShlMono(c, m + 1, u);
    }
  }

  /** No code denotes more than the maximum. */
  lemma DecodeAtMost(n: nat, e: nat, r: nat)
    requires Widths(n, e) && r < Pow2(n)
    ensures Decode(n, e, r) <= MaxValue(n, e)
  {
    var a, p := Pow2(n), Pow2(e);
    Pow2Mono(e, n - 1);
    ShlGrows(a - p, 0, p - 1);
    if r >= HiBit(n) {
      NormalQuotient(n, e, r);
      var k, t := Shr(r, e), Low(r, e);
      CodeDecodes(n, e, k, t);
      ShlShl(k, e, t);
      NormalBelow(n, e, k);
      ShlMono(Shl(k, e), a - p, t);
      ShlGrows(a - p, t, p - 1);
    }
  }

  lemma {:induction false} ShlGrows(m: nat, s: nat, t: nat)
    requires s <= t
    ensures Shl(m, s) <= Shl(m, t)
    decreases t
  {
    if s < t {
      ShlGrows(m, s, t - 1);
    }
  }

  /** Re-encoding a value that a code denotes loses nothing. */
  lemma RoundTrip(n: nat, e: nat, r: nat)
    requires Widths(n, e) && r < Pow2(n)
    ensures Decode(n, e, Down(n, e, Decode(n, e, r))) == Decode(n, e, r)
    ensures Decode(n, e, Up(n, e, Decode(n, e, r))) == Decode(n, e, r)
  {
    DecodeAtMost(n, e, r);
    DownIsGreatest(n, e, Decode(n, e, r), r);
    UpIsLeast(n, e, Decode(n, e, r), r);
  }

  // ----- The same by multiplication and remainder -----

  lemma {:induction false} ShlTimes(m: nat, t: nat)
    ensures Shl(m, t) == m * Pow2(t)
  {
    if t > 0 {
      ShlTimes(m, t - 1);
      assert 2 * (m * Pow2(t - 1)) == m * (2 * Pow2(t - 1));
    }
  }

  /** What is left below a multiple of `d` is the remainder. */
  lemma RemainderIs(r: nat, d: nat, q: nat, low: nat)
    requires d > 0 && r == q * d + low && low < d
    ensures r % d == low
  {
    var k := r / d;
    assert r == k * d + r % d;
    if k < q {
      assert (q - k) * d == q * d - k * d;
      assert (q - k) * d >= d by { AtLeastOnce(q - k, d); }
    } else if k > q {
      assert (k - q) * d == k * d - q * d;
      assert (k - q) * d >= d by { AtLeastOnce(k - q, d); }
    }
  }

  lemma AtLeastOnce(x: nat, d: nat)
    requires x >= 1
    ensures x * d >= d
  {
  }

  lemma LowIsRemainder(r: nat, e: nat)
    ensures Low(r, e) == r % Pow2(e) && Shl(Shr(r, e), e) == r - r % Pow2(e)
  {
    ShrBrackets(r, e);
    ShlTimes(Shr(r, e), e);
    RemainderIs(r, Pow2(e), Shr(r, e), Low(r, e));
  }

  /** A code below 2^(n-1) denotes itself, any other its upper bits times two to the power of its lowest `e` bits. */
  lemma DecodeExact(n: nat, e: nat, r: nat)
    requires Widths(n, e) && r < Pow2(n)
    ensures var x := r % Pow2(e);
      Decode(n, e, r) == if r < Pow2(n - 1) then r else (r - x) * Pow2(x)
  {
    LowIsRemainder(r, e);
    LowSmall(r, n);
    ShlTimes(r - r % Pow2(e), r % Pow2(e));
  }

  /** The largest code denotes MAX_VALUE. */
  lemma MaxReached(n: nat, e: nat)
    requires Widths(n, e)
    ensures Decode(n, e, Pow2(n) - 1) == MaxValue(n, e) == (Pow2(n) - Pow2(e)) * Pow2(Pow2(e) - 1)
  {
    var r, p := Pow2(n) - 1, Pow2(e);
    Pow2Mono(e, n);
    Pow2Add(n - e, e);
    assert r == (Pow2(n - e) - 1) * p + (p - 1);
    RemainderIs(r, p, Pow2(n - e) - 1, p - 1);
    DecodeExact(n, e, r);
    ShlTimes(Pow2(n) - p, p - 1);
  }
}
