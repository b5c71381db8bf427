/** The modular power of the key exchange (`g_pow_x_mod_p`, silkroad-security/src/security.rs),
    with the 64 bit arithmetic it runs on. */
module PowMod {
  import opened Wrappers
  import opened Words

  /** An arithmetic panic: an overflowing product or a remainder by zero. */
  datatype Panic = Panic

  const I64_LIMIT := 0x8000_0000_0000_0000
  /** Primes, generators and exponents are masked to 31 bits. */
  const MASK_LIMIT := 0x8000_0000

  function Pow(base: nat, exponent: nat): nat {
    if exponent == 0 then 1 else base * Pow(base, exponent - 1)
  }

  /** What the loop answers. The exponent 0 answers 1 without looking at the modulus; otherwise it panics
      on the modulus 0 and on a product past 64 signed bits. */
  function PowerMod(p: u32, x: u32, g: u32): Result<u32, Panic> {
    if x == 0 then Ok(1)
    else if p == 0 || !AllFit(Products(1, g, x, p)) then Err(Panic)
    else Ok(Pow(g, x) % p)
  }

  /** Every product the loop forms, in order. */
  function Products(current: nat, mult: nat, rest: nat, p: nat): seq<nat>
    requires p > 0
    decreases rest
  {
    if rest == 0 then []
    else Formed(current, mult, rest) + Products(NextCurrent(current, mult, rest, p), (mult * mult) % p, rest / 2, p)
  }

  /** The products of one iteration. */
  function Formed(current: nat, mult: nat, rest: nat): seq<nat> {
    if rest % 2 == 1 then [mult * current, mult * mult] else [mult * mult]
  }

  function NextCurrent(current: nat, mult: nat, rest: nat, p: nat): nat
    requires p > 0
  {
    if rest % 2 == 1 then (mult * current) % p else current
  }

  predicate AllFit(products: seq<nat>) {
    forall i :: 0 <= i < |products| ==> products[i] < I64_LIMIT
  }

  // ---------------------------------------------------------------- Remainders

  lemma MulModLeft(a: nat, b: nat, p: nat)
    requires p > 0
    ensures ((a % p) * b) % p == (a * b) % p
  {
    var q := a / p;
    assert a == q * p + a % p;
    assert a * b == (q * p + a % p) * b == (q * b) * p + (a % p) * b;
    AddMultiple((a % p) * b, q * b, p);
  }

  lemma {:induction false} AddMultiple(a: nat, k: nat, p: nat)
    requires p > 0
    ensures (k * p + a) % p == a % p
    decreases k
  {
    if k > 0 {
      AddMultiple(a, k - 1, p);
      assert k * p + a == ((k - 1) * p + a) + p;
      AddOne((k - 1) * p + a, p);
    }
  }

  lemma AddOne(a: nat, p: nat)
    requires p > 0
    ensures (a + p) % p == a % p
  {
    var q, r := a / p, a % p;
    assert a + p == (q + 1) * p + r;
    QuotientIsUnique(a + p, q + 1, r, p);
  }

  lemma QuotientIsUnique(a: nat, q: nat, r: nat, p: nat)
    requires p > 0 && r < p && a == q * p + r
    ensures a % p == r
  {
    DivisionIsUnique(q, r, a / p, a % p, p);
  }

  lemma DivisionIsUnique(q: nat, r: nat, q': nat, r': nat, p: nat)
    requires r < p && r' < p && q * p + r == q' * p + r'
    ensures r == r'
  {
    MultiplesAreApart(q, q', p);
    MultiplesAreApart(q', q, p);
  }

  lemma {:induction false} MultiplesAreApart(q: nat, q': nat, p: nat)
    ensures q > q' ==> q * p >= q' * p + p
    decreases q
  {
    if q > q' {
      assert q * p == (q - 1) * p + p;
      MultiplesAreApart(q - 1, q', p);
    }
  }

  lemma MulModRight(a: nat, b: nat, p: nat)
    requires p > 0
    ensures (a * (b % p)) % p == (a * b) % p
  {
    MulModLeft(b, a, p);
  }

  lemma {:induction false} PowOfMod(base: nat, e: nat, p: nat)
    requires p > 0
    ensures Pow(base % p, e) % p == Pow(base, e) % p
  {
    if e > 0 {
      PowOfMod(base, e - 1, p);
      MulModLeft(base, Pow(base % p, e - 1), p);
      MulModRight(base, Pow(base % p, e - 1), p);
      MulModRight(base, Pow(base, e - 1), p);
    }
  }

  lemma {:induction false} PowAdd(base: nat, d: nat, e: nat)
    ensures Pow(base, d + e) == Pow(base, d) * Pow(base, e)
  {
    if d == 0 {
      assert Pow(base, 0) == 1;
    } else {
      PowAdd(base, d - 1, e);
      assert Pow(base, d + e) == base * Pow(base, (d - 1) + e);
      Reassociate(base, Pow(base, d - 1), Pow(base, e));
    }
  }

  lemma Reassociate(a: nat, b: nat, c: nat)
    ensures a * (b * c) == (a * b) * c
  {
  }

  lemma {:induction false} PowMul(base: nat, d: nat, e: nat)
    ensures Pow(Pow(base, d), e) == Pow(base, d * e)
  {
    if e == 0 {
      assert d * e == 0;
    } else {
      PowMul(base, d, e - 1);
      PowAdd(base, d, d * (e - 1));
      assert d + d * (e - 1) == d * e;
    }
  }

  lemma {:induction false} PowSquare(base: nat, e: nat)
    ensures Pow(base * base, e) == Pow(base, 2 * e)
  {
    assert Pow(base, 2) == base * Pow(base, 1) == base * base;
    PowMul(base, 2, e);
  }

  // ---------------------------------------------------------------- The loop

  /** One square-and-multiply step keeps `current * mult^x` modulo p. */
  lemma StepKeepsPower(current: nat, mult: nat, x: nat, p: nat)
    requires p > 0 && x > 0
    ensures
      var current' := if x % 2 == 1 then (mult * current) % p else current;
      (current' * Pow((mult * mult) % p, x / 2)) % p == (current * Pow(mult, x)) % p
  {
    var half := x / 2;
    var current' := if x % 2 == 1 then (mult * current) % p else current;
    PowOfMod(mult * mult, half, p);
    MulModRight(current', Pow((mult * mult) % p, half), p);
    MulModRight(current', Pow(mult * mult, half), p);
    PowSquare(mult, half);
    if x % 2 == 1 {
      MulModLeft(mult * current, Pow(mult, 2 * half), p);
      assert Pow(mult, x) == mult * Pow(mult, 2 * half);
      assert (mult * current) * Pow(mult, 2 * half) == current * (mult * Pow(mult, 2 * half));
    }
  }

  /** What the loop leaves in `current`. */
  function FastPower(current: nat, mult: nat, rest: nat, p: nat): nat
    requires p > 0
    decreases rest
  {
    if rest == 0 then current else FastPower(NextCurrent(current, mult, rest, p), (mult * mult) % p, rest / 2, p)
  }

  /** The fast form is the power. */
  lemma {:induction false} FastPowerIsPower(current: nat, mult: nat, rest: nat, p: nat)
    requires p > 0 && (current < p || rest > 0)
    ensures FastPower(current, mult, rest, p) == (current * Pow(mult, rest)) % p
    decreases rest
  {
    if rest == 0 {
      assert current * Pow(mult, 0) == current;
      QuotientIsUnique(current, 0, current, p);
    } else {
      StepKeepsPower(current, mult, rest, p);
      FastPowerIsPower(NextCurrent(current, mult, rest, p), (mult * mult) % p, rest / 2, p);
    }
  }

  lemma ProductBound(a: nat, b: nat, limit: nat)
    requires a < limit && b < limit
    ensures a * b < limit * limit
  {
    if a > 0 {
      assert a * b <= a * limit <= limit * limit;
      assert a * b < a * limit;
    }
  }

  const PRODUCT_LIMIT := 0x4000_0000_0000_0000

  /** With a base below 2^31 no product reaches 2^62, although the base starts unreduced. */
  lemma {:induction false} ProductsStaySmall(current: nat, mult: nat, rest: nat, p: nat)
    requires 0 < p < MASK_LIMIT && current < MASK_LIMIT && mult < MASK_LIMIT
    ensures forall i :: 0 <= i < |Products(current, mult, rest, p)| ==> Products(current, mult, rest, p)[i] < PRODUCT_LIMIT
    decreases rest
  {
    if rest > 0 {
      ProductBound(mult, current, MASK_LIMIT);
      ProductBound(mult, mult, MASK_LIMIT);
      ProductsStaySmall(NextCurrent(current, mult, rest, p), (mult * mult) % p, rest / 2, p);
    }
  }

  /** With a modulus below 2^31, exactly the square of the unreduced base may be too large. */
  lemma OnlyTheFirstSquare(p: nat, x: u32, g: u32)
    requires 0 < p < MASK_LIMIT && x > 0
    ensures AllFit(Products(1, g, x, p)) <==> g * g < I64_LIMIT
  {
    var formed, later := Formed(1, g, x), Products(NextCurrent(1, g, x, p), (g * g) % p, x / 2, p);
    assert Products(1, g, x, p) == formed + later;
    assert formed[|formed| - 1] == g * g && forall i :: 0 <= i < |formed| ==> formed[i] == g * g || formed[i] == g;
    ProductsStaySmall(NextCurrent(1, g, x, p), (g * g) % p, x / 2, p);
    if g * g < I64_LIMIT {
      forall i | 0 <= i < |formed + later| ensures (formed + later)[i] < I64_LIMIT {
        assert (formed + later)[i] == if i < |formed| then formed[i] else later[i - |formed|];
      }
    } else {
      assert (formed + later)[|formed| - 1] == g * g;
    }
  }

  /** A product in 64 bits. */
  function CheckedMul(a: nat, b: nat): Option<nat> {
    if a * b < I64_LIMIT then Some(a * b) else None
  }

  /** The body of the loop. */
  method SquareAndMultiply(p: nat, current: nat, mult: nat, rest: nat) returns (ok: bool, next: nat, square: nat)
    requires rest > 0
    ensures ok <==> p > 0 && AllFit(Formed(current, mult, rest))
    ensures ok ==> next == NextCurrent(current, mult, rest, p) && square == (mult * mult) % p
  {
    next := current;
    ghost var formed := Formed(current, mult, rest);
    assert formed[|formed| - 1] == mult * mult;
    if rest % 2 == 1 {
      assert formed[0] == mult * current;
      var product := CheckedMul(mult, current);
      if product.None? || p == 0 {
        return false, 0, 0;
      }
      next := product.value % p;
    }
    var squared := CheckedMul(mult, mult);
    if squared.None? || p == 0 {
      return false, 0, 0;
    }
    return true, next, squared.value % p;
  }

  /** How far the loop has come: what is left to do gives what all of it gives, and so far every product
      fitted. */
  ghost predicate Halfway(p: nat, x: u32, g: u32, current: nat, mult: nat, rest: nat)
    requires p > 0
  {
    && FastPower(current, mult, rest, p) == FastPower(1, g, x, p)
    && (AllFit(Products(current, mult, rest, p)) <==> AllFit(Products(1, g, x, p)))
  }

  lemma HalfwayStep(p: nat, x: u32, g: u32, current: nat, mult: nat, rest: nat)
    requires p > 0 && rest > 0 && Halfway(p, x, g, current, mult, rest)
    ensures AllFit(Formed(current, mult, rest)) ==>
      Halfway(p, x, g, NextCurrent(current, mult, rest, p), (mult * mult) % p, rest / 2)
    ensures !AllFit(Formed(current, mult, rest)) ==> !AllFit(Products(1, g, x, p))
  {
    var formed := Formed(current, mult, rest);
    var later := Products(NextCurrent(current, mult, rest, p), (mult * mult) % p, rest / 2, p);
    assert Products(current, mult, rest, p) == formed + later;
    assert forall i :: 0 <= i < |formed| ==> (formed + later)[i] == formed[i];
    assert forall i :: 0 <= i < |later| ==> (formed + later)[|formed| + i] == later[i];
  }

  /** Square and multiply. The first square is of the unreduced base. */
  method GPowXModP(p: u32, x: u32, g: u32) returns (r: Result<u32, Panic>)
    ensures r == PowerMod(p, x, g)
  {
    var current: nat, mult: nat, rest: nat := 1, g, x;
    while rest != 0
      invariant rest == x || p > 0
      invariant p > 0 ==> Halfway(p, x, g, current, mult, rest) && (rest == 0 && x > 0 ==> current < p)
      invariant x == 0 ==> current == 1
    {
      if p > 0 { HalfwayStep(p, x, g, current, mult, rest); }
      var ok, next, square := SquareAndMultiply(p, current, mult, rest);
      if !ok {
        return Err(Panic);
      }
      current, mult, rest := next, square, rest / 2;
    }
    if x != 0 {
      FastPowerIsPower(1, g, x, p);
    }
    r := Ok(current);
  }

  // ---------------------------------------------------------------- Agreement

  /** Below 2^31 nothing panics. */
  lemma SmallNeverPanics(p: u32, x: u32, g: u32)
    requires 1 <= p < MASK_LIMIT && g < MASK_LIMIT
    ensures PowerMod(p, x, g).Ok? && PowerMod(p, x, g).value < MASK_LIMIT
  {
    if x > 0 {
      ProductBound(g, g, MASK_LIMIT);
      OnlyTheFirstSquare(p, x, g);
    }
  }

  lemma AnswerIsPower(p: u32, x: u32, g: u32)
    requires p >= 2 && PowerMod(p, x, g).Ok?
    ensures PowerMod(p, x, g).value == Pow(g, x) % p
  {
    if x == 0 {
      QuotientIsUnique(1, 0, 1, p);
    }
  }

  /** A power of a received power. */
  lemma PowerOfPower(p: u32, x: u32, y: u32, g: u32)
    requires p >= 2 && PowerMod(p, y, g).Ok? && PowerMod(p, x, PowerMod(p, y, g).value).Ok?
    ensures PowerMod(p, x, PowerMod(p, y, g).value).value == Pow(g, y * x) % p
  {
    AnswerIsPower(p, y, g);
    AnswerIsPower(p, x, Pow(g, y) % p);
    PowOfMod(Pow(g, y), x, p);
    PowMul(g, y, x);
  }

  /** Both sides raise what they received to their own secret. When nothing panics the values agree,
      except that the modulus 1 needs both secrets to be zero or both to be non-zero. */
  lemma SecretsAgree(p: u32, g: u32, x: u32, y: u32)
    requires PowerMod(p, x, g).Ok? && PowerMod(p, y, g).Ok?
    requires PowerMod(p, x, PowerMod(p, y, g).value).Ok? && PowerMod(p, y, PowerMod(p, x, g).value).Ok?
    ensures PowerMod(p, x, PowerMod(p, y, g).value) == PowerMod(p, y, PowerMod(p, x, g).value)
      <==> p >= 2 || (x == 0 <==> y == 0)
  {
    if p >= 2 {
      PowerOfPower(p, x, y, g);
      PowerOfPower(p, y, x, g);
      assert y * x == x * y;
    }
  }

  /** With a modulus and a generator below 2^31, as they are drawn, nothing panics on the way. */
  lemma DrawnNeverPanics(p: u32, g: u32, x: u32, y: u32)
    requires 1 <= p < MASK_LIMIT && g < MASK_LIMIT
    ensures PowerMod(p, x, g).Ok? && PowerMod(p, y, g).Ok?
    ensures PowerMod(p, x, PowerMod(p, y, g).value).Ok? && PowerMod(p, y, PowerMod(p, x, g).value).Ok?
  {
    SmallNeverPanics(p, x, g);
    SmallNeverPanics(p, y, g);
    SmallNeverPanics(p, x, PowerMod(p, y, g).value);
    SmallNeverPanics(p, y, PowerMod(p, x, g).value);
  }

  /** When the loop answers and when it panics: nothing is computed for the exponent 0; otherwise it is a modulus
      of 0 or a product of 2^63 and above. */
  lemma PowerModAnswers(p: u32, x: u32, g: u32)
    ensures PowerMod(p, 0, g) == Ok(1)
    ensures x > 0 && p == 0 ==> PowerMod(p, x, g).Err?
    ensures x > 0 && p > 0 ==>
      (PowerMod(p, x, g).Err? <==> SomePast63Bits(Products(1, g, x, p)))
  {
    if x > 0 && p > 0 {
      SomeTooLarge(Products(1, g, x, p));
    }
  }

  ghost predicate SomePast63Bits(products: seq<nat>) {
    exists product <- products :: product >= 0x8000_0000_0000_0000
  }

  lemma SomeTooLarge(all: seq<nat>)
    ensures !AllFit(all) <==> SomePast63Bits(all)
  {
    if product :| product in all && product >= 0x8000_0000_0000_0000 {
      var i :| 0 <= i < |all| && all[i] == product;
    }
    if !AllFit(all) {
      var i :| 0 <= i < |all| && all[i] >= I64_LIMIT;
      assert all[i] in all;
    }
  }
}
