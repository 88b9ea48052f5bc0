/**
  Double-word arithmetic: the plain C fallbacks add_ssaaaa, sub_ddmmss, umul_ppmm and
  __udiv_qrnnd_c.

  A word has 2 * h bits for any h >= 1.  Words are naturals below Modulus(b) and half words
  naturals below b.  Every operation that can wrap goes through Wrap.
*/
module DoubleWord {

  predicate PowerOfTwo(b: nat) {
    b == 1 || (b > 0 && b % 2 == 0 && PowerOfTwo(b / 2))
  }

  /** __ll_B: one more than the largest half word. */
  predicate HalfBase(b: nat) {
    b >= 2 && PowerOfTwo(b)
  }

  /** One more than the largest word. */
  function Modulus(b: nat): (m: nat) {
    b * b
  }

  /** __ll_highpart: x shifted right past the bits below b. */
  function High(b: nat, x: nat): (r: nat) {
    if b <= 1 then x else High(b / 2, x / 2)
  }

  /** __ll_lowpart: the bits of x below b. */
  function Low(b: nat, x: nat): (r: nat) {
    if b <= 1 then 0 else x % 2 + 2 * Low(b / 2, x / 2)
  }

  /** The word an unsigned expression of mathematical value x leaves behind: x modulo m. */
  function Wrap(m: nat, x: int): (r: nat)
    requires m > 0
    ensures r < m
    ensures m <= x < 2 * m ==> r == x - m
    ensures 0 - m <= x < 0 ==> r == x + m
    decreases x < 0, if x < 0 then -x else x
  {
    if x < 0 then Wrap(m, x + m)
    else if x < m then x
    else Wrap(m, x - m)
  }

  lemma MulLe(x: int, y: int, z: int)
    requires x <= y && 0 <= z
    ensures x * z <= y * z
  {
  }

  /** A common positive factor can be cancelled from a strict inequality. */
  lemma CancelLt(x: int, y: int, z: int)
    requires 0 <= z && x * z < y * z
    ensures x < y
  {
    if y <= x { MulLe(y, x, z); }
  }

  /** Quotient and remainder are determined by the division equation. */
  lemma QuotientIs(x: int, m: nat, q: int, r: int)
    requires 0 <= r < m
    requires x == q * m + r
    ensures x / m == q && x % m == r
  {
    var q', r' := x / m, x % m;
    assert x == q' * m + r';
    CancelLt(q', q + 1, m);
    CancelLt(q, q' + 1, m);
  }

  /** Wrap is the remainder modulo m. */
  lemma {:induction false} WrapIsMod(m: nat, x: int)
    requires m > 0
    ensures exists k :: x == k * m + Wrap(m, x)
    decreases x < 0, if x < 0 then -x else x
  {
    if x < 0 {
      WrapIsMod(m, x + m);
      var k :| x + m == k * m + Wrap(m, x + m);
      assert x == (k - 1) * m + Wrap(m, x);
    } else if x < m {
      assert x == 0 * m + Wrap(m, x);
    } else {
      WrapIsMod(m, x - m);
      var k :| x - m == k * m + Wrap(m, x - m);
      assert x == (k + 1) * m + Wrap(m, x);
    }
  }

  /** Bitwise OR of two naturals, bit by bit. */
  function BitOr(x: nat, y: nat): (r: nat)
    decreases x + y
  {
    if x == 0 && y == 0 then 0
    else 2 * BitOr(x / 2, y / 2) + (if x % 2 == 1 || y % 2 == 1 then 1 else 0)
  }

  lemma {:induction false} OrZeroRight(x: nat)
    ensures BitOr(x, 0) == x
  {
    if x > 0 { OrZeroRight(x / 2); }
  }

  /** ORing a half word below a shifted word is addition: no bit is shared. */
  lemma {:induction false} OrIsAdd(b: nat, a: nat, lo: nat)
    requires PowerOfTwo(b) && lo < b
    ensures BitOr(a * b, lo) == a * b + lo
  {
    if b == 1 {
      OrZeroRight(a);
    } else {
      OrIsAdd(b / 2, a, lo / 2);
      OrStep(a * b, lo, a * (b / 2)) by { HalveFactor(a, b); }
    }
  }

  lemma HalveFactor(a: nat, b: nat)
    requires b % 2 == 0
    ensures a * b == 2 * (a * (b / 2))
  {
    var c := b / 2;
    assert b == 2 * c;
  }

  lemma OrStep(x: nat, lo: nat, y: nat)
    requires x == 2 * y
    requires BitOr(y, lo / 2) == y + lo / 2
    ensures BitOr(x, lo) == x + lo
  {
  }

  // ---------------------------------------------------------------------------------
  // One quotient digit
  // ---------------------------------------------------------------------------------

  /** d has its most significant bit set, which UDIV_NEEDS_NORMALIZATION asks for. */
  predicate Normalized(b: nat, d: nat) {
    HalfBase(b) && Modulus(b) <= 2 * d && d < Modulus(b)
  }

  lemma {:induction false} LowBound(b: nat, n: nat)
    requires PowerOfTwo(b)
    ensures Low(b, n) < b
  {
    if b > 1 { LowBound(b / 2, n / 2); }
  }

  /** The two halves put together are the word. */
  lemma {:induction false} HalvesOf(b: nat, n: nat)
    requires PowerOfTwo(b)
    ensures n == High(b, n) * b + Low(b, n)
  {
    if b > 1 {
      HalvesOf(b / 2, n / 2);
      HalveFactor(High(b / 2, n / 2), b);
    }
  }

  lemma HighBound(b: nat, n: nat)
    requires PowerOfTwo(b) && n < Modulus(b)
    ensures High(b, n) < b
  {
    HalvesOf(b, n);
    CancelLt(High(b, n), b, b);
  }

  lemma HighBelow(b: nat, n: nat)
    requires PowerOfTwo(b) && n + b < Modulus(b)
    ensures High(b, n) + 1 < b
  {
    HalvesOf(b, n);
    BelowBase(b, n, High(b, n), Low(b, n));
  }

  lemma BelowBase(b: nat, n: nat, hi: nat, lo: nat)
    requires n == hi * b + lo && n + b < b * b
    ensures hi + 1 < b
  {
    assert (hi + 1) * b == hi * b + b;
    CancelLt(hi + 1, b, b);
  }

  /** The high half of a normalized divisor is at least half the base. */
  lemma DivisorHigh(b: nat, d: nat)
    requires Normalized(b, d)
    ensures 0 < High(b, d) && b <= 2 * High(b, d)
  {
    var d1 := High(b, d);
    HalvesOf(b, d);
    LowBound(b, d);
    HalfSquare(b, d1, d);
  }

  lemma HalfSquare(b: nat, d1: nat, d: nat)
    requires b > 0 && b % 2 == 0
    requires b * b <= 2 * d && d < d1 * b + b
    ensures b <= 2 * d1
  {
    HalveFactor(b, b);
    assert b * (b / 2) == (b / 2) * b;
    assert (d1 + 1) * b == d1 * b + b;
    CancelLt(b / 2, d1 + 1, b);
  }

  /** The guessed digit is at most b + 1, so guess * d0 stays below b * b. */
  lemma GuessBound(b: nat, d1: nat, d0: nat, x: nat, q: nat)
    requires 0 < d1 && b <= 2 * d1 && d0 < b
    requires x < d1 * b + d0
    requires q * d1 <= x
    ensures q <= b + 1 && q * d0 < b * b
  {
    assert (b + 2) * d1 == d1 * b + 2 * d1;
    CancelLt(q, b + 2, d1);
    MulLe(q, b + 1, d0);
    MulLe(d0, b - 1, b + 1);
    assert (b - 1) * (b + 1) == b * b - 1;
  }

  /** The dividend in terms of the guess: x * b + lo == q * d + (rest - q * d0). */
  lemma GuessEquation(b: nat, d1: nat, d0: nat, x: nat, lo: nat, q: nat, r: nat)
    requires x == q * d1 + r
    ensures x * b + lo == q * (d1 * b + d0) + (r * b + lo - q * d0)
  {
    assert x * b == (q * d1) * b + r * b;
    assert q * (d1 * b + d0) == q * (d1 * b) + q * d0;
    assert (q * d1) * b == q * (d1 * b);
  }

  /** A digit in front of a lower digit. */
  lemma RestBound(b: nat, d1: nat, r: nat, lo: nat)
    requires r < d1 && lo < b
    ensures r * b + lo < d1 * b
  {
    MulLe(r + 1, d1, b);
  }

  /** A digit of a dividend whose high part is below d is below b. */
  lemma DigitBound(b: nat, d: nat, x: nat, lo: nat, q: int, r: nat)
    requires x < d && lo < b
    requires x * b + lo == q * d + r
    requires r < d
    ensures 0 <= q < b
  {
    RestBound(b, d, x, lo);
    CancelLt(q, b, d);
    assert 0 * d < (q + 1) * d by { MulLe(0, x, b); }
    CancelLt(0, q + 1, d);
  }

  /** What the guess q and the partial remainder satisfy before any correction. */
  lemma Guess(b: nat, x: nat, lo: nat, d: nat, d1: nat, d0: nat, q: nat, r: nat, rest: nat, prod: nat)
    requires Normalized(b, d)
    requires x < d && lo < b
    requires d1 == High(b, d) && d0 == Low(b, d)
    requires x == q * d1 + r && r < d1
    requires rest == r * b + lo && prod == q * d0
    ensures q <= b + 1 < Modulus(b)
    ensures prod < Modulus(b)
    ensures rest < d
    ensures x * b + lo == q * d + rest - prod
    ensures BitOr(r * b, lo) == rest
  {
    HalvesOf(b, d);
    LowBound(b, d);
    DivisorHigh(b, d);
    GuessBound(b, d1, d0, x, q);
    GuessEquation(b, d1, d0, x, lo, q, r);
    RestBound(b, d1, r, lo);
    OrIsAdd(b, r, lo);
    MulLe(2, b, b);
  }

  /** The hardware division of one word by a half word. */
  method DivMod(x: nat, d1: nat) returns (q: nat, r: nat)
    requires d1 > 0
    ensures x == q * d1 + r && r < d1
  {
    r := x % d1;
    q := x / d1;
  }

  /** The guess for one digit: q, and the two words whose difference is what remains. */
  method GuessDigit(b: nat, x: nat, lo: nat, d: nat) returns (q: nat, rest: nat, prod: nat)
    requires Normalized(b, d)
    requires x < d && lo < b
    ensures q < Modulus(b) && prod < Modulus(b) && rest < d
    ensures x * b + lo == q * d + rest - prod
  {
    DivisorHigh(b, d);
    var d1, d0 := High(b, d), Low(b, d);
    var r;
    q, r := DivMod(x, d1);
    ghost var p, s := q * d0, r * b + lo;
    Guess(b, x, lo, d, d1, d0, q, r, s, p);
    prod := Wrap(Modulus(b), q * d0);
    assert prod == p;
    rest := BitOr(Wrap(Modulus(b), r * b), lo);
    assert rest == s;
  }

  /** k corrections of a guess lower the digit by k and raise the remainder by k * d. */
  function Raise(d: nat, k: nat): (r: nat) {
    if k == 0 then 0 else if k == 1 then d else 2 * d
  }

  lemma Lowered(n: int, q: int, d: nat, rest: int, k: nat)
    requires k <= 2
    requires n == q * d + rest
    ensures n == (q - k) * d + (rest + Raise(d, k))
  {
    assert (q - 1) * d == q * d - d;
    assert (q - 2) * d == q * d - 2 * d;
  }

  lemma Corrected(b: nat, x: nat, lo: nat, d: nat, guess: nat, rest: nat, prod: nat, k: nat, q: int, r: nat)
    requires x < d && lo < b
    requires x * b + lo == guess * d + rest - prod
    requires k <= 2 && r < d && r + prod == rest + Raise(d, k)
    requires k <= guess ==> q == guess - k
    ensures 0 <= q < b
    ensures x * b + lo == q * d + r
  {
    Lowered(x * b + lo + prod, guess, d, rest, k);
    DigitBound(b, d, x, lo, guess - k, r);
  }

  /**
    The correction steps of one digit, on wrapped words: the digit is lowered and d added
    back, a second time only if the first addition did not wrap.
  */
  method Correct(m: nat, q: nat, rest: nat, prod: nat, d: nat) returns (q': nat, r: nat, ghost k: nat)
    requires m <= 2 * d && rest < d < m && prod < m
    ensures k <= 2
    ensures r < d && r + prod == rest + Raise(d, k)
    ensures k <= q < m ==> q' == q - k
  {
    q', r, k := q, rest, 0;
    if r < prod {
      q', r, k := Wrap(m, q' - 1), Wrap(m, r + d), 1;
      if r >= d {
        if r < prod {
          q', r, k := Wrap(m, q' - 1), Wrap(m, r + d), 2;
        }
      }
    }
    r := Wrap(m, r - prod);
  }

  /** One digit of __udiv_qrnnd_c: guess it from the high half of d, then correct the guess. */
  method DivideDigit(b: nat, x: nat, lo: nat, d: nat) returns (q: nat, r: nat)
    requires Normalized(b, d)
    requires x < d && lo < b
    ensures x * b + lo == q * d + r
    ensures r < d
    ensures q < b
  {
    var guess, rest, prod := GuessDigit(b, x, lo, d);
    ghost var k;
    q, r, k := Correct(Modulus(b), guess, rest, prod, d);
    Corrected(b, x, lo, d, guess, rest, prod, k, q, r);
  }

  // ---------------------------------------------------------------------------------
  // The whole division, multiplication, addition and subtraction
  // ---------------------------------------------------------------------------------

  /** The natural number two words stand for. */
  function Double(b: nat, hi: nat, lo: nat): (n: nat) {
    hi * Modulus(b) + lo
  }

  lemma TwoDigits(b: nat, n1: nat, hi: nat, lo: nat, d: nat, q1: nat, r1: nat, q0: nat, r0: nat)
    requires n1 * b + hi == q1 * d + r1
    requires r1 * b + lo == q0 * d + r0
    ensures n1 * (b * b) + (hi * b + lo) == (q1 * b + q0) * d + r0
  {
    assert (n1 * b + hi) * b == (q1 * d + r1) * b;
    assert (n1 * b + hi) * b == n1 * (b * b) + hi * b;
    assert (q1 * d + r1) * b == (q1 * b) * d + r1 * b;
    assert (q1 * b + q0) * d == (q1 * b) * d + q0 * d;
  }

  /** Two digits below the base make a word, and the OR puts them together. */
  lemma JoinDigits(b: nat, q1: nat, q0: nat)
    requires PowerOfTwo(b) && q1 < b && q0 < b
    ensures q1 * b + q0 < Modulus(b)
    ensures BitOr(q1 * b, q0) == q1 * b + q0
  {
    RestBound(b, b, q1, q0);
    OrIsAdd(b, q1, q0);
  }

  /** The two digit steps together are the division. */
  lemma Assemble(b: nat, n1: nat, n0: nat, d: nat, q1: nat, r1: nat, q0: nat, r0: nat)
    requires PowerOfTwo(b) && q1 < b && q0 < b
    requires n1 * b + High(b, n0) == q1 * d + r1
    requires r1 * b + Low(b, n0) == q0 * d + r0
    ensures BitOr(Wrap(Modulus(b), q1 * b), q0) < Modulus(b)
    ensures Double(b, n1, n0) == BitOr(Wrap(Modulus(b), q1 * b), q0) * d + r0
  {
    JoinDigits(b, q1, q0);
    HalvesOf(b, n0);
    TwoDigits(b, n1, High(b, n0), Low(b, n0), d, q1, r1, q0, r0);
  }

  /** __udiv_qrnnd_c. */
  method UdivQrnndC(b: nat, n1: nat, n0: nat, d: nat) returns (q: nat, r: nat)
    requires Normalized(b, d)
    requires n1 < d && n0 < Modulus(b)
    ensures Double(b, n1, n0) == q * d + r
    ensures r < d
    ensures q < Modulus(b)
  {
    HighBound(b, n0);
    LowBound(b, n0);
    var q1, r1 := DivideDigit(b, n1, High(b, n0), d);
    var q0, r0 := DivideDigit(b, r1, Low(b, n0), d);
    Assemble(b, n1, n0, d, q1, r1, q0, r0);
    q := BitOr(Wrap(Modulus(b), q1 * b), q0);
    r := r0;
  }

  /** n1 < d, the documented demand, is exactly what lets the quotient fit one word. */
  lemma QuotientFitsIff(b: nat, n1: nat, n0: nat, d: nat)
    requires 0 < d && n0 < Modulus(b)
    ensures Double(b, n1, n0) / d < Modulus(b) <==> n1 < d
  {
    var n := Double(b, n1, n0);
    QuotientBelow(Modulus(b), n1, n0, d, n / d, n % d);
  }

  lemma QuotientBelow(m: nat, n1: nat, n0: nat, d: nat, q: nat, r: nat)
    requires n0 < m && r < d
    requires n1 * m + n0 == q * d + r
    ensures q < m <==> n1 < d
  {
    if n1 < d {
      DigitBound(m, d, n1, n0, q, r);
    } else {
      MulLe(d, n1, m);
      CancelLt(m, q + 1, d);
    }
  }

  lemma CarryEquation(m: nat, ah: nat, al: nat, bh: nat, bl: nat, c: int, sh: nat, sl: nat, k: int)
    requires al + bl == sl + c * m
    requires ah + bh + c == sh + k * m
    ensures (ah * m + al) + (bh * m + bl) == (sh * m + sl) + k * (m * m)
  {
    assert (ah + bh + c) * m == (sh + k * m) * m;
    assert (ah + bh + c) * m == ah * m + bh * m + c * m;
    assert (sh + k * m) * m == sh * m + k * (m * m);
  }

  /** add_ssaaaa: addition modulo two words; carry is the overflow that is lost. */
  method AddSsaaaa(m: nat, ah: nat, al: nat, bh: nat, bl: nat) returns (sh: nat, sl: nat, ghost carry: nat)
    requires ah < m && al < m && bh < m && bl < m
    ensures sh < m && sl < m && carry <= 1
    ensures (ah * m + al) + (bh * m + bl) == (sh * m + sl) + carry * (m * m)
  {
    var x := Wrap(m, al + bl);
    ghost var c := if al + bl >= m then 1 else 0;
    assert x < al <==> c == 1;
    sh := Wrap(m, ah + bh + (if x < al then 1 else 0));
    sl := x;
    carry := if ah + bh + c >= m then 1 else 0;
    CarryEquation(m, ah, al, bh, bl, c, sh, sl, carry);
  }

  /** sub_ddmmss: subtraction modulo two words; borrow is the overflow that is lost. */
  method SubDdmmss(m: nat, ah: nat, al: nat, bh: nat, bl: nat) returns (sh: nat, sl: nat, ghost borrow: nat)
    requires ah < m && al < m && bh < m && bl < m
    ensures sh < m && sl < m && borrow <= 1
    ensures (sh * m + sl) + (bh * m + bl) == (ah * m + al) + borrow * (m * m)
  {
    var x := Wrap(m, al - bl);
    ghost var c := if al < bl then 1 else 0;
    assert x > al <==> c == 1;
    sh := Wrap(m, ah - bh - (if x > al then 1 else 0));
    sl := x;
    borrow := if ah - bh - c < 0 then 1 else 0;
    CarryEquation(m, sh, sl, bh, bl, c, ah, al, borrow);
  }

  /** The product of two half words leaves room for two more half words. */
  lemma HalfProduct(b: nat, x: nat, y: nat)
    requires x < b && y < b
    ensures x * y + 2 * (b - 1) < b * b
  {
    MulLe(x, b - 1, y);
    MulLe(y, b - 1, b - 1);
    assert (b - 1) * (b - 1) == b * (b - 1) - (b - 1);
    assert b * (b - 1) == b * b - b;
  }

  lemma Expand(b: nat, uh: nat, ul: nat, vh: nat, vl: nat)
    ensures (uh * b + ul) * (vh * b + vl) == uh * vh * (b * b) + (ul * vh + uh * vl) * b + ul * vl
  {
    assert (uh * b + ul) * (vh * b + vl) == uh * b * (vh * b + vl) + ul * (vh * b + vl);
    assert uh * b * (vh * b + vl) == uh * b * (vh * b) + uh * b * vl;
    assert uh * b * (vh * b) == uh * vh * (b * b);
    assert uh * b * vl == uh * vl * b;
    assert ul * (vh * b + vl) == ul * vh * b + ul * vl;
    assert (ul * vh + uh * vl) * b == ul * vh * b + uh * vl * b;
  }

  /** p1 and l1 (p0 and l0) are the halves of the middle (low) partial sum; cb the carry. */
  lemma CollectProduct(b: nat, hh: nat, cross: int, p0: nat, l0: nat, p1: nat, l1: nat, cb: nat)
    requires cross + p0 == (p1 * b + l1) + cb * b
    ensures hh * (b * b) + cross * b + (p0 * b + l0) == (hh + cb + p1) * (b * b) + (l1 * b + l0)
  {
    assert (cross + p0) * b == (p1 * b + l1 + cb * b) * b;
    assert (cross + p0) * b == cross * b + p0 * b;
    assert (p1 * b + l1 + cb * b) * b == p1 * b * b + l1 * b + cb * b * b;
    assert (hh + cb + p1) * (b * b) == hh * (b * b) + cb * (b * b) + p1 * (b * b);
    assert p1 * b * b == p1 * (b * b) && cb * b * b == cb * (b * b);
  }

  /** The four partial products fit words and add up to the product. */
  lemma Partials(b: nat, u: nat, v: nat, uh: nat, ul: nat, vh: nat, vl: nat)
    requires HalfBase(b) && u < Modulus(b) && v < Modulus(b)
    requires uh == High(b, u) && ul == Low(b, u) && vh == High(b, v) && vl == Low(b, v)
    ensures ul * vl < Modulus(b)
    ensures ul * vh + 2 * (b - 1) < Modulus(b) && uh * vl + 2 * (b - 1) < Modulus(b)
    ensures uh * vh + 2 * (b - 1) < Modulus(b)
    ensures u * v == uh * vh * (b * b) + (ul * vh + uh * vl) * b + ul * vl
  {
    HalvesOf(b, u);
    HalvesOf(b, v);
    HighBound(b, u);
    HighBound(b, v);
    LowBound(b, u);
    LowBound(b, v);
    HalfProduct(b, ul, vl);
    HalfProduct(b, ul, vh);
    HalfProduct(b, uh, vl);
    HalfProduct(b, uh, vh);
    Expand(b, uh, ul, vh, vl);
  }

  /** umul_ppmm: the exact two-word product. */
  method UmulPpmm(b: nat, u: nat, v: nat) returns (w1: nat, w0: nat)
    requires HalfBase(b)
    requires u < Modulus(b) && v < Modulus(b)
    ensures w1 < Modulus(b) && w0 < Modulus(b)
    ensures Double(b, w1, w0) == u * v
  {
    var ul, uh, vl, vh := Low(b, u), High(b, u), Low(b, v), High(b, v);
    Partials(b, u, v, uh, ul, vh, vl);
    var x0, x1 := Wrap(Modulus(b), ul * vl), Wrap(Modulus(b), ul * vh);
    var x2, x3 := Wrap(Modulus(b), uh * vl), Wrap(Modulus(b), uh * vh);
    ghost var mid, cb;
    w1, w0, mid, cb := AddPartials(b, x0, x1, x2, x3);
    HalvesOf(b, x0);
    HalvesOf(b, mid);
    CollectProduct(b, x3, x1 + x2, High(b, x0), Low(b, x0), High(b, mid), Low(b, mid), cb);
  }

  /** The second half of umul_ppmm: adding up the four partial products. */
  method AddPartials(b: nat, x0: nat, x1: nat, x2: nat, x3: nat)
    returns (w1: nat, w0: nat, ghost mid: nat, ghost cb: nat)
    requires HalfBase(b)
    requires x0 < Modulus(b) && x1 + 2 * (b - 1) < Modulus(b) && x2 + 2 * (b - 1) < Modulus(b)
    requires x3 + 2 * (b - 1) < Modulus(b)
    ensures w1 < Modulus(b) && w0 < Modulus(b)
    ensures x1 + x2 + High(b, x0) == mid + cb * b
    ensures w1 == x3 + cb + High(b, mid)
    ensures w0 == Low(b, mid) * b + Low(b, x0)
  {
    HighBound(b, x0);
    var x1' := Wrap(Modulus(b), x1 + High(b, x0));
    var x1'' := Wrap(Modulus(b), x1' + x2);
    mid := x1'';
    cb := if x1' + x2 >= Modulus(b) then b else 0;
    assert x1'' < x2 <==> cb == b;
    var x3' := x3;
    if x1'' < x2 {
      x3' := Wrap(Modulus(b), x3' + b);
    }
    HighBound(b, x1'');
    if cb == b { HighBelow(b, x1''); }
    LowBound(b, x1'');
    LowBound(b, x0);
    JoinDigits(b, Low(b, x1''), Low(b, x0));
    w1 := Wrap(Modulus(b), x3' + High(b, x1''));
    w0 := Wrap(Modulus(b), Wrap(Modulus(b), Low(b, x1'') * b) + Low(b, x0));
  }

  lemma ProductPlusRemainder(m: nat, q: nat, r: nat, d: nat, n1: nat, n0: nat, carry: nat)
    requires q < m && r < d < m && n0 < m
    requires q * d + r == n1 * m + n0 + carry * (m * m)
    ensures carry == 0 && n1 < d
  {
    RestBound(d, m, q, r);
    MulLe(d, m, m);
    MulLe(0, n1, m);
    CancelLt(carry, 1, m * m);
    CancelLt(n1, d, m);
  }

  /** Multiplying back and dividing recovers quotient and remainder exactly. */
  method MultiplyThenDivide(b: nat, q: nat, r: nat, d: nat) returns (q': nat, r': nat)
    requires Normalized(b, d)
    requires q < Modulus(b) && r < d
    ensures q' == q && r' == r
  {
    var p1, p0 := UmulPpmm(b, q, d);
    var n1, n0, carry := AddSsaaaa(Modulus(b), p1, p0, 0, r);
    ProductPlusRemainder(Modulus(b), q, r, d, n1, n0, carry);
    q', r' := UdivQrnndC(b, n1, n0, d);
    QuotientIs(q * d + r, d, q, r);
    QuotientIs(q * d + r, d, q', r');
  }
}
