/**
 * Fixed-width big-endian digit strings in an arbitrary base, and the
 * lexicographic order on sequences that string comparison uses.
 *
 * Bytes are digits in base 256, hex symbols digits in base 16 and
 * base32hex symbols digits in base 32; every codec of the model is
 * stated through `ToNat` and `FromNat`, and the order-preservation proofs
 * all go through `LexOrder`.
 */
module Digits {

  function Pow(b: nat, e: nat): (r: nat)
    ensures b > 0 ==> r > 0
  {
    if e == 0 then 1 else b * Pow(b, e - 1)
  }

  lemma {:induction false} PowAdd(b: nat, e1: nat, e2: nat)
    ensures Pow(b, e1 + e2) == Pow(b, e1) * Pow(b, e2)
  {
    if e2 > 0 {
      PowAdd(b, e1, e2 - 1);
      calc {
        Pow(b, e1 + e2);
        b * Pow(b, e1 + e2 - 1);
        b * (Pow(b, e1) * Pow(b, e2 - 1));
        Pow(b, e1) * (b * Pow(b, e2 - 1));
      }
    }
  }

  predicate IsDigits(d: seq<int>, base: nat) {
    forall i :: 0 <= i < |d| ==> 0 <= d[i] < base
  }

  /** Division by a positive divisor recovers quotient and remainder. */
  lemma DivModUnique(q: int, r: int, b: int)
    requires b > 0 && 0 <= r < b
    ensures (q * b + r) / b == q && (q * b + r) % b == r
  {
    var x := q * b + r;
    var q', r' := x / b, x % b;
    assert x == q' * b + r';
    if q' > q {
      MulLe(q + 1, q', b);
      assert false;
    } else if q' < q {
      MulLe(q' + 1, q, b);
      assert false;
    }
  }

  lemma DivExact(x: int, f: int)
    requires f > 0 && x % f == 0
    ensures x / f * f == x
  {
  }

  lemma MulLe(a: int, b: int, c: nat)
    requires a <= b
    ensures a * c <= b * c
  {
  }

  lemma MulLt(a: int, b: int, c: nat)
    requires a < b && c > 0
    ensures a * c < b * c
  {
    MulLe(a + 1, b, c);
  }

  /** Big-endian value of a digit string (Horner's rule). */
  function ToNat(d: seq<int>, base: nat): (n: nat)
    requires IsDigits(d, base)
    ensures n < Pow(base, |d|)
  {
    if |d| == 0 then 0
    else
      var p := ToNat(d[..|d| - 1], base);
      MulLe(p, Pow(base, |d| - 1) - 1, base);
      p * base + d[|d| - 1]
  }

  /** The `len` lowest big-endian digits of `n`. */
  function FromNat(n: nat, base: nat, len: nat): (d: seq<int>)
    requires base >= 2
    ensures |d| == len && IsDigits(d, base)
  {
    if len == 0 then [] else FromNat(n / base, base, len - 1) + [n % base]
  }

  lemma ShiftDistributes(hi: int, p: int, lo: int, base: int)
    ensures (hi * p + lo) * base == hi * (base * p) + lo * base
  {
  }

  /** Horner's rule one digit at a time. */
  lemma ToNatSnoc(p: seq<int>, x: int, base: nat)
    requires IsDigits(p, base) && 0 <= x < base
    ensures IsDigits(p + [x], base) && ToNat(p + [x], base) == ToNat(p, base) * base + x
  {
    assert (p + [x])[..|p|] == p;
  }

  lemma DivBound(n: nat, base: nat, p: nat)
    requires base >= 1 && n < p * base
    ensures n / base < p && n == n / base * base + n % base
  {
    if n / base >= p {
      MulLe(p, n / base, base);
      assert false;
    }
  }

  lemma {:induction false} ToNatFromNat(n: nat, base: nat, len: nat)
    requires base >= 2 && n < Pow(base, len)
    ensures ToNat(FromNat(n, base, len), base) == n
  {
    if len > 0 {
      var q := n / base;
      var r := n % base;
      var p := Pow(base, len - 1);
      assert Pow(base, len) == base * p;
      DivBound(n, base, p);
      assert q < p;
      ToNatFromNat(q, base, len - 1);
      var d := FromNat(q, base, len - 1);
      assert FromNat(n, base, len) == d + [r];
      ToNatSnoc(d, r, base);
      assert ToNat(d + [r], base) == q * base + r;
    }
  }

  lemma {:induction false} FromNatToNat(d: seq<int>, base: nat)
    requires base >= 2 && IsDigits(d, base)
    ensures FromNat(ToNat(d, base), base, |d|) == d
  {
    if |d| > 0 {
      var p := d[..|d| - 1];
      DivModUnique(ToNat(p, base), d[|d| - 1], base);
      FromNatToNat(p, base);
      assert d == p + [d[|d| - 1]];
    }
  }

  /** Two digit strings of one width with the same value are equal. */
  lemma ToNatInjective(a: seq<int>, b: seq<int>, base: nat)
    requires base >= 2 && IsDigits(a, base) && IsDigits(b, base) && |a| == |b|
    requires ToNat(a, base) == ToNat(b, base)
    ensures a == b
  {
    FromNatToNat(a, base);
    FromNatToNat(b, base);
  }

  lemma {:induction false} ToNatAppend(a: seq<int>, b: seq<int>, base: nat)
    requires IsDigits(a, base) && IsDigits(b, base)
    ensures IsDigits(a + b, base)
    ensures ToNat(a + b, base) == ToNat(a, base) * Pow(base, |b|) + ToNat(b, base)
  {
    if |b| == 0 {
      assert a + b == a;
    } else {
      var b', x := b[..|b| - 1], b[|b| - 1];
      assert b == b' + [x];
      assert a + b == (a + b') + [x];
      ToNatAppend(a, b', base);
      ToNatSnoc(a + b', x, base);
      ToNatSnoc(b', x, base);
      var na, nb, p := ToNat(a, base), ToNat(b', base), Pow(base, |b'|);
      assert Pow(base, |b|) == base * p;
      AppendStep(ToNat(a + b, base), ToNat(a + b', base), na, nb, p, Pow(base, |b|), ToNat(b, base), base, x);
    }
  }

  /** The arithmetic of one `ToNatAppend` step. */
  lemma AppendStep(total: int, left: int, na: int, nb: int, p: int, pw: int, right: int, base: int, x: int)
    requires total == left * base + x && left == na * p + nb
    requires pw == base * p && right == nb * base + x
    ensures total == na * pw + right
  {
    ShiftDistributes(na, p, nb, base);
  }

  /**
   * Lexicographic order, as string and slice comparison orders sequences:
   * the first differing element decides, and a proper prefix comes first.
   */
  predicate LexLess(a: seq<int>, b: seq<int>) {
    if |a| == 0 then |b| > 0
    else |b| > 0 && (a[0] < b[0] || (a[0] == b[0] && LexLess(a[1..], b[1..])))
  }

  lemma {:induction false} LexIrreflexive(a: seq<int>)
    ensures !LexLess(a, a)
  {
    if |a| > 0 {
      LexIrreflexive(a[1..]);
    }
  }

  /** Comparing two concatenations whose first parts have one width. */
  lemma {:induction false} LexAppend(x1: seq<int>, x2: seq<int>, y1: seq<int>, y2: seq<int>)
    requires |x1| == |y1|
    ensures LexLess(x1 + x2, y1 + y2) <==> LexLess(x1, y1) || (x1 == y1 && LexLess(x2, y2))
  {
    if |x1| > 0 {
      assert (x1 + x2)[1..] == x1[1..] + x2;
      assert (y1 + y2)[1..] == y1[1..] + y2;
      LexAppend(x1[1..], x2, y1[1..], y2);
      assert x1 == y1 <==> x1[0] == y1[0] && x1[1..] == y1[1..] by {
        if x1[0] == y1[0] && x1[1..] == y1[1..] {
          assert x1 == [x1[0]] + x1[1..] && y1 == [y1[0]] + y1[1..];
        }
      }
    } else {
      assert x1 + x2 == x2 && y1 + y2 == y2;
    }
  }

  /** The leading digit is worth `base` to the power of the remaining width. */
  lemma ToNatCons(x: int, r: seq<int>, base: nat)
    requires 0 <= x < base && IsDigits(r, base)
    ensures IsDigits([x] + r, base)
    ensures ToNat([x] + r, base) == x * Pow(base, |r|) + ToNat(r, base)
  {
    ToNatAppend([x], r, base);
    assert [x][..0] == [];
    assert ToNat([x], base) == 0 * base + x;
  }

  lemma LeadingDigitDecides(x: int, xr: int, y: int, yr: int, p: int)
    requires 0 <= xr < p && 0 <= yr < p && x < y
    ensures x * p + xr < y * p + yr
  {
    MulLe(x + 1, y, p);
  }

  /**
   * For digit strings of one width, lexicographic order is numeric order:
   * the reason a fixed-width encoding sorts like the number it encodes.
   */
  lemma {:induction false} LexOrder(a: seq<int>, b: seq<int>, base: nat)
    requires base >= 2 && IsDigits(a, base) && IsDigits(b, base) && |a| == |b|
    ensures LexLess(a, b) <==> ToNat(a, base) < ToNat(b, base)
  {
    if |a| > 0 {
      var a', b' := a[1..], b[1..];
      var p := Pow(base, |a'|);
      assert a == [a[0]] + a' && b == [b[0]] + b';
      ToNatCons(a[0], a', base);
      ToNatCons(b[0], b', base);
      LexOrder(a', b', base);
      if a[0] < b[0] {
        LeadingDigitDecides(a[0], ToNat(a', base), b[0], ToNat(b', base), p);
      } else if a[0] > b[0] {
        LeadingDigitDecides(b[0], ToNat(b', base), a[0], ToNat(a', base), p);
      }
    }
  }

  /** `k` copies of `x`. */
  function Rep<T>(k: nat, x: T): (s: seq<T>)
    ensures |s| == k && forall i :: 0 <= i < k ==> s[i] == x
  {
    seq(k, _ => x)
  }

  /** A string of zero digits is worth zero. */
  lemma {:induction false} ToNatZeros(k: nat, base: nat)
    requires base >= 1
    ensures IsDigits(Rep(k, 0), base) && ToNat(Rep(k, 0), base) == 0
  {
    if k > 0 {
      assert Rep(k, 0)[..k - 1] == Rep(k - 1, 0);
      ToNatZeros(k - 1, base);
    }
  }

  /** A string of `k` top digits is one less than `base` to the `k`. */
  lemma {:induction false} ToNatMaxes(k: nat, base: nat)
    requires base >= 1
    ensures IsDigits(Rep(k, base - 1), base) && ToNat(Rep(k, base - 1), base) == Pow(base, k) - 1
  {
    if k > 0 {
      var p := Pow(base, k - 1);
      assert Rep(k, base - 1)[..k - 1] == Rep(k - 1, base - 1);
      ToNatMaxes(k - 1, base);
      assert ToNat(Rep(k, base - 1), base) == (p - 1) * base + (base - 1);
      ShiftDistributes(1, p, -1, base);
      assert Pow(base, k) == base * p;
    }
  }

  /** The character codes of a string; strings compare by these. */
  function Codes(s: string): (c: seq<int>)
    ensures |c| == |s| && forall i :: 0 <= i < |s| ==> c[i] == s[i] as int
  {
    seq(|s|, i requires 0 <= i < |s| => s[i] as int)
  }

  lemma CodesAppend(s: string, t: string)
    ensures Codes(s + t) == Codes(s) + Codes(t)
  {
  }

  lemma CodesInjective(s: string, t: string)
    requires Codes(s) == Codes(t)
    ensures s == t
  {
    assert |s| == |t|;
    forall i | 0 <= i < |s| ensures s[i] == t[i] {
      assert Codes(s)[i] == Codes(t)[i];
    }
  }

  /** String order by character code, as Rust's `str` comparison orders ASCII text. */
  predicate StrLess(s: string, t: string) {
    LexLess(Codes(s), Codes(t))
  }
}
