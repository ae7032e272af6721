/** Small facts about text and powers that more than one format needs. */
module Text {

  function Pow(base: nat, n: nat): nat {
    if n == 0 then 1 else base * Pow(base, n - 1)
  }

  // ---- division -------------------------------------------------------

  function Product(a: nat, b: nat): (p: nat)
  {
    MultiplyNatural(a, b);
    a * b
  }

  lemma MultiplyNatural(a: nat, b: nat)
    ensures a * b >= 0
  {
  }

  lemma DivisionOf(n: nat, period: nat)
    requires period > 0
    ensures n == Product(period, n / period) + n % period && n % period < period
  {
  }

  lemma ProductNext(a: nat, b: nat)
    ensures Product(a, b + 1) == Product(a, b) + a
  {
  }

  lemma {:induction false} ProductGrows(a: nat, b: nat, c: nat)
    requires b < c
    ensures Product(a, b) + a <= Product(a, c)
    decreases c
  {
    ProductNext(a, c - 1);
    hide Product;
    if b < c - 1 {
      ProductGrows(a, b, c - 1);
    }
  }

  lemma {:induction false} DivideExactly(n: nat, period: nat, q: nat, r: nat)
    requires r < period && n == Product(period, q) + r
    ensures n / period == q
  {
    DivisionOf(n, period);
    hide Product;
    var d := n / period;
    if d < q {
      ProductGrows(period, d, q);
    } else if d > q {
      ProductGrows(period, q, d);
    }
  }

  /** Dividing by thirty-one and then by `p` is dividing by their product. */
  lemma DivideTwice(n: nat, p: nat)
    requires p > 0
    ensures n / 31 / p == n / (31 * p)
  {
    var q := n / 31;
    DivisionOf(q, p);
    ProductOfThirtyOne(p, q / p);
    DivideExactly(n, 31 * p, q / p, 31 * (q % p) + n % 31);
  }

  lemma ProductOfThirtyOne(p: nat, s: nat)
    ensures Product(31 * p, s) == 31 * Product(p, s)
  {
  }

  // ---- characters -----------------------------------------------------

  /** The characters Unicode calls white space. */
  predicate IsWhitespace(c: char) {
    var n := c as int;
    || 0x9 <= n <= 0xD || n == 0x20 || n == 0x85 || n == 0xA0 || n == 0x1680 || 0x2000 <= n <= 0x200A
    || n == 0x2028 || n == 0x2029 || n == 0x202F || n == 0x205F || n == 0x3000
  }

  function Reversed<T>(s: seq<T>): seq<T> {
    if s == [] then [] else Reversed(s[1..]) + [s[0]]
  }

  lemma {:induction false} ReversedAppend<T>(s: seq<T>, x: T)
    ensures Reversed(s + [x]) == [x] + Reversed(s)
  {
    if s != [] {
      assert (s + [x])[1..] == s[1..] + [x];
      ReversedAppend(s[1..], x);
    } else {
      assert s + [x] == [x] && [x][1..] == [];
    }
  }

  // ---- decimals -------------------------------------------------------

  function Figure(d: nat): char
    requires d < 10
  {
    '0' + d as char
  }

  /** The shortest decimal spelling. */
  function Decimal(n: nat): (text: string)
    ensures |text| > 0
  {
    if n < 10 then [Figure(n)] else Decimal(n / 10) + [Figure(n % 10)]
  }

  function Zeros(n: nat): (text: string)
    ensures |text| == n
  {
    if n == 0 then "" else Zeros(n - 1) + "0"
  }

  /** The decimal spelling, filled with zeros on the left up to `width`. */
  function Padded(n: nat, width: nat): string {
    var text := Decimal(n);
    if |text| >= width then text else Zeros(width - |text|) + text
  }

  predicate AllFigures(text: string) {
    forall k :: 0 <= k < |text| ==> '0' <= text[k] <= '9'
  }

  /** The number a text of figures spells. */
  function Spelled(text: string): nat
    requires AllFigures(text)
  {
    if text == "" then 0 else Spelled(text[..|text| - 1]) * 10 + (text[|text| - 1] - '0') as nat
  }

  lemma {:induction false} DecimalSpells(n: nat, width: nat)
    requires 0 < width && n < Pow(10, width)
    ensures |Decimal(n)| <= width && AllFigures(Decimal(n)) && Spelled(Decimal(n)) == n
  {
    if n >= 10 {
      assert Pow(10, 1) == 10 * Pow(10, 0);
      DecimalSpells(n / 10, width - 1);
      var text := Decimal(n);
      assert text[..|text| - 1] == Decimal(n / 10);
    } else {
      assert Spelled("") == 0;
      assert Decimal(n)[..0] == "";
    }
  }

  lemma {:induction false} ZerosSpellNothing(k: nat, text: string)
    requires AllFigures(text)
    ensures AllFigures(Zeros(k) + text) && Spelled(Zeros(k) + text) == Spelled(text)
    decreases |text|, k
  {
    if text != "" {
      var high := text[..|text| - 1];
      ZerosSpellNothing(k, high);
      var all := Zeros(k) + text;
      assert all[..|all| - 1] == Zeros(k) + high;
      assert AllFigures(all) by {
        forall i | 0 <= i < |all| ensures '0' <= all[i] <= '9' {
          if i < |all| - 1 { assert all[i] == (Zeros(k) + high)[i]; }
        }
      }
    } else if k > 0 {
      ZerosSpellNothing(k - 1, "");
      assert Zeros(k) + "" == (Zeros(k - 1) + "") + "0";
      var all := Zeros(k) + "";
      assert all[..|all| - 1] == Zeros(k - 1) + "";
    } else {
      assert Zeros(0) + text == text;
    }
  }

  lemma PaddedSpells(n: nat, width: nat)
    requires 0 < width && n < Pow(10, width)
    ensures |Padded(n, width)| == width && AllFigures(Padded(n, width)) && Spelled(Padded(n, width)) == n
  {
    DecimalSpells(n, width);
    var text := Decimal(n);
    if |text| < width {
      ZerosSpellNothing(width - |text|, text);
    }
  }

  function SignedDecimal(n: int): (text: string)
    ensures |text| > 0
  {
    if n < 0 then "-" + Decimal(-n) else Decimal(n)
  }

  lemma {:induction false} PowExceeds(n: nat)
    ensures n < Pow(10, n)
  {
    if n > 0 { PowExceeds(n - 1); }
  }

  /** Two numbers have one spelling only when they are one number. */
  lemma SignedDecimalPins(a: int, b: int)
    ensures SignedDecimal(a) == SignedDecimal(b) <==> a == b
    ensures forall k :: 0 <= k < |SignedDecimal(a)| ==> SignedDecimal(a)[k] != '\n'
  {
    var x: nat, y: nat := if a < 0 then -a else a, if b < 0 then -b else b;
    PowExceeds(x);
    PowExceeds(y);
    DecimalSpells(x, x + 1) by { assert Pow(10, x + 1) == 10 * Pow(10, x); }
    DecimalSpells(y, y + 1) by { assert Pow(10, y + 1) == 10 * Pow(10, y); }
    if SignedDecimal(a) == SignedDecimal(b) {
      assert SignedDecimal(a)[0] == '-' <==> a < 0;
      assert SignedDecimal(b)[0] == '-' <==> b < 0;
      if a < 0 {
        assert SignedDecimal(a)[1..] == Decimal(x);
        assert SignedDecimal(b)[1..] == Decimal(y);
      }
    }
  }
}
