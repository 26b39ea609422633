/** The number a generated row denotes once the array is compiled. A C# binary
    literal `0b…` is read most significant digit first, so the leftmost pixel of a
    row lands in bit 15 of the `ushort` and the rightmost in bit 0. */
module SpriteRowMask {
  import opened SpriteImage
  import opened SpriteConversion

  function Pow2(n: nat): (r: nat)
    ensures r >= 1
  {
    if n == 0 then 1 else 2 * Pow2(n - 1)
  }

  function DigitValue(c: char): (v: nat)
    ensures v < 2
    ensures v == 1 <==> c == '1'
  {
    if c == '1' then 1 else 0
  }

  /** The value of a string of binary digits, most significant digit first. */
  function BinaryValue(digits: string): (v: nat) {
    if digits == [] then 0
    else 2 * BinaryValue(digits[..|digits| - 1]) + DigitValue(digits[|digits| - 1])
  }

  /** The value a row string `0b…` stands for. */
  function RowMask(row: string): (v: nat)
    requires |row| >= |ROW_PREFIX|
  {
    BinaryValue(row[|ROW_PREFIX|..])
  }

  /** Integer division has a unique quotient. */
  lemma DivUnique(a: nat, m: nat, q: nat)
    requires m > 0 && q * m <= a < q * m + m
    ensures a / m == q
  {
    var q', r' := a / m, a % m;
    assert a == q' * m + r' && 0 <= r' < m;
    var d := q' - q;
    assert d * m == q' * m - q * m;
    assert d * m == (a - q * m) - r';
  }

  /** Appending one binary digit and dividing by twice `p` is dividing by `p`. */
  lemma ShiftedQuotient(v: nat, b: nat, p: nat)
    requires b < 2 && p > 0
    ensures (2 * v + b) / (2 * p) == v / p
  {
    var q, r := v / p, v % p;
    assert v == q * p + r && r < p;
    assert 2 * v + b == q * (2 * p) + (2 * r + b);
    DivUnique(2 * v + b, 2 * p, q);
  }

  /** `n` binary digits denote a number smaller than `2^n`. */
  lemma {:induction false} BinaryValueBound(digits: string)
    ensures BinaryValue(digits) < Pow2(|digits|)
  {
    if digits != [] {
      BinaryValueBound(digits[..|digits| - 1]);
    }
  }

  /** Digit `x` of `n` digits is bit `n - 1 - x` of their value. */
  lemma {:induction false} BinaryValueBit(digits: string, x: nat)
    requires x < |digits|
    ensures BinaryValue(digits) / Pow2(|digits| - 1 - x) % 2 == DigitValue(digits[x])
  {
    var n := |digits|;
    var front := digits[..n - 1];
    var b := DigitValue(digits[n - 1]);
    if x < n - 1 {
      BinaryValueBit(front, x);
      ShiftedQuotient(BinaryValue(front), b, Pow2(n - 2 - x));
      assert front[x] == digits[x];
    }
  }

  /** Every generated row fits in a `ushort`, and bit `15 - x` of row `y` is set exactly
      when pixel `(x, y)` has alpha at least 128. */
  lemma RowMaskBits(img: Image, y: nat, x: nat)
    requires img.Valid() && Convert(img).Ok?
    requires y < SPRITE_SIZE && x < SPRITE_SIZE
    ensures |Convert(img).value[y]| == 18
    ensures RowMask(Convert(img).value[y]) < 65536
    ensures RowMask(Convert(img).value[y]) / Pow2(15 - x) % 2 == 1 <==> img.Alpha(x, y) >= 128
  {
    ConvertRows(img);
    var row := Convert(img).value[y];
    var digits := row[2..];
    BinaryValueBound(digits);
    assert Pow2(16) == 65536;
    BinaryValueBit(digits, x);
    assert digits[x] == row[2 + x];
    assert row[2 + x] == '1' <==> img.Alpha(2 + x - 2, y) >= 128;
  }
}
