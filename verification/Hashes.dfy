/** The two string hashes: `hashCode` with its colour code (`app-master/tools/util.js`), which leaves its accumulator
    unwrapped, and `hashKey` (`core-master/utils/musicoin-api.js`), which wraps it to 32 bits in every round. */
module Hashes {

  /** A UTF-16 code unit, as `charCodeAt` returns it. */
  type Unit = c: int | 0 <= c < 65536

  const WRAP: int := 4294967296
  const HALF: int := 2147483648

  ghost predicate Congruent(x: int, y: int) { (x - y) % WRAP == 0 }

  /** A multiple given by its factor. */
  lemma Multiple(x: int, y: int, factor: int)
    requires x - y == WRAP * factor
    ensures Congruent(x, y)
  {
  }

  /** JavaScript's conversion of an integral number to a signed 32-bit integer. */
  function ToInt32(x: int): (r: int)
    ensures -HALF <= r < HALF && r == x - WRAP * ((x + HALF) / WRAP)
  {
    (x + HALF) % WRAP - HALF
  }

  /** `x << 5`. */
  function ShiftLeft5(x: int): (r: int)
    ensures -HALF <= r < HALF
  {
    ToInt32(ToInt32(x) * 32)
  }

  /** The base-31 polynomial both loops evaluate. */
  function Polynomial(s: seq<Unit>): int {
    if s == [] then 0 else 31 * Polynomial(s[..|s| - 1]) + s[|s| - 1]
  }

  function HashCodeOf(s: seq<Unit>): int {
    if s == [] then 0
    else
      var h := HashCodeOf(s[..|s| - 1]);
      s[|s| - 1] + (ShiftLeft5(h) - h)
  }

  method HashCode(str: seq<Unit>) returns (hash: int)
    ensures hash == HashCodeOf(str)
    ensures Congruent(hash, Polynomial(str))
  {
    hash := 0;
    for i := 0 to |str|
      invariant hash == HashCodeOf(str[..i])
    {
      assert str[..i + 1][..i] == str[..i];
      hash := str[i] + (ShiftLeft5(hash) - hash);
    }
    assert str[..|str|] == str;
    HashCodeIsPolynomial(str);
  }

  method HashKey(key: seq<Unit>) returns (hash: int)
    ensures hash == ToInt32(Polynomial(key))
    ensures hash == ToInt32(HashCodeOf(key))
  {
    hide Congruent, ShiftLeft5, ToInt32;
    hash := 0;
    Zero32();
    for i := 0 to |key|
      invariant hash == ToInt32(Polynomial(key[..i]))
    {
      assert key[..i + 1][..i] == key[..i];
      ghost var p := Polynomial(key[..i]);
      ToInt32IsCongruent(p);
      RoundIsPolynomialStep(hash, p, key[i]);
      hash := ShiftLeft5(hash) - hash + key[i];
      CongruentSameInt32(hash, 31 * p + key[i]);
      hash := ToInt32(hash);
    }
    assert key[..|key|] == key;
    HashCodeIsPolynomial(key);
    CongruentSameInt32(HashCodeOf(key), Polynomial(key));
  }

  lemma Zero32()
    ensures ToInt32(0) == 0
  {
  }

  lemma CongruentSameInt32(x: int, y: int)
    requires Congruent(x, y)
    ensures ToInt32(x) == ToInt32(y)
  {
    var q := (x - y) / WRAP;
    assert ToInt32(x) - ToInt32(y) == WRAP * (q - (x + HALF) / WRAP + (y + HALF) / WRAP);
  }

  lemma ToInt32IsCongruent(x: int)
    ensures Congruent(ToInt32(x), x)
  {
    Multiple(ToInt32(x), x, -((x + HALF) / WRAP));
  }

  lemma ShiftIsTimes32(x: int)
    ensures Congruent(ShiftLeft5(x), 32 * x)
  {
    var t := ToInt32(x);
    var a, b := (x + HALF) / WRAP, (32 * t + HALF) / WRAP;
    Multiple(ShiftLeft5(x), 32 * x, -(32 * a) - b);
  }

  /** One round is one step of the polynomial modulo 2^32. */
  lemma RoundIsPolynomialStep(h: int, p: int, c: int)
    requires Congruent(h, p)
    ensures Congruent(ShiftLeft5(h) - h + c, 31 * p + c)
  {
    hide ShiftLeft5;
    ShiftIsTimes32(h);
    var a, b := (ShiftLeft5(h) - 32 * h) / WRAP, (h - p) / WRAP;
    Multiple(ShiftLeft5(h) - h + c, 31 * p + c, a + 31 * b);
  }

  lemma {:induction false} HashCodeIsPolynomial(s: seq<Unit>)
    ensures Congruent(HashCodeOf(s), Polynomial(s))
  {
    hide Congruent, ShiftLeft5;
    if s == [] {
      Multiple(0, 0, 0);
    } else {
      HashCodeIsPolynomial(s[..|s| - 1]);
      RoundIsPolynomialStep(HashCodeOf(s[..|s| - 1]), Polynomial(s[..|s| - 1]), s[|s| - 1]);
    }
  }

  /** The hash of "ab", as in other languages. */
  lemma HashOfTwo()
    ensures HashCodeOf([97, 98]) == Polynomial([97, 98]) == 3105
  {
    var one, two: seq<Unit> := [97], [97, 98];
    assert two[..1] == one && one[..0] == [];
    assert HashCodeOf(one) == 97 && Polynomial(one) == 97;
    assert ShiftLeft5(97) == 3104;
  }

  // ---------- exactness in double precision ----------

  const EXACT: int := 9007199254740992  // 2^53
  const GROWTH: int := 2147549183       // what one round can add to the magnitude

  lemma {:induction false} HashCodeGrowsSlowly(s: seq<Unit>)
    ensures -|s| * GROWTH <= HashCodeOf(s) <= |s| * GROWTH
  {
    if s != [] {
      HashCodeGrowsSlowly(s[..|s| - 1]);
    }
  }

  /** Up to 2^21 code units (in fact a little under 2^22) no intermediate value leaves the range in which double
      precision is exact, so the integer model is what the program computes. */
  lemma HashCodeIsExact(s: seq<Unit>, i: nat)
    requires |s| <= 4194176 && i <= |s|
    ensures -EXACT <= HashCodeOf(s[..i]) <= EXACT
    ensures i < |s| ==> -EXACT <= ShiftLeft5(HashCodeOf(s[..i])) - HashCodeOf(s[..i]) <= EXACT
  {
    HashCodeGrowsSlowly(s[..i]);
  }

  // ---------- colour codes ----------

  const DIGITS: string := "0123456789ABCDEF"
  const COLOURS: int := 16777216

  /** `toString(16).toUpperCase()`. */
  function Hex(n: nat): (r: string)
    ensures |r| >= 1
  {
    if n < 16 then [DIGITS[n]] else Hex(n / 16) + [DIGITS[n % 16]]
  }

  /** `i & 0x00FFFFFF`. */
  function Low24(i: int): (r: nat)
    ensures r < COLOURS
  {
    i % COLOURS
  }

  function IntToRGB(i: int): string {
    var c := Hex(Low24(i));
    (if |c| <= 6 then "00000"[..if 6 - |c| > 5 then 5 else 6 - |c|] else "") + c
  }

  method GetColorCodeForString(str: seq<Unit>) returns (code: string)
    ensures |code| == 7 && code[0] == '#'
    ensures forall k :: 1 <= k < 7 ==> code[k] in DIGITS
    ensures HexValue(code[1..]) == Polynomial(str) % COLOURS
  {
    hide Congruent, IntToRGB;
    var hash := HashCode(str);
    code := "#" + IntToRGB(hash);
    RGBIsSixDigits(hash);
    assert code[1..] == IntToRGB(hash);
    WrapThenColour(hash, Polynomial(str));
  }

  function DigitValue(c: char): nat {
    if '0' <= c <= '9' then c as int - '0' as int
    else if 'A' <= c <= 'F' then c as int - 'A' as int + 10
    else 0
  }

  function HexValue(s: string): nat {
    if s == [] then 0 else 16 * HexValue(s[..|s| - 1]) + DigitValue(s[|s| - 1])
  }

  lemma DigitReadsBack(d: nat)
    requires d < 16
    ensures DigitValue(DIGITS[d]) == d && DIGITS[d] in DIGITS
  {
  }

  function Pow16(k: nat): nat { if k == 0 then 1 else 16 * Pow16(k - 1) }

  lemma {:induction false} HexMeaning(n: nat, k: nat)
    requires n < Pow16(k) && k >= 1
    ensures |Hex(n)| <= k && HexValue(Hex(n)) == n
    ensures forall i :: 0 <= i < |Hex(n)| ==> Hex(n)[i] in DIGITS
    decreases k
  {
    if n < 16 {
      DigitReadsBack(n);
      assert HexValue([DIGITS[n]]) == 16 * HexValue([]) + n by { assert [DIGITS[n]][..0] == []; }
    } else {
      assert k >= 2 by { assert Pow16(1) == 16 * Pow16(0); }
      HexMeaning(n / 16, k - 1);
      DigitReadsBack(n % 16);
      assert Hex(n)[..|Hex(n)| - 1] == Hex(n / 16);
    }
  }

  lemma {:induction false} ZerosDoNotCount(k: nat, s: string)
    requires k <= 5
    ensures HexValue("00000"[..k] + s) == HexValue(s)
    decreases |s|
  {
    var all := "00000"[..k] + s;
    if s == [] {
      assert all == "00000"[..k];
      ZerosAreZero(k);
    } else {
      ZerosDoNotCount(k, s[..|s| - 1]);
      assert all[..|all| - 1] == "00000"[..k] + s[..|s| - 1];
    }
  }

  lemma {:induction false} ZerosAreZero(k: nat)
    requires k <= 5
    ensures HexValue("00000"[..k]) == 0
  {
    if k > 0 {
      ZerosAreZero(k - 1);
      assert "00000"[..k][..k - 1] == "00000"[..k - 1] && "00000"[..k][k - 1] == '0';
    }
  }

  /** The colour is always six upper-case hexadecimal digits that encode the low 24 bits. */
  lemma RGBIsSixDigits(i: int)
    ensures |IntToRGB(i)| == 6 && HexValue(IntToRGB(i)) == i % COLOURS
    ensures forall k :: 0 <= k < 6 ==> IntToRGB(i)[k] in DIGITS
  {
    assert Pow16(6) == COLOURS by {
      assert Pow16(6) == 16 * Pow16(5) && Pow16(5) == 16 * Pow16(4) && Pow16(4) == 16 * Pow16(3);
      assert Pow16(3) == 16 * Pow16(2) && Pow16(2) == 16 * Pow16(1) && Pow16(1) == 16 * Pow16(0);
    }
    var c := Hex(Low24(i));
    HexMeaning(Low24(i), 6);
    ZerosDoNotCount(6 - |c|, c);
    assert DIGITS[0] == '0';
  }

  lemma WrapThenColour(x: int, y: int)
    requires Congruent(x, y)
    ensures x % COLOURS == y % COLOURS
  {
    var q := (x - y) / WRAP;
    assert x - y == COLOURS * (256 * q);
    assert x % COLOURS - y % COLOURS == COLOURS * (256 * q - x / COLOURS + y / COLOURS);
  }
}
