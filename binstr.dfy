/**
 * `to_bin_str(n, digit_num)` (include/poac/core/resolver.hpp, lines 141-151) and the
 * bit arithmetic that `boost::dynamic_bitset` performs on its result (lines 216-229).
 */
module BinStr {

  function Pow2(d: nat): (r: nat)
    ensures r > 0
  {
    if d == 0 then 1 else 2 * Pow2(d - 1)
  }

  /** `'0' + b` for a bit `b`. */
  function BitChar(b: nat): char
  {
    if b == 0 then '0' else '1'
  }

  function Digit(c: char): nat
  {
    if c == '1' then 1 else 0
  }

  predicate IsBinary(s: string)
  {
    forall i :: 0 <= i < |s| ==> s[i] == '0' || s[i] == '1'
  }

  /** Bit `i` of `n` (`(n >> i) & 1`). */
  function Bit(n: nat, i: nat): (b: nat)
    ensures b <= 1
  {
    if i == 0 then n % 2 else Bit(n / 2, i - 1)
  }

  /** The number of one bits among the low `d` bits of `n`. */
  function PopCount(n: nat, d: nat): nat
  {
    if d == 0 then 0 else n % 2 + PopCount(n / 2, d - 1)
  }

  /** The characters pushed by the `while (n > 0)` loop: least significant bit first. */
  function LsbDigits(n: nat): string
  {
    if n == 0 then [] else [BitChar(n % 2)] + LsbDigits(n / 2)
  }

  /** `str.resize(d, '0')`: truncate to `d` characters or pad with `'0'`. */
  function Resize(s: string, d: nat): (r: string)
    ensures |r| == d
  {
    if |s| >= d then s[..d] else s + seq(d - |s|, _ => '0')
  }

  function Reverse(s: string): (r: string)
    ensures |r| == |s|
  {
    if s == [] then [] else Reverse(s[1..]) + [s[0]]
  }

  /** The string `to_bin_str(n, d)` returns. */
  function BinStr(n: nat, d: nat): string
  {
    Reverse(Resize(LsbDigits(n), d))
  }

  /** The binary value of a string read most significant character first. */
  function MsbValue(s: string): nat
  {
    if s == [] then 0 else 2 * MsbValue(s[..|s| - 1]) + Digit(s[|s| - 1])
  }

  /** The binary value of a string read least significant character first. */
  function LsbValue(s: string): nat
  {
    if s == [] then 0 else Digit(s[0]) + 2 * LsbValue(s[1..])
  }

  /** The number of `'1'` characters in `s` (`dynamic_bitset::count`). */
  function Ones(s: string): nat
  {
    if s == [] then 0 else Digit(s[0]) + Ones(s[1..])
  }

  /** The low `d` bits of `n`, least significant first. */
  function LowBits(n: nat, d: nat): (r: string)
    ensures |r| == d
  {
    if d == 0 then [] else [BitChar(n % 2)] + LowBits(n / 2, d - 1)
  }

  /** `to_bin_str` as the source writes it: the loop, the resize and the reverse. */
  method ToBinStr(n: nat, digitNum: nat) returns (str: string)
    ensures str == BinStr(n, digitNum)
    ensures |str| == digitNum && IsBinary(str) && MsbValue(str) == n % Pow2(digitNum)
  {
    var m := n;
    str := [];
    while m > 0
      invariant str + LsbDigits(m) == LsbDigits(n)
      decreases m
    {
      assert LsbDigits(m) == [BitChar(m % 2)] + LsbDigits(m / 2);
      assert str + LsbDigits(m) == (str + [BitChar(m % 2)]) + LsbDigits(m / 2);
      str := str + [BitChar(m % 2)];
      m := m / 2;
    }
    assert str == LsbDigits(n);
    str := Resize(str, digitNum);
    str := Reverse(str);
    BinStrProperties(n, digitNum);
  }

  lemma {:induction false} ResizeIsLowBits(n: nat, d: nat)
    ensures Resize(LsbDigits(n), d) == LowBits(n, d)
  {
    if d > 0 {
      ResizeIsLowBits(n / 2, d - 1);
      if n == 0 {
        assert LsbDigits(0) == [];
        assert Resize([], d) == ['0'] + Resize([], d - 1);
      } else {
        var t := LsbDigits(n / 2);
        assert LsbDigits(n) == [BitChar(n % 2)] + t;
        if |t| >= d - 1 {
          assert ([BitChar(n % 2)] + t)[..d] == [BitChar(n % 2)] + t[..d - 1];
        } else {
          assert ([BitChar(n % 2)] + t) + seq(d - 1 - |t|, _ => '0')
              == [BitChar(n % 2)] + (t + seq(d - 1 - |t|, _ => '0'));
        }
      }
    }
  }

  lemma {:induction false} ReverseAt(s: string, i: nat)
    requires i < |s|
    ensures |Reverse(s)| == |s| && Reverse(s)[|s| - 1 - i] == s[i]
  {
    if i > 0 {
      ReverseAt(s[1..], i - 1);
    } else if |s| > 1 {
      ReverseAt(s[1..], 0);
    }
  }

  lemma {:induction false} LowBitsAt(n: nat, d: nat, i: nat)
    requires i < d
    ensures LowBits(n, d)[i] == BitChar(Bit(n, i))
  {
    if i > 0 {
      LowBitsAt(n / 2, d - 1, i - 1);
    }
  }

  /** Division with remainder is unique. */
  lemma DivModUnique(n: int, m: int, k: int, r: int)
    requires m > 0 && 0 <= r < m && n == m * k + r
    ensures n % m == r
  {
    var e := k - n / m;
    assert m * e == n % m - r by {
      assert m * e == m * k - m * (n / m);
    }
  }

  /** n = 2q + b and q = m k + r give n mod 2m = 2r + b. */
  lemma ModDouble(n: nat, m: nat)
    requires m > 0
    ensures n % 2 + 2 * ((n / 2) % m) == n % (2 * m)
  {
    var q, b := n / 2, n % 2;
    var k, r := q / m, q % m;
    assert q == m * k + r;
    assert n == (2 * m) * k + (2 * r + b) by {
      assert n == 2 * q + b;
      assert 2 * (m * k) == (2 * m) * k;
    }
    DivModUnique(n, 2 * m, k, 2 * r + b);
  }

  lemma {:induction false} LowBitsValue(n: nat, d: nat)
    ensures LsbValue(LowBits(n, d)) == n % Pow2(d)
  {
    if d > 0 {
      LowBitsValue(n / 2, d - 1);
      assert LowBits(n, d)[1..] == LowBits(n / 2, d - 1);
      ModDouble(n, Pow2(d - 1));
    }
  }

  lemma {:induction false} ReverseValue(s: string)
    ensures MsbValue(Reverse(s)) == LsbValue(s)
  {
    if s != [] {
      ReverseValue(s[1..]);
      var r := Reverse(s);
      assert r[..|r| - 1] == Reverse(s[1..]);
    }
  }

  lemma {:induction false} OnesConcat(a: string, b: string)
    ensures Ones(a + b) == Ones(a) + Ones(b)
  {
    if a != [] {
      OnesConcat(a[1..], b);
      assert (a + b)[1..] == a[1..] + b;
    } else {
      assert a + b == b;
    }
  }

  lemma {:induction false} ReverseOnes(s: string)
    ensures Ones(Reverse(s)) == Ones(s)
  {
    if s != [] {
      ReverseOnes(s[1..]);
      OnesConcat(Reverse(s[1..]), [s[0]]);
    }
  }

  lemma {:induction false} LowBitsOnes(n: nat, d: nat)
    ensures Ones(LowBits(n, d)) == PopCount(n, d)
  {
    if d > 0 {
      LowBitsOnes(n / 2, d - 1);
      assert LowBits(n, d)[1..] == LowBits(n / 2, d - 1);
    }
  }

  /** What `to_bin_str(n, d)` promises: exactly `d` characters, each `'0'` or `'1'`, most
      significant first, with binary value `n mod 2^d`; the character `d - 1 - i` (bit
      `i` of the bitset built from it) is bit `i` of `n`; and its count of ones is the
      count of one bits among the low `d` bits of `n`. */
  lemma BinStrProperties(n: nat, d: nat)
    ensures |BinStr(n, d)| == d && IsBinary(BinStr(n, d))
    ensures MsbValue(BinStr(n, d)) == n % Pow2(d)
    ensures forall i :: 0 <= i < d ==> BinStr(n, d)[d - 1 - i] == BitChar(Bit(n, i))
    ensures Ones(BinStr(n, d)) == PopCount(n, d)
  {
    ResizeIsLowBits(n, d);
    var low := LowBits(n, d);
    forall i | 0 <= i < d ensures BinStr(n, d)[d - 1 - i] == BitChar(Bit(n, i)) {
      ReverseAt(low, i);
      LowBitsAt(n, d, i);
    }
    forall j | 0 <= j < d ensures BinStr(n, d)[j] == '0' || BinStr(n, d)[j] == '1' {
      ReverseAt(low, d - 1 - j);
      LowBitsAt(n, d, d - 1 - j);
    }
    if d > 0 { ReverseAt(low, 0); }
    LowBitsValue(n, d);
    ReverseValue(low);
    LowBitsOnes(n, d);
    ReverseOnes(low);
  }
}
