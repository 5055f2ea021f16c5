// Bytes and the little-endian layout MTProto uses for every integer.
module Bytes {

  type byte = x: int | 0 <= x < 256

  /// 256 to the power w: the number of distinct w-byte patterns.
  function Pow256(w: nat): (r: nat)
    ensures r > 0
  {
    if w == 0 then 1 else 256 * Pow256(w - 1)
  }

  /// The w lowest bytes of n, least significant first (byteorder's LittleEndian).
  function LE(n: nat, w: nat): (r: seq<byte>)
    ensures |r| == w
  {
    seq(w, i requires 0 <= i < w => (n / Pow256(i)) % 256)
  }

  /// The lowest byte of n comes first, then the bytes of the rest.
  lemma LESplit(n: nat, w: nat)
    requires w > 0
    ensures LE(n, w) == [n % 256] + LE(n / 256, w - 1)
  {
    forall i | 1 <= i < w
      ensures LE(n, w)[i] == LE(n / 256, w - 1)[i - 1]
    {
      DivDiv(n, 256, Pow256(i - 1));
    }
  }

  lemma DivDiv(n: nat, a: nat, b: nat)
    requires a > 0 && b > 0
    ensures n / (a * b) == (n / a) / b
  {
    var q := (n / a) / b;
    var r := (n / a) % b;
    assert n == a * (n / a) + n % a;
    assert n / a == b * q + r;
    assert n == (a * b) * q + (a * r + n % a);
    assert a * r + n % a < a * b by {
      assert r <= b - 1;
      assert a * r <= a * (b - 1);
    }
    ModUnique(n, a * b, q, a * r + n % a);
  }

  /// The number a little-endian byte string stands for.
  function FromLE(s: seq<byte>): (r: nat)
    ensures r < Pow256(|s|)
  {
    if s == [] then 0 else s[0] + 256 * FromLE(s[1..])
  }

  function Zeros(k: nat): (r: seq<byte>)
    ensures |r| == k
    ensures forall i :: 0 <= i < k ==> r[i] == 0
  {
    seq(k, i requires 0 <= i < k => 0)
  }

  predicate AllZero(s: seq<byte>)
  {
    forall i :: 0 <= i < |s| ==> s[i] == 0
  }

  /// Splitting n by its lowest byte: n mod 256^(w+1) is that byte plus 256 times
  /// the rest taken mod 256^w.
  lemma ModSplit(n: nat, w: nat)
    ensures n % Pow256(w + 1) == n % 256 + 256 * ((n / 256) % Pow256(w))
  {
    var p := Pow256(w);
    var q, b := n / 256, n % 256;
    var a, c := q / p, q % p;
    assert n == 256 * q + b;
    assert q == p * a + c;
    assert n == (256 * p) * a + (256 * c + b);
    assert 0 <= 256 * c + b < 256 * p;
    ModUnique(n, 256 * p, a, 256 * c + b);
  }

  lemma ModUnique(n: nat, m: nat, a: nat, c: nat)
    requires m > 0 && c < m && n == m * a + c
    ensures n % m == c && n / m == a
  {
    var q, r := n / m, n % m;
    assert m * q + r == m * a + c;
    if q > a {
      assert m * (q - a) == c - r;
      MulAtLeast(m, q - a);
    } else if q < a {
      assert m * (a - q) == r - c;
      MulAtLeast(m, a - q);
    }
  }

  lemma MulAtLeast(m: nat, k: nat)
    requires k >= 1
    ensures m * k >= m
  {
  }

  /// Reading back w bytes written from n gives n modulo 256^w.
  lemma {:induction false} FromLEofLE(n: nat, w: nat)
    ensures FromLE(LE(n, w)) == n % Pow256(w)
  {
    if w > 0 {
      FromLEofLE(n / 256, w - 1);
      LESplit(n, w);
      assert LE(n, w)[1..] == LE(n / 256, w - 1);
      ModSplit(n, w - 1);
    }
  }

  /// Writing back the number a byte string stands for, at the same width, gives
  /// the byte string.
  lemma {:induction false} LEofFromLE(s: seq<byte>)
    ensures LE(FromLE(s), |s|) == s
  {
    if s != [] {
      var n := FromLE(s);
      assert n % 256 == s[0] && n / 256 == FromLE(s[1..]) by {
        ModUnique(n, 256, FromLE(s[1..]), s[0]);
      }
      LEofFromLE(s[1..]);
      LESplit(n, |s|);
    }
  }

  /// Writing a byte string's number back at a greater width appends zeros.
  lemma LEWiden(t: seq<byte>, w: nat)
    requires |t| <= w
    ensures LE(FromLE(t), w) == t + Zeros(w - |t|)
  {
    var n := FromLE(t);
    LEofFromLE(t);
    forall i | 0 <= i < w
      ensures LE(n, w)[i] == (t + Zeros(w - |t|))[i]
    {
      if i < |t| {
        assert LE(n, w)[i] == LE(n, |t|)[i];
      } else {
        Pow256Grows(|t|, i);
        ModUnique(n, Pow256(i), 0, n);
      }
    }
  }

  lemma {:induction false} Pow256Grows(a: nat, b: nat)
    requires a <= b
    ensures Pow256(a) <= Pow256(b)
  {
    if a < b {
      Pow256Grows(a, b - 1);
    }
  }

  /// LE is injective on the numbers that fit.
  lemma LEInjective(m: nat, n: nat, w: nat)
    requires m < Pow256(w) && n < Pow256(w) && LE(m, w) == LE(n, w)
    ensures m == n
  {
    FromLEofLE(m, w);
    FromLEofLE(n, w);
    ModUnique(m, Pow256(w), 0, m);
    ModUnique(n, Pow256(w), 0, n);
  }
}
