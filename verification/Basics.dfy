/** Bytes, little-endian values, and the few facts on sets and products that several parts need. */
module Basics {

  type Byte = b: nat | b < 256
  type Word = w: nat | w < 0x1_0000_0000_0000_0000

  datatype Option<T> = None | Some(value: T)

  // ----- byte sequences -----

  function Zeros(n: nat): (s: seq<Byte>)
    ensures |s| == n && forall i :: 0 <= i < n ==> s[i] == 0
  {
    seq<Byte>(n, i => 0)
  }

  function Written(s: seq<Byte>, i: nat, b: Byte): (r: seq<Byte>)
    requires i < |s|
    ensures |r| == |s| && r[i] == b && forall j :: 0 <= j < |s| && j != i ==> r[j] == s[j]
  {
    s[i := b]
  }

  /** Only the bytes of the patch change. */
  function Patched(s: seq<Byte>, pos: nat, data: seq<Byte>): (r: seq<Byte>)
    requires pos + |data| <= |s|
    ensures |r| == |s|
    ensures forall i :: 0 <= i < |s| ==> r[i] == if pos <= i < pos + |data| then data[i - pos] else s[i]
  {
    s[..pos] + data + s[pos + |data|..]
  }

  // ----- little-endian -----

  function ToBytes(x: nat, n: nat): (s: seq<Byte>)
    ensures |s| == n
  {
    if n == 0 then [] else [x % 256] + ToBytes(x / 256, n - 1)
  }

  function FromBytes(s: seq<Byte>): nat { if s == [] then 0 else s[0] + 256 * FromBytes(s[1..]) }

  function Power256(n: nat): (p: nat)
    ensures p > 0
  {
    if n == 0 then 1 else 256 * Power256(n - 1)
  }

  /** The n low bytes carry the value modulo 256^n. */
  lemma {:induction false} ValueOfBytes(x: nat, n: nat)
    ensures FromBytes(ToBytes(x, n)) == x % Power256(n)
  {
    if n > 0 {
      ValueOfBytes(x / 256, n - 1);
      assert ToBytes(x, n)[1..] == ToBytes(x / 256, n - 1);
      SplitRemainder(x, Power256(n - 1));
    }
  }

  /** Byte k of a value is its k-th digit to the base 256, the lowest first. */
  lemma {:induction false} ByteOfValue(x: nat, n: nat, k: nat)
    requires k < n
    ensures ToBytes(x, n)[k] == x / Power256(k) % 256
  {
    if k > 0 {
      ByteOfValue(x / 256, n - 1, k - 1);
      QuotientSplits(x, Power256(k - 1));
    }
  }

  lemma QuotientSplits(x: nat, m: nat)
    requires m > 0
    ensures x / 256 / m == x / (256 * m)
  {
    var q, r := x / (256 * m), x % (256 * m);
    SplitRemainder(x, m);
    assert x == 256 * (m * q + x / 256 % m) + x % 256;
    assert x / 256 == m * q + x / 256 % m;
    QuotientIs(x / 256, m, q, x / 256 % m);
  }

  lemma QuotientIs(x: nat, n: nat, q: nat, r: nat)
    requires n > 0 && x == n * q + r && r < n
    ensures x / n == q
  {
    var q', r' := x / n, x % n;
    assert n * q' + r' == n * q + r;
    TimesGrows(n, q + 1, q');
    TimesGrows(n, q' + 1, q);
  }

  lemma DigitAndRest(b: Byte, rest: nat)
    ensures (b + 256 * rest) % 256 == b && (b + 256 * rest) / 256 == rest
  {
  }

  /** And bytes come back from their value. */
  lemma {:induction false} BytesOfValue(s: seq<Byte>)
    ensures ToBytes(FromBytes(s), |s|) == s
  {
    if s != [] {
      BytesOfValue(s[1..]);
      DigitAndRest(s[0], FromBytes(s[1..]));
      assert s == [s[0]] + s[1..];
    }
  }

  lemma SplitRemainder(x: nat, m: nat)
    requires m > 0
    ensures x % (256 * m) == x % 256 + 256 * (x / 256 % m)
  {
    var q, r := x / 256 / m, x / 256 % m;
    assert x / 256 == m * q + r;
    assert x == 256 * (m * q + r) + x % 256;
    assert x == (256 * m) * q + (256 * r + x % 256);
    assert 256 * r + x % 256 < 256 * m;
    RemainderIs(x, 256 * m, q, 256 * r + x % 256);
  }

  lemma FieldPowers()
    ensures Power256(1) == 0x100 && Power256(2) == 0x1_0000 && Power256(4) == 0x1_0000_0000
    ensures Power256(5) == 0x100_0000_0000 && Power256(8) == 0x1_0000_0000_0000_0000
  {
    assert Power256(3) == 0x100_0000;
    assert Power256(6) == 0x1_0000_0000_0000;
    assert Power256(7) == 0x100_0000_0000_0000;
  }

  /** A word comes back from its eight bytes. */
  lemma WordOfBytes(x: Word)
    ensures FromBytes(ToBytes(x, 8)) == x
  {
    ValueOfBytes(x, 8);
    FieldPowers();
  }

  // ----- numbers and sets -----

  predicate PowerOfTwo(n: nat) { n == 1 || (n > 1 && n % 2 == 0 && PowerOfTwo(n / 2)) }

  lemma RemainderIs(x: nat, n: nat, q: nat, r: nat)
    requires n > 0 && x == n * q + r && r < n
    ensures x % n == r
  {
    var q', r' := x / n, x % n;
    assert n * q' + r' == n * q + r;
    TimesGrows(n, q + 1, q');
    TimesGrows(n, q' + 1, q);
  }

  lemma TimesGrows(n: nat, a: nat, b: nat)
    ensures a <= b ==> n * a <= n * b
  {
  }

  ghost predicate Distinct<T>(s: seq<T>) { forall i, j :: 0 <= i < j < |s| ==> s[i] != s[j] }

  lemma {:induction false} SubsetSize<T>(a: set<T>, b: set<T>)
    requires a <= b
    ensures |a| <= |b|
    decreases a
  {
    if a != {} {
      var x :| x in a;
      SubsetSize(a - {x}, b - {x});
    }
  }

  // ----- bits -----

  /** Bitwise exclusive or, from the lowest bit up. */
  function Xor(a: nat, b: nat): nat {
    if a == 0 && b == 0 then 0
    else (if a % 2 == b % 2 then 0 else 1) + 2 * Xor(a / 2, b / 2)
  }

  function Pow2(k: nat): nat { if k == 0 then 1 else 2 * Pow2(k - 1) }

  lemma {:induction false} Pow2Add(a: nat, b: nat)
    ensures Pow2(a + b) == Pow2(a) * Pow2(b)
  {
    if a > 0 { Pow2Add(a - 1, b); }
  }

  lemma Pow2Of4()
    ensures Pow2(4) == 16
  {
    assert Pow2(1) == 2;
    assert Pow2(2) == 4;
  }

  lemma Pow2Of64()
    ensures Pow2(64) == 0x1_0000_0000_0000_0000
  {
    hide Pow2;
    Pow2Of4();
    Pow2Add(4, 4);
    Pow2Add(8, 8);
    Pow2Add(16, 16);
    Pow2Add(32, 32);
  }

  lemma {:induction false} XorFits(a: nat, b: nat, k: nat)
    requires a < Pow2(k) && b < Pow2(k)
    ensures Xor(a, b) < Pow2(k)
  {
    if k > 0 { XorFits(a / 2, b / 2, k - 1); }
  }
}
