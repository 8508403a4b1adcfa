/**
 FNV-1a over 64-bit states: fold a byte in with exclusive or, then multiply by an
 odd prime modulo 2^64.
 */
module Fnv {
  import opened Basics

  /** A character of a text read as bytes. */
  type Byte = c: char | c as int < 256 witness 'a'
  type Text = seq<Byte>
  type Word = Basics.Word

  const OFFSET: Word := 14695981039346656037
  const PRIME: nat := 1099511628211

  // ----- one step -----

  /** Exclusive or is injective on either side. */
  lemma {:induction false} XorInjective(a: nat, b: nat, c: nat, d: nat)
    requires Xor(a, b) == Xor(c, d)
    ensures a == c <==> b == d
    decreases a + b + c + d
  {
    if a + b + c + d > 0 {
      XorInjective(a / 2, b / 2, c / 2, d / 2);
    }
  }

  function Mix(h: Word, b: Byte): Word {
    Xor(h, b as int) * PRIME % 0x1_0000_0000_0000_0000
  }

  /** The prime is odd, so multiplying by it is a bijection modulo 2^64. */
  lemma TimesPrimeInjective(x: Word, y: Word)
    requires x * PRIME % 0x1_0000_0000_0000_0000 == y * PRIME % 0x1_0000_0000_0000_0000
    ensures x == y
  {
    var m := 0x1_0000_0000_0000_0000;
    var k := x * PRIME / m - y * PRIME / m;
    assert (x - y) * PRIME == k * m;
    InverseUndoesPrime(x - y, k);
  }

  lemma InverseUndoesPrime(d: int, k: int)
    requires d * 1099511628211 == k * 0x1_0000_0000_0000_0000
    ensures d == 0x1_0000_0000_0000_0000 * (k * 14886173955864302971 - 887285111055 * d)
  {
  }

  lemma MixInput(h: Word, b: Byte)
    ensures Xor(h, b as int) < 0x1_0000_0000_0000_0000
  {
    hide Xor, Pow2;
    Pow2Of64();
    XorFits(h, b as int, 64);
  }

  /** One step is injective in the state and in the byte. */
  lemma MixInjective(x: Word, y: Word, a: Byte, b: Byte)
    requires Mix(x, a) == Mix(y, b)
    ensures x == y <==> a == b
  {
    hide Xor;
    MixInput(x, a);
    MixInput(y, b);
    TimesPrimeInjective(Xor(x, a as int), Xor(y, b as int));
    XorInjective(x, a as int, y, b as int);
  }

  // ----- a whole text -----

  function Absorb(h: Word, s: Text): Word
    decreases |s|
  {
    if s == [] then h else Absorb(Mix(h, s[0]), s[1..])
  }

  lemma {:induction false} AbsorbAppend(h: Word, s: Text, t: Text)
    ensures Absorb(h, s + t) == Absorb(Absorb(h, s), t)
    decreases |s|
  {
    hide Mix;
    if s == [] {
      assert s + t == t;
    } else {
      AbsorbAppend(Mix(h, s[0]), s[1..], t);
      assert (s + t)[1..] == s[1..] + t;
    }
  }

  lemma AbsorbPush(h: Word, s: Text, c: Byte)
    ensures Absorb(h, s + [c]) == Mix(Absorb(h, s), c)
  {
    hide Mix;
    AbsorbAppend(h, s, [c]);
    assert [c][1..] == [];
    assert Absorb(Absorb(h, s), [c]) == Absorb(Mix(Absorb(h, s), c), [c][1..]);
  }

  /** Reading a text is injective in the state it starts from. */
  lemma {:induction false} AbsorbInjective(x: Word, y: Word, s: Text)
    ensures Absorb(x, s) == Absorb(y, s) <==> x == y
    decreases |s|
  {
    hide Mix;
    if s != [] {
      AbsorbInjective(Mix(x, s[0]), Mix(y, s[0]), s[1..]);
      if Mix(x, s[0]) == Mix(y, s[0]) {
        MixInjective(x, y, s[0], s[0]);
      }
    }
  }

  ghost predicate DifferOnlyAt(s: Text, t: Text, k: nat) {
    && |s| == |t| && k < |s| && s[k] != t[k]
    && (forall i :: 0 <= i < |s| && i != k ==> s[i] == t[i])
  }

  /** Texts of one length that differ in exactly one byte never collide. */
  lemma OneByteChangesTheHash(h: Word, s: Text, t: Text, k: nat)
    requires DifferOnlyAt(s, t, k)
    ensures Absorb(h, s) != Absorb(h, t)
  {
    hide Mix;
    var pre, post := s[..k], s[k + 1..];
    assert s == pre + [s[k]] + post;
    assert t == pre + [t[k]] + post;
    AbsorbAppend(h, pre + [s[k]], post);
    AbsorbAppend(h, pre + [t[k]], post);
    AbsorbPush(h, pre, s[k]);
    AbsorbPush(h, pre, t[k]);
    var g := Absorb(h, pre);
    AbsorbInjective(Mix(g, s[k]), Mix(g, t[k]), post);
    if Mix(g, s[k]) == Mix(g, t[k]) {
      MixInjective(g, g, s[k], t[k]);
    }
  }

  // ----- a known hash -----

  lemma {:induction false} XorZero(a: nat)
    ensures Xor(a, 0) == a
  {
    if a > 0 { XorZero(a / 2); }
  }

  /** Exclusive or with a k-bit number changes the k low bits only. */
  lemma {:induction false} XorLow(q: nat, r: nat, b: nat, k: nat)
    requires r < Pow2(k) && b < Pow2(k)
    ensures Xor(q * Pow2(k) + r, b) == q * Pow2(k) + Xor(r, b)
  {
    if k == 0 {
      XorZero(q);
    } else {
      var a := q * Pow2(k) + r;
      assert q * Pow2(k) == 2 * (q * Pow2(k - 1));
      assert a / 2 == q * Pow2(k - 1) + r / 2 && a % 2 == r % 2;
      XorLow(q, r / 2, b / 2, k - 1);
    }
  }

  /** The hash of the text "a", as published with FNV-1a. */
  lemma HashOfA()
    ensures Absorb(OFFSET, []) == 0xCBF2_9CE4_8422_2325 && Absorb(OFFSET, "a") == 0xAF63_DC4C_8601_EC8C
  {
    hide Xor;
    assert Pow2(8) == 256 by {
      Pow2Of4();
      Pow2Add(4, 4);
    }
    XorLow(57406175934947875, 37, 97, 8);
    assert OFFSET == 57406175934947875 * 256 + 37;
    XorOf37And97();
    AbsorbPush(OFFSET, [], 'a');
    assert [] + ['a'] == "a";
  }

  lemma XorOf37And97()
    ensures Xor(37, 97) == 68
  {
    assert Xor(0, 1) == 1;
    assert Xor(1, 3) == 2;
    assert Xor(4, 12) == 8;
    assert Xor(9, 24) == 17;
  }
}
