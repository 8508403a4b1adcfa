/**
 Adler-32 as section 8.2 of RFC 1950 defines it, and the loop that takes the remainder
 only once per 5552 bytes.
 */
module Adler {
  import opened Basics

  datatype Sums = Sums(a: nat, b: nat)

  /** The two sums, reduced after every byte. */
  function Definition(s: seq<Byte>): (r: Sums)
    ensures r.a < 65521 && r.b < 65521
  {
    if s == [] then Sums(1, 0)
    else
      var r := Definition(s[..|s| - 1]);
      var a := (r.a + s[|s| - 1]) % 65521;
      Sums(a, (r.b + a) % 65521)
  }

  function Checksum(s: seq<Byte>): (c: nat)
    ensures c < 0x1_0000_0000
  {
    var r := Definition(s);
    r.b * 65536 + r.a
  }

  function Total(s: seq<Byte>): nat { if s == [] then 0 else s[0] + Total(s[1..]) }

  /** Every byte as often as there are bytes from it to the end. */
  function Weighted(s: seq<Byte>): nat { if s == [] then 0 else |s| * s[0] + Weighted(s[1..]) }

  lemma {:induction false} TotalPush(s: seq<Byte>, x: Byte)
    ensures Total(s + [x]) == Total(s) + x && Weighted(s + [x]) == Weighted(s) + Total(s) + x
  {
    if s == [] {
      assert s + [x] == [x] && [x][1..] == [];
    } else {
      TotalPush(s[1..], x);
      assert (s + [x])[1..] == s[1..] + [x];
      assert |s + [x]| * s[0] == |s| * s[0] + s[0];
    }
  }

  /** The sums without reduction in between: 1 and all bytes; the length and the bytes
      weighted by their distance from the end. */
  lemma {:induction false} SumsAre(s: seq<Byte>)
    ensures Definition(s) == Sums((1 + Total(s)) % 65521, (|s| + Weighted(s)) % 65521)
  {
    if s != [] {
      var before, x := s[..|s| - 1], s[|s| - 1];
      SumsAre(before);
      TotalPush(before, x);
      assert s == before + [x];
      RemainderOfSum(1 + Total(before), x);
      RemainderOfSum(|before| + Weighted(before), 1 + Total(s));
    }
  }

  /** The halves of the checksum. */
  lemma ChecksumIs(s: seq<Byte>)
    ensures Checksum(s) / 65536 == (|s| + Weighted(s)) % 65521 && Checksum(s) % 65536 == (1 + Total(s)) % 65521
  {
    hide Definition, Weighted, Total;
    SumsAre(s);
  }

  function Triangle(k: nat): nat { if k == 0 then 0 else Triangle(k - 1) + k }

  lemma {:induction false} TriangleGrows(k: nat, n: nat)
    requires k <= n
    ensures Triangle(k) <= Triangle(n)
  {
    if k < n { TriangleGrows(k, n - 1); }
  }

  lemma {:induction false} TriangleIs(k: nat)
    ensures 2 * Triangle(k) == k * (k + 1)
  {
    if k > 0 { TriangleIs(k - 1); }
  }

  /** 5552 bytes of any value leave both sums below 2^32. */
  lemma NoOverflow(k: nat)
    requires k <= 5552
    ensures 65520 + 255 * k < 0x1_0000_0000 && 65520 + 65520 * k + 255 * Triangle(k) < 0x1_0000_0000
  {
    TriangleGrows(k, 5552);
    TriangleIs(5552);
  }

  lemma DefinitionStep(s: seq<Byte>, i: nat)
    requires i < |s|
    ensures Definition(s[..i + 1]) ==
              (var r := Definition(s[..i]); var a := (r.a + s[i]) % 65521; Sums(a, (r.b + a) % 65521))
  {
    assert s[..i + 1][..i] == s[..i];
  }

  lemma NoTriangle()
    ensures Triangle(0) == 0
  {
  }

  /** Adding a byte does not wrap, and reducing late gives the same remainders. */
  lemma SumStep(a: nat, b: nat, x: Byte, k: nat)
    requires k < 5552 && a <= 65520 + 255 * k && b <= 65520 + 65520 * k + 255 * Triangle(k)
    ensures var a' := (a + x) % 0x1_0000_0000;
            var b' := (b + a') % 0x1_0000_0000;
            && a' == a + x <= 65520 + 255 * (k + 1)
            && b' == b + a' <= 65520 + 65520 * (k + 1) + 255 * Triangle(k + 1)
            && a' % 65521 == (a % 65521 + x) % 65521
            && b' % 65521 == (b % 65521 + a' % 65521) % 65521
  {
    NoOverflow(k + 1);
    assert Triangle(k + 1) == Triangle(k) + k + 1;
    hide Triangle;
    RemainderOfSum(a, x);
    RemainderOfSum(b, a + x);
  }

  lemma RemainderOfSum(a: nat, x: nat)
    ensures (a + x) % 65521 == (a % 65521 + x) % 65521 == (a % 65521 + x % 65521) % 65521
  {
  }

  /** The sums of the loop: unsigned 32-bit, reduced late. */
  method Adler32(buf: seq<Byte>) returns (c: nat)
    ensures c == Checksum(buf)
  {
    var a, b := 1, 0;
    var i := 0;
    while i < |buf|
      invariant i <= |buf| && Sums(a, b) == Definition(buf[..i])
    {
      var chunk := if |buf| - i > 5552 then 5552 else |buf| - i;
      a, b := AddChunk(buf, i, chunk, a, b);
      i := i + chunk;
      a := a % 65521;
      b := b % 65521;
    }
    assert buf[..|buf|] == buf;
    c := b * 65536 + a;
  }

  method AddChunk(buf: seq<Byte>, i: nat, chunk: nat, a0: nat, b0: nat) returns (a: nat, b: nat)
    requires chunk <= 5552 && i + chunk <= |buf| && Sums(a0, b0) == Definition(buf[..i])
    ensures Sums(a % 65521, b % 65521) == Definition(buf[..i + chunk])
  {
    hide Definition, Triangle;
    NoTriangle();
    a, b := a0, b0;
    var k := 0;
    while k < chunk
      invariant k <= chunk
      invariant a <= 65520 + 255 * k && b <= 65520 + 65520 * k + 255 * Triangle(k)
      invariant Sums(a % 65521, b % 65521) == Definition(buf[..i + k])
    {
      DefinitionStep(buf, i + k);
      SumStep(a, b, buf[i + k], k);
      a := (a + buf[i + k]) % 0x1_0000_0000;
      b := (b + a) % 0x1_0000_0000;
      k := k + 1;
    }
  }
}
