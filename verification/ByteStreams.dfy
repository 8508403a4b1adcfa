/**
 The assembler's byte writer and byte reader: little-endian fields of 8 to 64 bits and
 blocks, patches at known positions, and a cursor that never leaves the buffer.
 */
module ByteStreams {
  import opened Basics

  /** Undefined: the range check passed, but the access leaves the buffer. */
  datatype Result<T> = Ok(value: T) | OutOfRange | Undefined

  // ----- the writer -----

  class ByteWriter {
    var output: seq<Byte>
    var offset: nat

    ghost predicate Valid()
      reads this
    {
      offset == |output|
    }

    constructor ()
      ensures Valid() && output == []
    {
      output, offset := [], 0;
    }

    method Emit8(x: Byte)
      requires Valid()
      modifies this
      ensures Valid() && output == old(output) + [x]
    {
      output := output + [x];
      offset := offset + 1;
    }

    method EmitBytes(data: seq<Byte>)
      requires Valid()
      modifies this
      ensures Valid() && output == old(output) + data
    {
      output := output + data;
      offset := offset + |data|;
    }

    /** Fields of 16, 32 and 64 bits are copied from a little-endian host. */
    method EmitField(x: nat, n: nat)
      requires Valid()
      modifies this
      ensures Valid() && output == old(output) + ToBytes(x, n)
    {
      EmitBytes(ToBytes(x, n));
    }

    /** The five low bytes, one by one. */
    method Emit40(x: Word)
      requires Valid()
      modifies this
      ensures Valid() && output == old(output) + ToBytes(x, 5)
    {
      Emit8(x % 0x100);
      Emit8(x / 0x100 % 0x100);
      Emit8(x / 0x1_0000 % 0x100);
      Emit8(x / 0x100_0000 % 0x100);
      Emit8(x / 0x1_0000_0000 % 0x100);
      FiveBytes(x);
    }

    method Write8At(x: Byte, pos: Word) returns (ok: bool)
      modifies this`output
      ensures ok <==> pos < |old(output)|
      ensures output == if ok then Patched(old(output), pos, [x]) else old(output)
    {
      if pos >= |output| { return false; }
      output := Patched(output, pos, [x]);
      ok := true;
    }

    /** Patches four or eight bytes at pos. The end is checked in 64-bit arithmetic, so a position
        in the last bytes of the address space slips through. */
    method WriteAt(x: nat, n: nat, pos: Word) returns (r: Result<bool>)
      requires (n == 4 || n == 8) && |output| < 0x1_0000_0000_0000_0000
      modifies this`output
      ensures r.Ok? <==> pos + n <= |old(output)|
      ensures r.Ok? ==> output == Patched(old(output), pos, ToBytes(x, n))
      ensures !r.Ok? ==> output == old(output)
      ensures r.Undefined? <==> pos + n >= 0x1_0000_0000_0000_0000 && pos + n - 0x1_0000_0000_0000_0000 <= |old(output)|
    {
      if (pos + n) % 0x1_0000_0000_0000_0000 > |output| { return OutOfRange; }
      if pos + n > |output| { return Undefined; }
      output := Patched(output, pos, ToBytes(x, n));
      r := Ok(true);
    }
  }

  lemma FiveBytes(x: Word)
    ensures ToBytes(x, 5) ==
            [x % 0x100] + [x / 0x100 % 0x100] + [x / 0x1_0000 % 0x100] + [x / 0x100_0000 % 0x100] +
              [x / 0x1_0000_0000 % 0x100]
  {
    var x1, x2, x3, x4 := x / 0x100, x / 0x1_0000, x / 0x100_0000, x / 0x1_0000_0000;
    assert x1 / 256 == x2 && x2 / 256 == x3 && x3 / 256 == x4;
    assert ToBytes(x4, 1) == [x4 % 0x100];
    assert ToBytes(x3, 2) == [x3 % 0x100] + ToBytes(x4, 1);
    assert ToBytes(x2, 3) == [x2 % 0x100] + ToBytes(x3, 2);
    assert ToBytes(x1, 4) == [x1 % 0x100] + ToBytes(x2, 3);
    assert ToBytes(x, 5) == [x % 0x100] + ToBytes(x1, 4);
  }

  // ----- the reader -----

  class ByteReader {
    const input: seq<Byte>
    var offset: Word
    var cursors: seq<Word>

    /** Neither the offset nor a saved cursor passes the end of the buffer. */
    ghost predicate Valid()
      reads this
    {
      offset <= |input| < 0x1_0000_0000_0000_0000 && forall i :: 0 <= i < |cursors| ==> cursors[i] <= |input|
    }

    constructor (input: seq<Byte>)
      requires |input| < 0x1_0000_0000_0000_0000
      ensures Valid() && this.input == input && offset == 0 && cursors == []
    {
      this.input := input;
      offset, cursors := 0, [];
    }

    /** The end is computed in 64-bit arithmetic. */
    predicate Require(size: Word)
      reads this
    {
      (offset + size) % 0x1_0000_0000_0000_0000 <= |input|
    }

    /** A field of n bytes. */
    method ReadField(n: nat) returns (r: Result<nat>)
      requires n <= 8 && Valid()
      modifies this`offset
      ensures Valid()
      ensures r.Ok? <==> old(offset) + n <= |input|
      ensures r.Ok? ==> offset == old(offset) + n && r.value == FromBytes(input[old(offset)..offset])
      ensures !r.Ok? ==> offset == old(offset)
      ensures r.Undefined? <==> old(offset) + n >= 0x1_0000_0000_0000_0000
    {
      if !Require(n) { return OutOfRange; }
      if offset + n > |input| { return Undefined; }
      r := Ok(FromBytes(input[offset..offset + n]));
      offset := offset + n;
    }

    method ReadBytes(size: Word) returns (r: Result<seq<Byte>>)
      requires Valid()
      modifies this`offset
      ensures Valid()
      ensures r.Ok? <==> old(offset) + size <= |input|
      ensures r.Ok? ==> offset == old(offset) + size && r.value == input[old(offset)..offset]
      ensures !r.Ok? ==> offset == old(offset)
      ensures r.Undefined? <==> old(offset) + size >= 0x1_0000_0000_0000_0000
    {
      if !Require(size) { return OutOfRange; }
      if offset + size > |input| { return Undefined; }
      r := Ok(input[offset..offset + size]);
      offset := offset + size;
    }

    /** Skipping stays inside the buffer for every size; it goes forward exactly if
        the sum does not leave 64 bits. */
    method Skip(size: Word) returns (ok: bool)
      requires Valid()
      modifies this`offset
      ensures Valid()
      ensures ok <==> old(Require(size))
      ensures ok ==> (offset == old(offset) + size <==> old(offset) + size < 0x1_0000_0000_0000_0000)
      ensures !ok ==> offset == old(offset)
    {
      if !Require(size) { return false; }
      offset := (offset + size) % 0x1_0000_0000_0000_0000;
      ok := true;
    }

    method Seek(to: Word) returns (ok: bool)
      requires Valid()
      modifies this`offset
      ensures Valid() && (ok <==> to <= |input|) && offset == if ok then to else old(offset)
    {
      if to > |input| { return false; }
      offset := to;
      ok := true;
    }

    method Push()
      requires Valid()
      modifies this`cursors
      ensures Valid() && cursors == old(cursors) + [offset]
    {
      cursors := cursors + [offset];
    }

    method Pop() returns (ok: bool)
      requires Valid()
      modifies this
      ensures Valid() && (ok <==> old(cursors) != [])
      ensures ok ==> cursors + [offset] == old(cursors)
      ensures !ok ==> unchanged(this)
    {
      if |cursors| == 0 { return false; }
      offset := cursors[|cursors| - 1];
      cursors := cursors[..|cursors| - 1];
      ok := true;
    }
  }

  // ----- what is written is read back -----

  datatype Item = U8(x: Word) | U16(x: Word) | U32(x: Word) | U40(x: Word) | U64(x: Word) | Block(data: seq<Byte>)

  /** A value of the field's own type. */
  predicate Fits(i: Item) {
    match i
    case U8(x) => x < 0x100
    case U16(x) => x < 0x1_0000
    case U32(x) => x < 0x1_0000_0000
    case Block(data) => |data| < 0x1_0000_0000_0000_0000
    case _ => true
  }

  function Width(i: Item): nat {
    match i
    case U8(_) => 1
    case U16(_) => 2
    case U32(_) => 4
    case U40(_) => 5
    case U64(_) => 8
    case Block(data) => |data|
  }

  function Encoded(i: Item): (s: seq<Byte>)
    ensures |s| == Width(i)
  {
    if i.Block? then i.data else ToBytes(i.x, Width(i))
  }

  /** The bytes of the fields, the lowest first. */
  lemma EncodedFields(x: Word)
    ensures Encoded(U8(x)) == [x % 0x100] && Encoded(U16(x)) == [x % 0x100, x / 0x100 % 0x100]
    ensures Encoded(U32(x)) == [x % 0x100, x / 0x100 % 0x100, x / 0x1_0000 % 0x100, x / 0x100_0000 % 0x100]
    ensures |Encoded(U64(x))| == 8 && forall k :: 0 <= k < 8 ==> Encoded(U64(x))[k] == x / Power256(k) % 0x100
  {
    hide ToBytes, Power256;
    FieldPowers();
    assert Power256(0) == 1 && Power256(3) == 0x100_0000 by { PowersBelow(); }
    forall n: nat, k: nat | k < n ensures ToBytes(x, n)[k] == x / Power256(k) % 256 { ByteOfValue(x, n, k); }
  }

  lemma PowersBelow()
    ensures Power256(0) == 1 && Power256(3) == 0x100_0000
  {
    assert Power256(1) == 0x100 && Power256(2) == 0x1_0000;
  }

  function EncodedAll(items: seq<Item>): seq<Byte> {
    if items == [] then [] else EncodedAll(items[..|items| - 1]) + Encoded(items[|items| - 1])
  }

  /** What a read of the same kind gives: 40-bit fields lose their upper bits. */
  function ReadBack(i: Item): Item { if i.U40? then U40(i.x % 0x100_0000_0000) else i }

  method Emit(w: ByteWriter, i: Item)
    requires w.Valid() && Fits(i)
    modifies w
    ensures w.Valid() && w.output == old(w.output) + Encoded(i)
  {
    match i {
      case U8(x) =>
        assert ToBytes(x, 1) == [x];
        w.Emit8(x);
      case U16(x) => w.EmitField(x, 2);
      case U32(x) => w.EmitField(x, 4);
      case U40(x) => w.Emit40(x);
      case U64(x) => w.EmitField(x, 8);
      case Block(data) => w.EmitBytes(data);
    }
  }

  method EmitAll(items: seq<Item>) returns (output: seq<Byte>)
    requires forall k :: 0 <= k < |items| ==> Fits(items[k])
    ensures output == EncodedAll(items)
  {
    var w := new ByteWriter();
    for k := 0 to |items|
      invariant w.Valid() && fresh(w) && w.output == EncodedAll(items[..k])
    {
      assert items[..k + 1][..k] == items[..k];
      Emit(w, items[k]);
    }
    assert items[..|items|] == items;
    output := w.output;
  }

  /** Reads an item of the kind and width of shape. */
  method Read(r: ByteReader, shape: Item) returns (i: Result<Item>)
    requires r.Valid() && Width(shape) < 0x1_0000_0000_0000_0000
    modifies r`offset
    ensures r.Valid()
    ensures i.Ok? <==> old(r.offset) + Width(shape) <= |r.input|
    ensures i.Ok? ==> r.offset == old(r.offset) + Width(shape)
    ensures i.Ok? ==> i.value == Decoded(shape, r.input[old(r.offset)..r.offset])
  {
    if shape.Block? {
      var b := r.ReadBytes(|shape.data|);
      return if b.Ok? then Ok(Block(b.value)) else if b.Undefined? then Undefined else OutOfRange;
    }
    var v := r.ReadField(Width(shape));
    if !v.Ok? { return if v.Undefined? then Undefined else OutOfRange; }
    ValueFits(r.input[old(r.offset)..r.offset], Width(shape));
    i := Ok(WithValue(shape, v.value));
  }

  lemma {:induction false} ValueFits(s: seq<Byte>, n: nat)
    requires |s| == n
    ensures FromBytes(s) < Power256(n)
    ensures n <= 8 ==> FromBytes(s) < 0x1_0000_0000_0000_0000
  {
    if n > 0 { ValueFits(s[1..], n - 1); }
    if n <= 8 {
      FieldPowers();
      PowerGrows(n, 8);
    }
  }

  lemma {:induction false} PowerGrows(n: nat, m: nat)
    requires n <= m
    ensures Power256(n) <= Power256(m)
  {
    if n < m { PowerGrows(n, m - 1); }
  }

  function WithValue(shape: Item, x: Word): Item {
    match shape
    case U8(_) => U8(x)
    case U16(_) => U16(x)
    case U32(_) => U32(x)
    case U40(_) => U40(x)
    case U64(_) => U64(x)
    case Block(_) => shape
  }

  ghost function Decoded(shape: Item, s: seq<Byte>): Item
    requires |s| == Width(shape)
  {
    if shape.Block? then Block(s)
    else
      ValueFits(s, Width(shape));
      WithValue(shape, FromBytes(s))
  }

  lemma DecodedEncoded(i: Item)
    requires Fits(i)
    ensures Decoded(i, Encoded(i)) == ReadBack(i)
  {
    hide ToBytes, FromBytes, Power256;
    FieldPowers();
    if !i.Block? { ValueOfBytes(i.x, Width(i)); }
  }

  lemma NothingEncoded()
    ensures EncodedAll([]) == []
  {
  }

  lemma {:induction false} EncodedPrefix(items: seq<Item>, k: nat)
    requires k < |items|
    ensures EncodedAll(items[..k]) + Encoded(items[k]) <= EncodedAll(items)
    ensures EncodedAll(items[..k + 1]) == EncodedAll(items[..k]) + Encoded(items[k])
  {
    hide Encoded;
    assert items[..k + 1][..k] == items[..k];
    if k < |items| - 1 {
      EncodedPrefix(items[..|items| - 1], k);
      assert items[..|items| - 1][..k] == items[..k];
    }
  }

  /** Any sequence of items written and then read by the matching reads comes back,
      40-bit fields modulo 2^40, and the reader ends at the end of the buffer. */
  method RoundTrip(items: seq<Item>) returns (back: seq<Item>, atEnd: bool)
    requires forall k :: 0 <= k < |items| ==> Fits(items[k])
    requires |EncodedAll(items)| < 0x1_0000_0000_0000_0000
    ensures |back| == |items| && forall k :: 0 <= k < |items| ==> back[k] == ReadBack(items[k])
    ensures atEnd
  {
    hide ReadBack, Decoded, Encoded, EncodedAll, Width;
    NothingEncoded();
    var buffer := EmitAll(items);
    var r := new ByteReader(buffer);
    back := [];
    for k := 0 to |items|
      invariant r.Valid() && fresh(r) && r.input == buffer && |back| == k
      invariant r.offset == |EncodedAll(items[..k])| && EncodedAll(items[..k]) <= buffer
      invariant forall j :: 0 <= j < k ==> back[j] == ReadBack(items[j])
    {
      EncodedPrefix(items, k);
      ghost var done, next := EncodedAll(items[..k]), Encoded(items[k]);
      assert buffer[|done|..|done| + |next|] == next;
      var i := Read(r, items[k]);
      DecodedEncoded(items[k]);
      back := back + [i.value];
    }
    assert items[..|items|] == items;
    atEnd := r.offset >= |r.input|;
  }
}
