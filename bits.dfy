/** Bit-level primitives shared by the Huffman codec (encode.py) and the
    byte-level codec (server.py): zero-padded binary fields as Python's
    `format(n, '0Nb')` writes them and `int(s, 2)` reads them, the expansion
    of bytes to 8 bits and the regrouping of bits into bytes, and the
    rendering of bits over a pair of output characters. */
module Bits {

  import opened Wrappers

  /** One bit: `true` is 1, `false` is 0. */
  type Bit = bool

  /** A byte value as Python's `bytes` holds it. */
  type Byte = b: int | 0 <= b < 256

  function Pow2(n: nat): (r: nat)
    ensures r >= 1
  {
    if n == 0 then 1 else 2 * Pow2(n - 1)
  }

  lemma Pow2Values()
    ensures Pow2(3) == 8 && Pow2(8) == 256 && Pow2(32) == 0x1_0000_0000
  {
    assert Pow2(3) == 8;
    assert Pow2(8) == 256;
    assert Pow2(16) == 65536;
    assert Pow2(24) == 0x100_0000;
  }

  /** `int(bits, 2)`: the value of a big-endian bit string. */
  function BitsToNat(bits: seq<Bit>): (r: nat)
    ensures r < Pow2(|bits|)
  {
    if bits == [] then 0
    else 2 * BitsToNat(bits[..|bits| - 1]) + (if bits[|bits| - 1] then 1 else 0)
  }

  /** `format(n, '0{width}b')`: the binary digits of `n`, most significant
      first, padded with leading zeros to `width` digits. As in Python the
      field grows beyond `width` when `n` does not fit in it. (Python writes
      one digit for n == 0 and width == 0; every field here has width >= 3.) */
  function Format(n: nat, width: nat): (r: seq<Bit>)
    ensures BitsToNat(r) == n
    ensures |r| >= width
    ensures |r| == width <==> n < Pow2(width)
    decreases n + width
  {
    if n == 0 && width == 0 then []
    else
      var high := Format(n / 2, if width == 0 then 0 else width - 1);
      assert (high + [n % 2 == 1])[..|high|] == high;
      high + [n % 2 == 1]
  }

  /** `format(byte, '08b')`. */
  function ByteBits(b: Byte): (r: seq<Bit>)
    ensures |r| == 8 && BitsToNat(r) == b
  {
    Pow2Values();
    Format(b, 8)
  }

  /** Every byte expanded to its 8 bits, most significant bit first, in order. */
  function BytesToBits(bs: seq<Byte>): (r: seq<Bit>)
    ensures |r| == 8 * |bs|
  {
    if bs == [] then [] else ByteBits(bs[0]) + BytesToBits(bs[1..])
  }

  /** The bytes read from consecutive 8-bit groups, `int(group, 2)` each; an
      incomplete trailing group is dropped. */
  function GroupBytes(bits: seq<Bit>): (r: seq<Byte>)
    ensures |r| == |bits| / 8
  {
    Pow2Values();
    if |bits| < 8 then [] else [BitsToNat(bits[..8]) as Byte] + GroupBytes(bits[8..])
  }

  /** An 8-bit group holds the value it was formatted from. */
  lemma {:induction false} ByteBitsInjective(bits: seq<Bit>)
    requires |bits| == 8
    ensures BitsToNat(bits) < 256 && ByteBits(BitsToNat(bits) as Byte) == bits
  {
    Pow2Values();
    FormatOfValue(bits);
  }

  /** A bit string is the zero-padded formatting of its own value at its
      own width. */
  lemma {:induction false} FormatOfValue(bits: seq<Bit>)
    ensures Format(BitsToNat(bits), |bits|) == bits
    decreases |bits|
  {
    if bits != [] {
      var init := bits[..|bits| - 1];
      var n := BitsToNat(bits);
      FormatOfValue(init);
      assert n / 2 == BitsToNat(init);
      assert bits == init + [bits[|bits| - 1]];
    }
  }

  /** Regrouping undoes byte expansion, and ignores fewer than 8 trailing bits. */
  lemma {:induction false} GroupBytesOfBytesToBits(bs: seq<Byte>, tail: seq<Bit>)
    requires |tail| < 8
    ensures GroupBytes(BytesToBits(bs) + tail) == bs
  {
    if bs == [] {
      assert BytesToBits(bs) + tail == tail;
    } else {
      var all := BytesToBits(bs) + tail;
      assert all[..8] == ByteBits(bs[0]);
      assert all[8..] == BytesToBits(bs[1..]) + tail;
      GroupBytesOfBytesToBits(bs[1..], tail);
    }
  }

  /** The regrouping loop of encode.py:164-167 and server.py:40-43: walks the
      bits in steps of 8 and keeps each complete group as one byte. */
  method RegroupBytes(bits: seq<Bit>) returns (bytes: seq<Byte>)
    ensures bytes == GroupBytes(bits)
  {
    Pow2Values();
    bytes := [];
    var i := 0;
    while i < |bits|
      invariant 0 <= i && i % 8 == 0
      invariant i <= |bits| ==> bytes + GroupBytes(bits[i..]) == GroupBytes(bits)
      invariant i > |bits| ==> bytes == GroupBytes(bits)
      decreases |bits| - i
    {
      var group := bits[i..if i + 8 <= |bits| then i + 8 else |bits|];
      if |group| == 8 {
        assert bits[i..][..8] == group && bits[i..][8..] == bits[i + 8..];
        bytes := bytes + [BitsToNat(group) as Byte];
      }
      i := i + 8;
    }
  }

  /** `bits.replace('1', one).replace('0', zero)`: bit 1 becomes `one`, bit 0
      becomes `zero`. */
  function Render(bits: seq<Bit>, one: char, zero: char): (r: seq<char>)
    ensures |r| == |bits|
    ensures forall i :: 0 <= i < |bits| ==> r[i] == if bits[i] then one else zero
  {
    if bits == [] then [] else [if bits[0] then one else zero] + Render(bits[1..], one, zero)
  }

  /** The two output characters are distinct and neither is a binary digit,
      so the replacement chains of both directions commute. */
  predicate DistinctSymbols(one: char, zero: char)
  {
    one != zero && one !in "01" && zero !in "01"
  }

  /** What `c` reads as after `.replace(one, '1').replace(zero, '0')`, if it
      then is a binary digit: a literal '1' or '0' already in the message
      passes through the replacements unchanged. */
  function SymbolBit(c: char, one: char, zero: char): (r: Option<Bit>)
    requires DistinctSymbols(one, zero)
    ensures r == Some(true) <==> c == one || c == '1'
    ensures r == Some(false) <==> c == zero || c == '0'
  {
    if c == one || c == '1' then Some(true)
    else if c == zero || c == '0' then Some(false)
    else None
  }

  /** The bits of a rendered message, or None when some character is neither
      output symbol nor binary digit. */
  function ParseSymbols(msg: seq<char>, one: char, zero: char): (r: Option<seq<Bit>>)
    requires DistinctSymbols(one, zero)
    ensures r.Some? <==> forall i :: 0 <= i < |msg| ==> SymbolBit(msg[i], one, zero).Some?
    ensures r.Some? ==> |r.value| == |msg|
    ensures r.Some? ==> forall i :: 0 <= i < |msg| ==> r.value[i] == SymbolBit(msg[i], one, zero).value
  {
    if msg == [] then Some([])
    else
      var head := SymbolBit(msg[0], one, zero);
      var rest := ParseSymbols(msg[1..], one, zero);
      if head.Some? && rest.Some? then Some([head.value] + rest.value) else None
  }

  /** Parsing undoes rendering. */
  lemma ParseRender(bits: seq<Bit>, one: char, zero: char)
    requires DistinctSymbols(one, zero)
    ensures ParseSymbols(Render(bits, one, zero), one, zero) == Some(bits)
  {
    var msg := Render(bits, one, zero);
    var r := ParseSymbols(msg, one, zero);
    assert r.Some?;
    assert r.value == bits;
  }

}
