/** The fixed byte codec of server.py at the byte level: `encrypt_text`
    (server.py:1-21) writes the 8 bits of every byte, most significant
    first, as `rule[0]` for 1 and `rule[1]` for 0; `decrypt_text`
    (server.py:24-46) reads the symbols back as bits and turns each complete
    group of 8 into one byte, dropping an incomplete last group. The rule
    is a parameter: `one` is `rule[0]`, `zero` is `rule[1]` (server.py:48
    sets them to 结 and 婚). */
module Server {

  import opened Wrappers
  import opened Bits

  /** `encrypt_text` on the UTF-8 bytes of the text (server.py:16-19): 8
      symbols per byte, each one of the two rule characters. */
  function Encrypt(bytes: seq<Byte>, one: char, zero: char): (r: seq<char>)
    requires DistinctSymbols(one, zero)
    ensures |r| == 8 * |bytes|
    ensures forall i :: 0 <= i < |r| ==> r[i] == one || r[i] == zero
  {
    Render(BytesToBits(bytes), one, zero)
  }

  /** `bs` in front of a decoded byte sequence, failure passed on. */
  function Prepend(bs: seq<Byte>, r: Option<seq<Byte>>): Option<seq<Byte>>
  {
    match r
    case None => None
    case Some(rest) => Some(bs + rest)
  }

  lemma {:induction false} PrependConcat(a: seq<Byte>, b: seq<Byte>, r: Option<seq<Byte>>)
    ensures Prepend(a, Prepend(b, r)) == Prepend(a + b, r)
    ensures Prepend([], r) == r
  {
    if r.Some? {
      assert a + (b + r.value) == (a + b) + r.value;
      assert [] + r.value == r.value;
    }
  }

  /** What `decrypt_text` (server.py:36-43) yields before the UTF-8 step:
      one byte per complete group of 8 symbols, or None when a complete
      group holds a character that is neither a rule character nor a binary
      digit (`int(byte, 2)` raises). An incomplete last group is never
      read. */
  function DecodeGroups(msg: seq<char>, one: char, zero: char): (r: Option<seq<Byte>>)
    requires DistinctSymbols(one, zero)
    ensures r.Some? ==> |r.value| == |msg| / 8
    decreases |msg|
  {
    Pow2Values();
    if |msg| < 8 then Some([])
    else
      match ParseSymbols(msg[..8], one, zero)
      case None => None
      case Some(bits) => Prepend([BitsToNat(bits) as Byte], DecodeGroups(msg[8..], one, zero))
  }

  /** The grouping loop of server.py:39-43. */
  method Decrypt(msg: seq<char>, one: char, zero: char) returns (r: Option<seq<Byte>>)
    requires DistinctSymbols(one, zero)
    ensures r == DecodeGroups(msg, one, zero)
  {
    Pow2Values();
    var bytes: seq<Byte> := [];
    var i := 0;
    PrependConcat([], [], DecodeGroups(msg, one, zero));
    assert msg[0..] == msg;
    while i < |msg|
      invariant 0 <= i
      invariant i <= |msg| ==> Prepend(bytes, DecodeGroups(msg[i..], one, zero)) == DecodeGroups(msg, one, zero)
      invariant i > |msg| ==> Some(bytes) == DecodeGroups(msg, one, zero)
      decreases |msg| - i
    {
      var group := msg[i..if i + 8 <= |msg| then i + 8 else |msg|];
      if |group| == 8 {
        assert msg[i..][..8] == group && msg[i..][8..] == msg[i + 8..];
        var bits := ParseSymbols(group, one, zero);
        if bits.None? {
          return None;
        }
        PrependConcat(bytes, [BitsToNat(bits.value) as Byte], DecodeGroups(msg[i + 8..], one, zero));
        bytes := bytes + [BitsToNat(bits.value) as Byte];
      } else {
        assert bytes + [] == bytes;
      }
      i := i + 8;
    }
    if i == |msg| {
      assert msg[i..] == [];
      assert bytes + [] == bytes;
    }
    return Some(bytes);
  }

  /** Decoding the encoding of any bytes gives those bytes back. */
  lemma {:induction false} DecodeEncrypt(bytes: seq<Byte>, one: char, zero: char)
    requires DistinctSymbols(one, zero)
    ensures DecodeGroups(Encrypt(bytes, one, zero), one, zero) == Some(bytes)
    decreases |bytes|
  {
    if bytes != [] {
      var msg := Encrypt(bytes, one, zero);
      var head := ByteBits(bytes[0]);
      assert BytesToBits(bytes) == head + BytesToBits(bytes[1..]);
      RenderAppend(head, BytesToBits(bytes[1..]), one, zero);
      assert msg[..8] == Render(head, one, zero);
      assert msg[8..] == Encrypt(bytes[1..], one, zero);
      ParseRender(head, one, zero);
      ByteBitsInjective(head);
      DecodeEncrypt(bytes[1..], one, zero);
      assert [bytes[0]] + bytes[1..] == bytes;
    }
  }

  lemma {:induction false} RenderAppend(a: seq<Bit>, b: seq<Bit>, one: char, zero: char)
    ensures Render(a + b, one, zero) == Render(a, one, zero) + Render(b, one, zero)
  {
    assert forall i :: 0 <= i < |a + b| ==> (a + b)[i] == if i < |a| then a[i] else b[i - |a|];
  }

  /** Fewer than 8 symbols after the last complete group are dropped, and
      it does not matter what they are. */
  lemma {:induction false} TrailingGroupDropped(msg: seq<char>, tail: seq<char>, one: char, zero: char)
    requires DistinctSymbols(one, zero)
    requires |msg| % 8 == 0 && |tail| < 8
    ensures DecodeGroups(msg + tail, one, zero) == DecodeGroups(msg, one, zero)
    decreases |msg|
  {
    if |msg| >= 8 {
      assert (msg + tail)[..8] == msg[..8] && (msg + tail)[8..] == msg[8..] + tail;
      TrailingGroupDropped(msg[8..], tail, one, zero);
    } else {
      assert msg == [];
      assert msg + tail == tail;
    }
  }

  /** On a message of rule characters and digits only, decoding is reading
      the bits and regrouping them into bytes. */
  lemma {:induction false} DecodeGroupsBits(msg: seq<char>, one: char, zero: char)
    requires DistinctSymbols(one, zero)
    requires ParseSymbols(msg, one, zero).Some?
    ensures DecodeGroups(msg, one, zero) == Some(GroupBytes(ParseSymbols(msg, one, zero).value))
    decreases |msg|
  {
    var bits := ParseSymbols(msg, one, zero).value;
    if |msg| >= 8 {
      assert ParseSymbols(msg[..8], one, zero).Some? &&
             ParseSymbols(msg[..8], one, zero).value == bits[..8];
      assert ParseSymbols(msg[8..], one, zero).Some? &&
             ParseSymbols(msg[8..], one, zero).value == bits[8..];
      DecodeGroupsBits(msg[8..], one, zero);
    }
  }
}
