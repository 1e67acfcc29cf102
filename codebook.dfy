/** The code table as the characters that travel inside the message
    (encode.py:92-96 and encode.py:170-175). The source pickles the dictionary
    and base64-encodes the pickle, which yields ASCII characters; the model
    replaces that pair of library formats with an explicit ASCII schema that
    has the two properties the codec relies on: every character is below
    128, so it takes exactly 8 bits, and reading the characters back gives
    the same dictionary, keys in the same order.

    Schema, per entry in dictionary order: the key's code point as three
    base-128 digits, most significant first; one '0' or '1' per bit of the
    code; then ';'. */
module Codebook {

  import opened Wrappers
  import opened Bits
  import opened Huffman
  import opened Codes

  const ZeroDigit: Byte := 48
  const OneDigit: Byte := 49
  const Terminator: Byte := 59

  /** The three base-128 digits of a code point (all below 0x110000 < 128^3). */
  function CharBytes(c: char): (r: seq<Byte>)
    ensures |r| == 3 && r[0] < 128 && r[1] < 128 && r[2] < 128
    ensures r[0] as int * 16384 + r[1] as int * 128 + r[2] as int == c as int
  {
    var v := c as int;
    [v / 16384, (v / 128) % 128, v % 128]
  }

  /** '0' for a 0 bit, '1' for a 1 bit. */
  function CodeBytes(w: Code): (r: seq<Byte>)
    ensures |r| == |w|
    ensures forall i :: 0 <= i < |w| ==> r[i] == if w[i] then OneDigit else ZeroDigit
  {
    if w == [] then [] else [if w[0] then OneDigit else ZeroDigit] + CodeBytes(w[1..])
  }

  function EntryBytes(e: (char, Code)): seq<Byte>
  {
    CharBytes(e.0) + CodeBytes(e.1) + [Terminator]
  }

  /** `base64.b64encode(pickle.dumps(codes))`: ASCII only. */
  function Serialize(es: CodeTable): (r: seq<Byte>)
    ensures forall i :: 0 <= i < |r| ==> r[i] < 128
  {
    if es == [] then [] else EntryBytes(es[0]) + Serialize(es[1..])
  }

  /** The character whose code point the three digits spell, if they are
      digits and spell a Unicode scalar value. */
  function CharOf(a: Byte, b: Byte, c: Byte): (r: Option<char>)
    ensures r.Some? ==> CharBytes(r.value) == [a, b, c]
  {
    if a < 128 && b < 128 && c < 128 then
      var v := a as int * 16384 + b as int * 128 + c as int;
      if v < 0xD800 || 0xE000 <= v < 0x11_0000 then Some(v as char) else None
    else None
  }

  /** The bits of a code up to its terminator, and what follows the
      terminator; None without a terminator or on any other byte. */
  function ParseCode(bs: seq<Byte>): (r: Option<(Code, seq<Byte>)>)
    ensures r.Some? ==> CodeBytes(r.value.0) + [Terminator] + r.value.1 == bs
  {
    if bs == [] then None
    else if bs[0] == Terminator then
      assert [Terminator] + bs[1..] == bs;
      Some(([], bs[1..]))
    else if bs[0] == ZeroDigit || bs[0] == OneDigit then
      match ParseCode(bs[1..])
      case None => None
      case Some(p) =>
        var w := [bs[0] == OneDigit] + p.0;
        assert CodeBytes(w) == [bs[0]] + CodeBytes(p.0);
        Some((w, p.1))
    else None
  }

  /** `pickle.loads(base64.b64decode(chars))`, or None where the source
      raises (encode.py:174-175). A dictionary cannot hold a key twice, so
      characters that would repeat a key are refused as well. */
  function Deserialize(bs: seq<Byte>): (r: Option<CodeTable>)
    ensures r.Some? ==> NoDuplicates(Keys(r.value)) && Serialize(r.value) == bs
    decreases |bs|
  {
    if bs == [] then Some([])
    else if |bs| < 3 then None
    else
      match CharOf(bs[0], bs[1], bs[2])
      case None => None
      case Some(c) =>
        match ParseCode(bs[3..])
        case None => None
        case Some(p) =>
          assert |p.1| < |bs|;
          match Deserialize(p.1)
          case None => None
          case Some(es) =>
            if c in Keys(es) then None
            else
              EntryFront(c, p.0, es);
              assert bs == bs[..3] + bs[3..];
              Some([(c, p.0)] + es)
  }

  /** An entry in front of a table whose keys it does not repeat: the keys
      stay distinct, and its bytes come first. */
  lemma {:induction false} EntryFront(c: char, w: Code, es: CodeTable)
    requires c !in Keys(es) && NoDuplicates(Keys(es))
    ensures NoDuplicates(Keys([(c, w)] + es))
    ensures Serialize([(c, w)] + es) == CharBytes(c) + (CodeBytes(w) + [Terminator] + Serialize(es))
  {
    var r := [(c, w)] + es;
    assert Keys(r) == [c] + Keys(es);
    assert r[1..] == es;
  }

  lemma {:induction false} ParseCodeBytes(w: Code, rest: seq<Byte>)
    ensures ParseCode(CodeBytes(w) + [Terminator] + rest) == Some((w, rest))
    decreases |w|
  {
    var bs := CodeBytes(w) + [Terminator] + rest;
    if w != [] {
      var digit := if w[0] then OneDigit else ZeroDigit;
      var tail := CodeBytes(w[1..]) + [Terminator] + rest;
      assert bs == [digit] + tail by {
        assert CodeBytes(w) == [digit] + CodeBytes(w[1..]);
      }
      ParseCodeBytes(w[1..], rest);
      assert ParseCode(bs) == Some(([digit == OneDigit] + w[1..], rest)) by {
        assert bs[0] == digit && bs[1..] == tail;
      }
      assert [digit == OneDigit] + w[1..] == w;
    } else {
      assert bs[0] == Terminator && bs[1..] == rest;
    }
  }

  lemma {:induction false} CharOfBytes(c: char)
    ensures CharOf(CharBytes(c)[0], CharBytes(c)[1], CharBytes(c)[2]) == Some(c)
  {
  }

  /** The first key of a dictionary is not among the others, and those are
      distinct too. */
  lemma {:induction false} KeysHeadTail(es: CodeTable)
    requires es != [] && NoDuplicates(Keys(es))
    ensures es[0].0 !in Keys(es[1..]) && NoDuplicates(Keys(es[1..]))
  {
    var keys, rest := Keys(es), Keys(es[1..]);
    assert forall i :: 0 <= i < |rest| ==> rest[i] == keys[i + 1];
    forall i, j | 0 <= i < j < |rest|
      ensures rest[i] != rest[j]
    {
      assert keys[i + 1] != keys[j + 1];
    }
    forall i | 0 <= i < |rest|
      ensures rest[i] != es[0].0
    {
      assert keys[0] != keys[i + 1];
    }
  }

  /** Reading the characters back gives the dictionary that was written,
      for any dictionary (its keys are distinct). */
  lemma {:induction false} DeserializeSerialize(es: CodeTable)
    requires NoDuplicates(Keys(es))
    ensures Deserialize(Serialize(es)) == Some(es)
    decreases |es|
  {
    if es != [] {
      var e := es[0];
      var bs := Serialize(es);
      var tail := Serialize(es[1..]);
      assert bs[..3] == CharBytes(e.0) && bs[3..] == CodeBytes(e.1) + [Terminator] + tail by {
        assert bs == CharBytes(e.0) + (CodeBytes(e.1) + [Terminator] + tail);
      }
      CharOfBytes(e.0);
      ParseCodeBytes(e.1, tail);
      KeysHeadTail(es);
      DeserializeSerialize(es[1..]);
      assert Deserialize(bs) == Some([e] + es[1..]);
      assert [e] + es[1..] == es;
    }
  }
}
