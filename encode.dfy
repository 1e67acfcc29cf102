/** The "结婚" text codec of encode.py: `encrypt_text` (encode.py:64-115)
    Huffman-codes the text, puts the code table in front of the payload
    behind a 32-bit length field, pads the bits to whole bytes, prepends the
    3-bit padding count and writes bit 1 as 结 and bit 0 as 婚;
    `decrypt_text` (encode.py:118-189) undoes these steps, checking the
    lengths on the way. The empty text has the reserved message 婚结. */
module Encode {

  import opened Wrappers
  import opened Bits
  import opened Huffman
  import opened Codes
  import opened Codebook

  /** 结 writes bit 1. */
  const One: char := '结'
  /** 婚 writes bit 0. */
  const Zero: char := '婚'
  /** "婚结", the message of the empty text (encode.py:78-79, 132-133). */
  const EmptyMessage: seq<char> := [Zero, One]

  /** The reasons `decrypt_text` raises ValueError. */
  datatype DecodeError =
    | EmptyInput        // encode.py:129-130
    | InvalidSymbol     // a character that is neither 结, 婚, '1' nor '0'
    | Malformed         // a length check of encode.py:139-158 fails
    | CodebookCorrupt   // the code table does not read back (encode.py:174-175)

  /** `'0' * n`. */
  function Zeros(n: nat): (r: seq<Bit>)
    ensures |r| == n && forall i :: 0 <= i < n ==> !r[i]
  {
    seq(n, _ => false)
  }

  /** `(8 - n % 8) % 8`: the fewest zero bits that fill `n` bits up to whole
      bytes. */
  function PaddingFor(n: nat): (p: nat)
    ensures p < 8 && (n + p) % 8 == 0
  {
    (8 - n % 8) % 8
  }

  /** `build_codes(build_huffman_tree(text))` (encode.py:82-86): it has a
      code for every character of the text. */
  function TextCodes(text: seq<char>): (codes: CodeTable)
    ensures forall i :: 0 <= i < |text| ==> text[i] in Keys(codes)
  {
    var root := HuffmanTree(text);
    if root.Some? then
      TreeOfText(text);
      CodesOfDistinctLeaves(root.value);
      CodesOf(root)
    else
      CodesOf(root)
  }

  /** The leaves of the tree of a text are its distinct characters, each
      once. */
  lemma {:induction false} TreeOfText(text: seq<char>)
    requires text != []
    ensures NoDuplicates(Syms(HuffmanTree(text).value))
    ensures forall i :: 0 <= i < |text| ==> text[i] in Syms(HuffmanTree(text).value)
  {
    var t := HuffmanTree(text).value;
    NoDuplicatesCount(Distinct(text));
    NoDuplicatesCount(Syms(t));
    forall i | 0 <= i < |text|
      ensures text[i] in Syms(t)
    {
      assert text[i] in Distinct(text);
      assert text[i] in multiset(Syms(t));
    }
  }

  /** A text made of one character repeated gets a tree that is a single
      leaf, and that character gets the code `0` (encode.py:53-54). */
  lemma {:induction false} SingleCharacterCode(text: seq<char>)
    requires text != [] && forall i :: 0 <= i < |text| ==> text[i] == text[0]
    ensures TextCodes(text) == [(text[0], [false])]
  {
    var c := text[0];
    var d := Distinct(text);
    assert c in d;
    forall i | 0 <= i < |d|
      ensures d[i] == c
    {
      assert d[i] in d;
      assert d[i] in text;
    }
    var second := if |d| >= 2 then 1 else 0;
    assert d[0] == d[second];
    assert d == [c];
    var t := HuffmanTree(text).value;
    assert multiset(Syms(t)) == multiset{c};
    assert |Syms(t)| == 1;
    match t
    case Leaf(_, _) =>
      assert Syms(t) == [c];
      assert PathCodes(t, []) == [(c, [false])];
      assert Put([], c, [false]) == [(c, [false])];
      assert PutAll([(c, [false])], []) == [(c, [false])];
      var es := PathCodes(t, []);
      assert es[0] == (c, [false]) && es[1..] == [];
      assert CodesOf(Some(t)) == PutAll(Put([], c, [false]), []);
      assert TextCodes(text) == CodesOf(Some(t));
    case Node(_, l, r) =>
      SymsNonEmpty(l);
      SymsNonEmpty(r);
      assert false;
  }

  /** The code table of a text has a non-empty code for each distinct
      character, no code is a prefix of another, and no key repeats. */
  lemma {:induction false} TextCodesProperties(text: seq<char>)
    ensures PrefixFree(TextCodes(text)) && NonEmptyCodes(TextCodes(text))
    ensures NoDuplicates(Keys(TextCodes(text)))
  {
    if text != [] {
      var t := HuffmanTree(text).value;
      TreeOfText(text);
      BuiltCodesProperties(t);
    }
  }

  /** The bits of the message before rendering (encode.py:99-110): the
      32-bit code table length, the code table, the payload and the zero
      padding, behind the 3-bit padding count. The padding count is the
      first field and the whole is 3 bits plus whole bytes; when the table
      length fits its 32 bits, it is the second field, and the table and the
      payload follow it up to the padding. */
  function Frame(codebook: seq<Bit>, payload: seq<Bit>): (r: seq<Bit>)
    ensures HeaderAndBytes(|r|)
    ensures BitsToNat(r[..3]) < 8
    ensures |codebook| < Pow2(32) ==>
              && |r| == 3 + 32 + |codebook| + |payload| + BitsToNat(r[..3])
              && BitsToNat(r[3..35]) == |codebook|
              && r[35..35 + |codebook|] == codebook
              && r[35 + |codebook|..|r| - BitsToNat(r[..3])] == payload
  {
    Pow2Values();
    var length := Format(|codebook|, 32);
    var full := length + codebook + payload;
    var padding := PaddingFor(|full|);
    var r := Format(padding, 3) + (full + Zeros(padding));
    FrameShape(Format(padding, 3), full, Zeros(padding));
    if |length| == 32 then
      FrameLayout(Format(padding, 3), length, codebook, payload, Zeros(padding));
      r
    else
      r
  }

  /** Bits padded to whole bytes, behind the 3-bit padding count. */
  lemma FrameShape(padding: seq<Bit>, full: seq<Bit>, zeros: seq<Bit>)
    requires |padding| == 3 && |full| >= 32 && |zeros| == PaddingFor(|full|)
    ensures HeaderAndBytes(|padding + (full + zeros)|)
    ensures (padding + (full + zeros))[..3] == padding
  {
    assert |padding + (full + zeros)| == 3 + (|full| + |zeros|);
  }

  /** The two symbols meet what the rendering and the reading back of bits
      need. */
  lemma SymbolsDistinct()
    ensures DistinctSymbols(One, Zero)
  {
  }

  /** Where the fields of a frame stand. */
  lemma FrameLayout(padding: seq<Bit>, length: seq<Bit>, codebook: seq<Bit>, payload: seq<Bit>, zeros: seq<Bit>)
    requires |padding| == 3 && |length| == 32
    ensures var r := padding + (length + codebook + payload + zeros);
            && r[3..35] == length
            && r[35..35 + |codebook|] == codebook
            && r[35 + |codebook|..|r| - |zeros|] == payload
  {
    var r := padding + (length + codebook + payload + zeros);
    assert r[35..] == codebook + payload + zeros;
  }

  /** A message length of at least the 35 header symbols, 3 of them plus
      whole bytes. */
  predicate HeaderAndBytes(n: nat)
  {
    n >= 35 && (n - 3) % 8 == 0
  }

  /** The framed bits written as 结 and 婚 (encode.py:113): 3 symbols plus
      whole bytes of them. */
  function Message(codebook: seq<Bit>, payload: seq<Bit>): (r: seq<char>)
    ensures forall i :: 0 <= i < |r| ==> r[i] == One || r[i] == Zero
    ensures HeaderAndBytes(|r|)
  {
    Render(Frame(codebook, payload), One, Zero)
  }

  /** `encrypt_text` (encode.py:64-115). Its output is made of 结 and 婚
      only; the empty text gives 婚结, any other text 3 symbols plus whole
      bytes of them. */
  function EncryptText(text: seq<char>): (r: seq<char>)
    ensures text == [] ==> r == EmptyMessage
    ensures forall i :: 0 <= i < |r| ==> r[i] == One || r[i] == Zero
    ensures text != [] ==> HeaderAndBytes(|r|)
  {
    if text == [] then EmptyMessage
    else
      var root := HuffmanTree(text);
      if root.None? then EmptyMessage
      else
        var codes := TextCodes(text);
        var encoded := Payload(text, codes);
        var codebook := BytesToBits(Serialize(codes));
        Message(codebook, encoded)
  }

  /** The bits the header checks of encode.py:139-158 let through: a 3-bit
      padding count `p`, at least 32 bits left once the 3 bits and `p` bits
      of padding are gone, and after those 32 at least as many bits as they
      spell. */
  predicate Framed(bits: seq<Bit>)
  {
    && |bits| >= 3
    && |bits| >= 35 + BitsToNat(bits[..3])
    && |bits| - 35 - BitsToNat(bits[..3]) >= BitsToNat(bits[3..35])
  }

  /** The length checks and field splits of encode.py:139-160 on the bits of
      a message: the padding count, the padding stripped from the end, the
      32-bit table length, then the table and the payload. It fails, always
      as malformed, exactly when the bits are not `Framed`; otherwise the
      table is the number of bits the length field names right after it,
      and the payload is what follows up to the padding. */
  function SplitFields(bits: seq<Bit>): (r: Result<(seq<Bit>, seq<Bit>), DecodeError>)
    ensures r.Failure? ==> r.error == Malformed
    ensures r.Success? <==> Framed(bits)
    ensures r.Success? ==>
              && r.value.0 == bits[35..35 + BitsToNat(bits[3..35])]
              && r.value.1 == bits[35 + BitsToNat(bits[3..35])..|bits| - BitsToNat(bits[..3])]
    ensures r.Success? ==>
              35 + |r.value.0| + |r.value.1| <= |bits| <= 35 + |r.value.0| + |r.value.1| + 7
  {
    if |bits| < 3 then Failure(Malformed)
    else
      var padding := BitsToNat(bits[..3]);
      assert padding < 8 by {
        Pow2Values();
      }
      if |bits| - 3 < padding then Failure(Malformed)
      else if |bits| - 3 - padding < 32 then Failure(Malformed)
      else
        var length := BitsToNat(bits[3..35]);
        if |bits| - 35 - padding < length then Failure(Malformed)
        else Success((bits[35..35 + length], bits[35 + length..|bits| - padding]))
  }

  /** The header fields read back what `Frame` wrote, as long as the table
      length fits its 32 bits. */
  lemma {:induction false} SplitFrame(codebook: seq<Bit>, payload: seq<Bit>)
    requires |codebook| < Pow2(32)
    ensures SplitFields(Frame(codebook, payload)) == Success((codebook, payload))
  {
    var bits := Frame(codebook, payload);
    assert Framed(bits);
  }

  /** `decrypt_text` (encode.py:118-189) as a value: the sentinel first,
      then the symbols, the header fields, the code table and the greedy
      walk of the payload. A decoded message other than the sentinel has at
      least the 35 header symbols, and the text is never longer than the
      message. */
  function Decode(msg: seq<char>): (r: Result<seq<char>, DecodeError>)
    ensures r == Failure(EmptyInput) <==> msg == []
    ensures msg == EmptyMessage ==> r == Success([])
    ensures r == Failure(InvalidSymbol) <==>
              msg != [] && msg != EmptyMessage && ParseSymbols(msg, One, Zero).None?
    ensures r == Failure(Malformed) <==>
              && msg != [] && msg != EmptyMessage && ParseSymbols(msg, One, Zero).Some?
              && !Framed(ParseSymbols(msg, One, Zero).value)
    ensures r.Success? && msg != EmptyMessage ==> |msg| >= 35 && |r.value| <= |msg|
  {
    if |msg| < 1 then Failure(EmptyInput)
    else if msg == EmptyMessage then Success([])
    else
      match ParseSymbols(msg, One, Zero)
      case None => Failure(InvalidSymbol)
      case Some(bits) =>
        match SplitFields(bits)
        case Failure(e) => Failure(e)
        case Success(fields) =>
          match Deserialize(GroupBytes(fields.0))
          case None => Failure(CodebookCorrupt)
          case Some(codes) => Success(Greedy(fields.1, Reverse(codes), []))
  }

  /** `decrypt_text` (encode.py:118-189): the checks in the source's order,
      the regrouping loop for the code table and the walking loop for the
      payload. */
  method DecryptText(msg: seq<char>) returns (r: Result<seq<char>, DecodeError>)
    ensures r == Decode(msg)
  {
    if |msg| < 1 {
      return Failure(EmptyInput);
    }
    if msg == EmptyMessage {
      return Success([]);
    }
    var parsed := ParseSymbols(msg, One, Zero);
    if parsed.None? {
      return Failure(InvalidSymbol);
    }
    var all := parsed.value;
    var bits := all;
    if |bits| < 3 {
      return Failure(Malformed);
    }
    var padding := BitsToNat(bits[..3]);
    bits := bits[3..];
    if padding > 0 {
      if |bits| < padding {
        assert SplitFields(all) == Failure(Malformed);
        return Failure(Malformed);
      }
      bits := bits[..|bits| - padding];
    }
    assert bits == all[3..|all| - padding];
    if |bits| < 32 {
      assert SplitFields(all) == Failure(Malformed);
      return Failure(Malformed);
    }
    var length := BitsToNat(bits[..32]);
    assert bits[..32] == all[3..35];
    bits := bits[32..];
    assert bits == all[35..|all| - padding];
    if |bits| < length {
      assert SplitFields(all) == Failure(Malformed);
      return Failure(Malformed);
    }
    var codesBits, encodedBits := bits[..length], bits[length..];
    assert codesBits == all[35..35 + length] && encodedBits == all[35 + length..|all| - padding];
    assert SplitFields(all) == Success((codesBits, encodedBits));
    var chars := RegroupBytes(codesBits);
    var codes := Deserialize(chars);
    if codes.None? {
      return Failure(CodebookCorrupt);
    }
    var reverseCodes := Reverse(codes.value);
    var text := WalkPayload(encodedBits, reverseCodes);
    return Success(text);
  }

  /** A message built from a code table's characters and a payload reads
      back as whatever the payload walks to under that table. */
  lemma {:induction false} DecodeFrame(chars: seq<Byte>, codes: CodeTable, encoded: seq<Bit>)
    requires |BytesToBits(chars)| < Pow2(32)
    requires Deserialize(chars) == Some(codes)
    ensures Decode(Message(BytesToBits(chars), encoded)) ==
            Success(Greedy(encoded, Reverse(codes), []))
  {
    var codebook := BytesToBits(chars);
    var bits := Frame(codebook, encoded);
    var msg := Message(codebook, encoded);
    assert msg != [] && msg != EmptyMessage by {
      assert HeaderAndBytes(|msg|);
    }
    assert ParseSymbols(msg, One, Zero) == Some(bits) by {
      SymbolsDistinct();
      ParseRender(bits, One, Zero);
    }
    assert SplitFields(bits) == Success((codebook, encoded)) by {
      SplitFrame(codebook, encoded);
    }
    assert GroupBytes(codebook) == chars by {
      assert codebook + [] == codebook;
      GroupBytesOfBytesToBits(chars, []);
    }
    DecodeSuccess(msg, bits, (codebook, encoded), codes);
  }

  /** The success path of `Decode`, one stage at a time. */
  lemma DecodeSuccess(msg: seq<char>, bits: seq<Bit>, fields: (seq<Bit>, seq<Bit>), codes: CodeTable)
    requires msg != [] && msg != EmptyMessage
    requires ParseSymbols(msg, One, Zero) == Some(bits)
    requires SplitFields(bits) == Success(fields)
    requires Deserialize(GroupBytes(fields.0)) == Some(codes)
    ensures Decode(msg) == Success(Greedy(fields.1, Reverse(codes), []))
  {
  }

  /** The message of a non-empty text, one step unfolded. */
  lemma EncryptTextUnfold(text: seq<char>)
    requires text != []
    ensures EncryptText(text) == Message(BytesToBits(Serialize(TextCodes(text))), Payload(text, TextCodes(text)))
  {
  }

  /** A message built from any table with distinct keys and non-empty,
      prefix-free codes, and from the payload of a text over its keys,
      decodes to that text. */
  lemma {:induction false} DecodeTable(text: seq<char>, codes: CodeTable)
    requires PrefixFree(codes) && NonEmptyCodes(codes) && NoDuplicates(Keys(codes))
    requires forall i :: 0 <= i < |text| ==> text[i] in Keys(codes)
    requires 8 * |Serialize(codes)| < Pow2(32)
    ensures Decode(Message(BytesToBits(Serialize(codes)), Payload(text, codes))) == Success(text)
  {
    DeserializeSerialize(codes);
    DecodeFrame(Serialize(codes), codes, Payload(text, codes));
    PayloadWalk(text, codes);
  }

  /** The greedy walk of a text's payload gives the text back. */
  lemma {:induction false} PayloadWalk(text: seq<char>, codes: CodeTable)
    requires PrefixFree(codes) && NonEmptyCodes(codes)
    requires forall i :: 0 <= i < |text| ==> text[i] in Keys(codes)
    ensures Greedy(Payload(text, codes), Reverse(codes), []) == text
  {
    var encoded := Payload(text, codes);
    assert encoded + [] == encoded;
    GreedyPayload(text, codes, []);
    assert text + [] == text;
  }

  /** `decrypt_text(encrypt_text(text)) == text`, whenever the code table's
      bit count fits the 32-bit length field. */
  lemma {:induction false} DecodeEncrypt(text: seq<char>)
    requires 8 * |Serialize(TextCodes(text))| < Pow2(32)
    ensures Decode(EncryptText(text)) == Success(text)
  {
    if text != [] {
      EncryptTextUnfold(text);
      TextCodesProperties(text);
      DecodeTable(text, TextCodes(text));
    }
  }
}
