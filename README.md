# The "结婚" Huffman codec, in Dafny

This project models the text codec of `encode.py` and the fixed byte codec of
`server.py`, and proves what they promise.

`encode.py` turns a text into a message over two characters, 结 for bit 1 and
婚 for bit 0. It works in these steps:

- It counts the characters of the text (`Counter`).
- It builds a Huffman tree by repeatedly merging the two lightest trees of a
  priority queue.
- It assigns each leaf its root-to-leaf path as a code (left 0, right 1). A
  tree that is a single leaf gets the code `0`.
- It concatenates the codes of the text's characters into the payload.
- It writes the code table in front of the payload, as 8-bit characters behind
  a 32-bit length field.
- It pads the bits to whole bytes and puts a 3-bit padding count in front.
- The empty text becomes the reserved message 婚结.

Decoding checks the sentinel first. It then reads the symbols back as bits,
strips the padding, reads the length field, reads back the code table, inverts
it and walks the payload greedily. All four length checks raise the same
`ValueError`, so the model reports each of them as `Malformed`.

`server.py` writes the 8 bits of each byte, most significant first, as the two
characters of its `rule`. It reads them back in groups of 8 and drops an
incomplete last group.

Modules:

- `Wrappers` holds `Option` and `Result`.
- `Bits` holds binary fields, bytes and symbol rendering.
- `Huffman` holds the tree, the counts and the merge loop.
- `Codes` holds the code table, prefix freedom and the greedy payload walk.
- `Codebook` holds the code table's characters.
- `Encode` holds `encrypt_text` and `decrypt_text` of encode.py.
- `Server` holds the byte codec of server.py.

A Python dictionary keeps insertion order, and pickle writes that order. So
the code table is an association list, `seq<(char, Code)>`. The inverted table
only answers lookups, so it is a `map`.

The priority queue is a sequence. Popping takes the first tree of least
weight, and pushing appends.

The main theorem is `Encode.DecodeEncrypt`: `decrypt_text(encrypt_text(t)) == t`
for every text whose code table fits the 32-bit length field.

## Model

| member | source | states |
|---|---|---|
| Bits.BitsToNat | encode.py:141 | `int(bits, 2)`: the value of a bit string is below 2 to the power of its length |
| Bits.Format | encode.py:99 | `format(n, '0Nb')` reads back as `n`, is at least N bits long, and is exactly N bits long iff `n` fits in N bits |
| Bits.ByteBits | encode.py:96 | `format(b, '08b')` of a byte is 8 bits that read back as `b` |
| Bits.BytesToBits | server.py:16 | every byte expands to 8 bits, so the bit string is 8 times as long as the bytes |
| Bits.GroupBytes | encode.py:163-168 | regrouping yields one byte per complete group of 8 bits |
| Bits.ByteBitsInjective | encode.py:167 | an 8-bit group is the formatting of its own value, so `int(byte, 2)` and `format(.., '08b')` are inverse on 8-bit groups |
| Bits.FormatOfValue | encode.py:153 | any bit string is the zero-padded formatting of its value at its own width |
| Bits.GroupBytesOfBytesToBits | encode.py:163-168 | regrouping undoes byte expansion, and fewer than 8 trailing bits are ignored |
| Bits.RegroupBytes | encode.py:163-168 | the step-8 loop appends one byte per complete group and returns exactly `GroupBytes` |
| Bits.Render | encode.py:113 | after the two `replace` calls, each bit 1 becomes the one-symbol and each bit 0 the zero-symbol, position by position |
| Bits.SymbolBit | encode.py:136 | after the reverse `replace` calls, a character reads as 1 iff it is the one-symbol or '1', and as 0 iff it is the zero-symbol or '0' |
| Bits.ParseSymbols | encode.py:136 | a message reads as bits iff every character reads as a bit, and then position by position |
| Bits.ParseRender | encode.py:136 | reading the symbols back gives the rendered bits |
| Huffman.NoDuplicatesCount | encode.py:24 | a sequence has no repeated character iff every character occurs in it at most once, as in the keys of a `Counter` |
| Huffman.Distinct | encode.py:24 | the keys of `Counter(text)`: each character of the text exactly once, and no other |
| Huffman.MinIndex | encode.py:14-15 | `heappop`'s choice under `__lt__`: a tree of least weight, with no lighter or equal tree before it |
| Huffman.PopMin | encode.py:32 | a pop removes one tree of the queue, and that tree weighs no more than any other |
| Huffman.MergeStep | encode.py:32-39 | one pass of the loop shrinks the queue by exactly one tree |
| Huffman.RemoveConserves | encode.py:32-33 | taking a tree out of the queue takes exactly its weight and its leaves out of the queue's totals, and the rest stays well weighted |
| Huffman.PushParentConserves | encode.py:35-39 | pushing the merged node adds back the weights and leaves of both children and keeps every tree well weighted |
| Huffman.MergeStepConserves | encode.py:31-39 | a merge conserves the queue's total weight and its multiset of leaves, and keeps every tree well weighted |
| Huffman.MergeKeepsInvariant | encode.py:31-39 | one pass of the loop keeps the invariant (total weight = text length, leaves = distinct characters, all well weighted) and does not change the root the loop ends with |
| Huffman.InitialHeap | encode.py:27-28 | one leaf per distinct character, in `Counter` order, each weighted by its count and so of weight at least 1 |
| Huffman.Combine | encode.py:31-41 | None iff the queue is empty; otherwise the remaining root weighs the queue's total weight and carries the queue's multiset of leaves |
| Huffman.CountsSumToLength | encode.py:24-27 | the counts of the distinct characters add up to the length of the text |
| Huffman.InitialHeapInvariant | encode.py:24-28 | the initial queue is non-empty for a non-empty text, weighs the text's length, has one leaf per distinct character weighted by its count |
| Huffman.CombineKeepsInvariant | encode.py:31-41 | the loop ends with one root, which weighs the text's length, is well weighted and has the distinct characters as its leaves |
| Huffman.HuffmanTree | encode.py:18-41 | None iff the text is empty; otherwise the root weighs `len(text)`, every internal node weighs the sum of its children, every leaf weighs its character's count, and the leaves are exactly the distinct characters |
| Huffman.BuildHuffmanTree | encode.py:18-41 | the heap loop returns `HuffmanTree(text)` and so has all its properties |
| Codes.Get | encode.py:89 | `codes[char]` is present iff `char` is a key, and it is the value of an entry with that key |
| Codes.Put | encode.py:54 | `codes[k] = v` keeps the key order for a present key and appends a new key |
| Codes.PutGet | encode.py:54 | after `codes[k] = v`, `k` reads `v` and every other key reads as before |
| Codes.PutNew | encode.py:54 | assigning a new key appends the entry |
| Codes.PathCodes | encode.py:53-59 | the entries `build_codes` records from a subtree have exactly the subtree's leaves as keys, in leaf order |
| Codes.CodesOf | encode.py:44-61 | the dictionary `build_codes` returns: empty for a missing root, otherwise keyed by exactly the tree's leaves, with no key twice |
| Codes.PutAllKeys | encode.py:53-59 | after a batch of assignments the keys are the old keys and the batch's keys, and keys that were distinct stay distinct |
| Codes.CodeDict.constructor | encode.py:46-47 | a fresh dictionary is empty |
| Codes.CodeDict.Set | encode.py:54 | an assignment changes the shared dictionary as `Put` says |
| Codes.AddCodes | encode.py:53-59 | the recursion leaves the shared dictionary as the old one with all of the subtree's path codes assigned in order |
| Codes.BuildCodes | encode.py:44-61 | `build_codes(root)` returns a fresh dictionary holding the path codes of the tree, or nothing for a missing root |
| Codes.PutAllAppend | encode.py:58-59 | assigning two batches one after the other is assigning their concatenation |
| Codes.PutAllFresh | encode.py:53-59 | assigning keys that are all new appends them in order |
| Codes.CodesOfDistinctLeaves | encode.py:44-61 | for a tree with distinct leaves the dictionary is exactly its path codes, one entry per leaf |
| Codes.PathCodesExtend | encode.py:53-59 | every code recorded below a path starts with that path and is non-empty |
| Codes.PathCodesPrefixFree | encode.py:53-59 | no code is a prefix of another entry's code, and so no two entries share a code |
| Codes.BuiltCodesProperties | encode.py:44-61 | the built table has one entry per leaf, and its codes are non-empty and prefix-free |
| Codes.Payload | encode.py:89 | `''.join(codes[char] for char in text)` needs every character to be a key, and with non-empty codes it is at least one bit per character |
| Codes.Reverse | encode.py:178 | the inverted dictionary has at most as many entries as the table, since a repeated code keeps only its last key |
| Codes.ReverseDomain | encode.py:178 | a code is a key of the inverted dictionary iff some entry of the table has it |
| Codes.ReverseEntries | encode.py:178 | the last entry always reads back, as the comprehension's last write wins, and so does any entry whose code no other entry shares |
| Codes.CodeIsolated | encode.py:178 | in a prefix-free table each code maps back to its character and no shorter prefix of it is a code |
| Codes.Greedy | encode.py:181-189 | the greedy walk emits at most one character per bit |
| Codes.GreedyCode | encode.py:183-187 | walking a code whose shorter prefixes are not codes emits exactly its character and resets the accumulator |
| Codes.GreedyPayload | encode.py:181-189 | greedy decoding of the concatenated codes of a text recovers the text, for a prefix-free table of non-empty codes |
| Codes.LeftoverDropped | encode.py:181-189 | bits that never complete a code produce no output and no error |
| Codes.WalkPayload | encode.py:181-189 | the walking loop returns exactly `Greedy(bits, rev, [])` |
| Codebook.CharBytes | encode.py:92-93 | a key is written as three ASCII digits that spell its code point |
| Codebook.CodeBytes | encode.py:92-93 | a code is written as one '0' or '1' character per bit, in order |
| Codebook.Serialize | encode.py:92-93 | the serialized table is ASCII, so each character takes exactly 8 bits |
| Codebook.CharOf | encode.py:172-173 | three digits decode to a character only if they are that character's digits |
| Codebook.ParseCode | encode.py:172-173 | a code is read exactly up to its terminator |
| Codebook.Deserialize | encode.py:170-175 | a table that reads back has distinct keys and is exactly what `Serialize` writes for it; anything else is a failure |
| Codebook.ParseCodeBytes | encode.py:172-173 | reading a written code gives the code and the rest |
| Codebook.CharOfBytes | encode.py:172-173 | the digits of a character read back as that character |
| Codebook.DeserializeSerialize | encode.py:172-173 | reading the serialized table back gives the same dictionary, keys in the same order |
| Encode.Zeros | encode.py:106 | `'0' * n` is n zero bits |
| Encode.PaddingFor | encode.py:105 | the padding is below 8 and fills the bits up to whole bytes |
| Encode.TextCodes | encode.py:82-89 | the code table of a text has a code for each of its characters, so `codes[char]` never fails |
| Encode.TreeOfText | encode.py:82-86 | the leaves of a text's tree are distinct and include every character of the text |
| Encode.SingleCharacterCode | encode.py:53-54 | a text of one repeated character gets a one-leaf tree, and that leaf the code `0` |
| Encode.TextCodesProperties | encode.py:82-86 | the code table of a text has non-empty prefix-free codes and distinct keys |
| Encode.Frame | encode.py:96-110 | the message bits are 3 bits plus whole bytes; the first 3 bits hold the padding (below 8); when the table's bit count fits 32 bits, the next 32 bits hold that count, the table follows them, and the payload follows the table up to the padding |
| Encode.Message | encode.py:113 | the rendered message is made of 结 and 婚 only and is 3 symbols plus whole bytes long |
| Encode.EncryptText | encode.py:64-115 | the message is made of 结 and 婚 only; the empty text gives exactly 婚结; any other text gives at least 35 symbols, 3 plus a multiple of 8 |
| Encode.SplitFields | encode.py:139-160 | with `p` the 3-bit padding count and `n` the 32-bit length field, it succeeds iff there are at least 3 bits, at least 35 + `p`, and at least `n` bits between the header and the padding; every failure is malformed; on success the table is the `n` bits after the header and the payload the rest up to the padding |
| Encode.SplitFrame | encode.py:139-160 | the header fields read back the padding, the table and the payload that were written, when the table length fits 32 bits |
| Encode.Decode | encode.py:118-189 | an empty message, and only it, fails as empty input; the sentinel decodes to the empty text; apart from those, it fails on an unreadable symbol iff some character reads as no bit, and fails as malformed iff the bits read but fail the length checks of `SplitFields`; any other decoded message is at least 35 symbols long and no shorter than the text |
| Encode.DecryptText | encode.py:118-189 | the decoder's checks, regrouping loop and walking loop compute exactly `Decode(msg)` |
| Encode.DecodeFrame | encode.py:136-189 | a message built from a readable table and a payload decodes to the greedy walk of that payload |
| Encode.DecodeEncrypt | encode.py:64-189 | `decrypt_text(encrypt_text(text)) == text` whenever the table's bit count fits in 32 bits |
| Server.Encrypt | server.py:16-19 | each byte becomes exactly 8 symbols, each one of the two rule characters |
| Server.DecodeGroups | server.py:36-43 | one byte in [0, 255] per complete group of 8 symbols, or a failure |
| Server.Decrypt | server.py:36-43 | the grouping loop returns exactly `DecodeGroups` |
| Server.DecodeEncrypt | server.py:16-43 | decoding the rendering of any bytes returns those bytes |
| Server.TrailingGroupDropped | server.py:40-43 | fewer than 8 symbols after the last complete group are dropped, whatever they are |
| Server.DecodeGroupsBits | server.py:36-43 | on rule characters and digits only, decoding is reading the bits and regrouping them into bytes |

## Left out

- `pickle` and `base64` (encode.py:92-93, 172-173) are foreign library formats. `Codebook.Serialize` and `Codebook.Deserialize` replace them with an explicit ASCII schema. It has the two properties the codec relies on: every character is below 128, and `Deserialize` is a left inverse of `Serialize`.
- Codebook.Deserialize: it refuses inputs its own schema cannot read, and a well-formed stream that repeats a key, which no dictionary could have produced. Python raises `AttributeError` rather than `ValueError` when the pickle holds something other than a dictionary; that case does not arise here. Code strings that hold characters other than '0' and '1' cannot be written in the schema.
- Huffman.BuildHuffmanTree: `heapq` breaks ties between equal weights by the heap's internal layout. The model takes the first tree of least weight and appends the merged node. Every property proved here holds for that rule; the exact tree shape CPython builds is not reproduced.
- Huffman optimality (minimal expected code length) is not stated; the source never relies on it.
- The `isinstance` checks (encode.py:75-76, encode.py:129) are left out: Dafny's types make them vacuous.
- Encode.Decode: any character other than 结, 婚, '1' or '0' is refused as `InvalidSymbol` wherever it stands. Python's `int(.., 2)` raises only when such a character falls in the padding field, the length field or a code table byte. In the payload, Python would accumulate it and never match. Python's `int(.., 2)` also accepts a sign, underscores, surrounding whitespace and a `0b` prefix; that leniency is not modelled.
- Encode.DecodeEncrypt: it assumes the code table's bit count is below 2^32. For larger tables, `format(n, '032b')` writes more than 32 bits, and the decoder then misreads the length. `Bits.Format` models that growth faithfully.
- Server.Encrypt: it requires the two rule characters to be distinct and not binary digits, as 结 and 婚 are. With other rules the chained `replace` calls of server.py:19 and server.py:36 would mix the symbols up.
- Server.DecodeGroups: it requires the same of the rule. It also returns None for 8-symbol groups that server.py:43's `int(byte, 2)` accepts and turns into a byte, such as `" 1111111"`, `"+1111111"`, `"1_111111"` and `"0b111111"`; the model reads a group only when each of its symbols is a rule character or a binary digit.
- Codebook.CharOf: a Python `str` can hold the lone surrogates U+D800 to U+DFFF, and pickle writes and reads them. A Dafny `char` cannot hold them, so texts containing them are outside the model, and `CharOf` refuses their digits.
- The UTF-8 `encode` and `decode` of server.py (server.py:13, server.py:46) are left out; the model works on bytes. An invalid UTF-8 sequence would raise in Python, and this model cannot show that.
- `main.py` is not part of this model. Its point is `zlib` compression, a foreign library, and its uncompressed path repeats the mapping of server.py.
- The demonstrations, printing and float ratios (encode.py:192-267, server.py:51-74) are left out.
- The decoder strips the padding (encode.py:145-148) before it reads the length field (encode.py:151-154); the model keeps that order.
- Leftover payload bits are dropped silently (encode.py:189); `Codes.LeftoverDropped` states it.
- A code table that reads back is not checked for prefix freedom (encode.py:178), and neither is the model's.
