/** The code table of encode.py: `build_codes` (encode.py:44-61) walks the
    Huffman tree and records each leaf's root-to-leaf path (left 0, right 1)
    in a dictionary; the encoder concatenates the codes of the text's
    characters (encode.py:89), and the decoder inverts the dictionary
    (encode.py:178) and walks the payload greedily (encode.py:181-189).

    A Python dictionary keeps its keys in insertion order, and that order is
    what pickle writes, so the table is an association list: assigning to a
    present key replaces its value in place, assigning to a new key appends. */
module Codes {

  import opened Wrappers
  import opened Bits
  import opened Huffman

  type Code = seq<Bit>

  /** A `dict` from characters to codes, in insertion order. */
  type CodeTable = seq<(char, Code)>

  function Keys(es: CodeTable): seq<char>
  {
    seq(|es|, i requires 0 <= i < |es| => es[i].0)
  }

  /** `es[k]`, or None when `k` is no key. */
  function Get(es: CodeTable, k: char): (r: Option<Code>)
    ensures r.Some? <==> k in Keys(es)
    ensures r.Some? ==> exists i :: 0 <= i < |es| && es[i] == (k, r.value)
  {
    if es == [] then None
    else if es[0].0 == k then
      assert Keys(es)[0] == k;
      Some(es[0].1)
    else
      assert Keys(es) == [es[0].0] + Keys(es[1..]);
      var r := Get(es[1..], k);
      if r.Some? then
        var i :| 0 <= i < |es[1..]| && es[1..][i] == (k, r.value);
        assert es[i + 1] == (k, r.value);
        r
      else r
  }

  /** `es[k] = v`: a present key keeps its place and takes the new value, a
      new key goes at the end. */
  function Put(es: CodeTable, k: char, v: Code): (r: CodeTable)
    ensures Keys(r) == if k in Keys(es) then Keys(es) else Keys(es) + [k]
  {
    if es == [] then [(k, v)]
    else if es[0].0 == k then
      assert k in Keys(es) && Keys([(k, v)] + es[1..]) == Keys(es) by {
        assert Keys(es) == [k] + Keys(es[1..]);
        assert Keys([(k, v)] + es[1..]) == [k] + Keys(es[1..]);
      }
      [(k, v)] + es[1..]
    else
      var rest := Put(es[1..], k, v);
      assert (k in Keys(es) <==> k in Keys(es[1..])) && Keys(es) == [es[0].0] + Keys(es[1..]) by {
        assert Keys(es) == [es[0].0] + Keys(es[1..]);
      }
      assert Keys([es[0]] + rest) == [es[0].0] + Keys(rest);
      [es[0]] + rest
  }

  /** After `es[k] = v`, `k` reads `v` and every other key reads what it
      read before. */
  lemma {:induction false} PutGet(es: CodeTable, k: char, v: Code, k': char)
    ensures Get(Put(es, k, v), k') == if k' == k then Some(v) else Get(es, k')
    decreases |es|
  {
    if es != [] && es[0].0 != k {
      var rest := Put(es[1..], k, v);
      assert ([es[0]] + rest)[1..] == rest;
      PutGet(es[1..], k, v, k');
    } else if es != [] {
      assert ([(k, v)] + es[1..])[1..] == es[1..];
    }
  }

  /** The assignments of `es`, one after the other, into `acc`. */
  function PutAll(acc: CodeTable, es: CodeTable): CodeTable
    decreases |es|
  {
    if es == [] then acc else PutAll(Put(acc, es[0].0, es[0].1), es[1..])
  }

  /** What `build_codes(t, path)` assigns, in the order it assigns it: a
      leaf gets the path that leads to it, or "0" when that path is empty
      (a tree that is a single leaf); a node hands `path + 0` to its left
      child and then `path + 1` to its right child. */
  function PathCodes(t: Tree, path: Code): (es: CodeTable)
    ensures Keys(es) == Syms(t)
  {
    match t
    case Leaf(c, _) => [(c, if path == [] then [false] else path)]
    case Node(_, l, r) =>
      var left, right := PathCodes(l, path + [false]), PathCodes(r, path + [true]);
      assert Keys(left + right) == Keys(left) + Keys(right);
      left + right
  }

  /** The dictionary `build_codes(root)` returns: empty for a missing root,
      otherwise keyed by exactly the tree's leaf characters, none twice. */
  function CodesOf(root: Option<Tree>): (r: CodeTable)
    ensures root.None? ==> r == []
    ensures forall c :: c in Keys(r) <==> root.Some? && c in Syms(root.value)
    ensures NoDuplicates(Keys(r))
  {
    match root
    case None => []
    case Some(t) =>
      PutAllKeys([], PathCodes(t, []));
      PutAll([], PathCodes(t, []))
  }

  /** Assignments make exactly the assigned keys present, and never repeat a
      key. */
  lemma {:induction false} PutAllKeys(acc: CodeTable, es: CodeTable)
    ensures forall c :: c in Keys(PutAll(acc, es)) <==> c in Keys(acc) || c in Keys(es)
    ensures NoDuplicates(Keys(acc)) ==> NoDuplicates(Keys(PutAll(acc, es)))
    decreases |es|
  {
    if es != [] {
      var next := Put(acc, es[0].0, es[0].1);
      assert Keys(es) == [es[0].0] + Keys(es[1..]);
      PutAllKeys(next, es[1..]);
      if NoDuplicates(Keys(acc)) && es[0].0 !in Keys(acc) {
        var ks := Keys(acc) + [es[0].0];
        forall i, j | 0 <= i < j < |ks|
          ensures ks[i] != ks[j]
        {
          if j == |ks| - 1 {
            assert ks[i] == Keys(acc)[i];
          } else {
            assert ks[i] == Keys(acc)[i] && ks[j] == Keys(acc)[j];
          }
        }
      }
    }
  }

  // ---------------------------------------------------------------------------
  // The dictionary filled in place

  /** The `codes` dictionary that the recursion of `build_codes` shares and
      fills in place. */
  class CodeDict {
    var entries: CodeTable

    constructor ()
      ensures entries == []
    {
      entries := [];
    }

    /** `codes[k] = v`. */
    method Set(k: char, v: Code)
      modifies this
      ensures entries == Put(old(entries), k, v)
    {
      entries := Put(entries, k, v);
    }
  }

  /** `build_codes(node, current, codes)` (encode.py:53-59) for a node that
      is present: a leaf records its code, a node recurses left with a 0
      appended and then right with a 1 appended. */
  method AddCodes(node: Tree, current: Code, codes: CodeDict)
    modifies codes
    ensures codes.entries == PutAll(old(codes.entries), PathCodes(node, current))
    decreases node
  {
    match node
    case Leaf(c, _) =>
      codes.Set(c, if current == [] then [false] else current);
    case Node(_, l, r) =>
      ghost var before := codes.entries;
      AddCodes(l, current + [false], codes);
      AddCodes(r, current + [true], codes);
      PutAllAppend(before, PathCodes(l, current + [false]), PathCodes(r, current + [true]));
  }

  /** `build_codes(root)` (encode.py:44-61): a fresh dictionary, left empty
      for a missing root. */
  method BuildCodes(root: Option<Tree>) returns (codes: CodeDict)
    ensures fresh(codes)
    ensures codes.entries == CodesOf(root)
  {
    codes := new CodeDict();
    if root.Some? {
      AddCodes(root.value, [], codes);
    }
  }

  lemma {:induction false} PutAllAppend(acc: CodeTable, a: CodeTable, b: CodeTable)
    ensures PutAll(acc, a + b) == PutAll(PutAll(acc, a), b)
    decreases |a|
  {
    if a != [] {
      assert (a + b)[0] == a[0] && (a + b)[1..] == a[1..] + b;
      PutAllAppend(Put(acc, a[0].0, a[0].1), a[1..], b);
    } else {
      assert a + b == b;
    }
  }

  /** Assigning a new key appends it. */
  lemma {:induction false} PutNew(es: CodeTable, k: char, v: Code)
    requires k !in Keys(es)
    ensures Put(es, k, v) == es + [(k, v)]
    decreases |es|
  {
    if es != [] {
      var rest := es[1..];
      assert es[0].0 != k && k !in Keys(rest) by {
        assert Keys(es) == [es[0].0] + Keys(rest);
      }
      calc {
        Put(es, k, v);
        [es[0]] + Put(rest, k, v);
        == { PutNew(rest, k, v); }
        [es[0]] + (rest + [(k, v)]);
        == { assert es == [es[0]] + rest; }
        es + [(k, v)];
      }
    }
  }

  /** Assigning keys that are all new appends them in order. */
  lemma {:induction false} PutAllFresh(acc: CodeTable, es: CodeTable)
    requires NoDuplicates(Keys(acc + es))
    ensures PutAll(acc, es) == acc + es
    decreases |es|
  {
    if es != [] {
      var e := es[0];
      assert e.0 !in Keys(acc) by {
        var all := Keys(acc + es);
        assert all[|acc|] == e.0;
        forall i | 0 <= i < |acc|
          ensures Keys(acc)[i] != e.0
        {
          assert all[i] == Keys(acc)[i];
        }
      }
      assert Put(acc, e.0, e.1) == acc + [e] by {
        PutNew(acc, e.0, e.1);
      }
      assert acc + es == (acc + [e]) + es[1..];
      PutAllFresh(acc + [e], es[1..]);
    } else {
      assert acc + es == acc;
    }
  }

  /** A tree whose leaves are distinct characters gets one entry per leaf,
      in leaf order, each holding that leaf's path code. */
  lemma {:induction false} CodesOfDistinctLeaves(t: Tree)
    requires NoDuplicates(Syms(t))
    ensures CodesOf(Some(t)) == PathCodes(t, [])
    ensures Keys(CodesOf(Some(t))) == Syms(t)
  {
    assert [] + PathCodes(t, []) == PathCodes(t, []);
    PutAllFresh([], PathCodes(t, []));
  }

  // ---------------------------------------------------------------------------
  // Prefix freedom

  /** `u` is a prefix of `w` (`w.startswith(u)`). */
  predicate IsPrefix(u: Code, w: Code)
  {
    |u| <= |w| && w[..|u|] == u
  }

  /** No code of the table is a prefix of the code of another entry; in
      particular no two entries share a code. */
  ghost predicate PrefixFree(es: CodeTable)
  {
    forall i, j :: 0 <= i < |es| && 0 <= j < |es| && i != j ==> !IsPrefix(es[i].1, es[j].1)
  }

  /** Every code is non-empty. */
  ghost predicate NonEmptyCodes(es: CodeTable)
  {
    forall i :: 0 <= i < |es| ==> es[i].1 != []
  }

  /** Every code recorded below `path` starts with `path` and is not empty. */
  lemma {:induction false} PathCodesExtend(t: Tree, path: Code)
    ensures forall i :: 0 <= i < |PathCodes(t, path)| ==>
              IsPrefix(path, PathCodes(t, path)[i].1) && PathCodes(t, path)[i].1 != []
    decreases t
  {
    match t
    case Leaf(_, _) =>
    case Node(_, l, r) =>
      var left: CodeTable, right: CodeTable := PathCodes(l, path + [false]), PathCodes(r, path + [true]);
      PathCodesExtend(l, path + [false]);
      PathCodesExtend(r, path + [true]);
      forall i | 0 <= i < |left + right|
        ensures IsPrefix(path, (left + right)[i].1)
      {
        var w := (left + right)[i].1;
        var p' := if i < |left| then path + [false] else path + [true];
        assert IsPrefix(p', w);
        assert w[..|path|] == w[..|p'|][..|path|] == p'[..|path|] == path;
      }
  }

  /** `build_codes` assigns prefix-free codes: two leaves at different places
      of the tree part ways at the node where their paths divide. */
  lemma {:induction false} PathCodesPrefixFree(t: Tree, path: Code)
    ensures PrefixFree(PathCodes(t, path))
    decreases t
  {
    match t
    case Leaf(_, _) =>
    case Node(_, l, r) =>
      var pl, pr := path + [false], path + [true];
      var left, right := PathCodes(l, pl), PathCodes(r, pr);
      var es := left + right;
      PathCodesPrefixFree(l, pl);
      PathCodesPrefixFree(r, pr);
      PathCodesExtend(l, pl);
      PathCodesExtend(r, pr);
      forall i, j | 0 <= i < |es| && 0 <= j < |es| && i != j
        ensures !IsPrefix(es[i].1, es[j].1)
      {
        if i < |left| && j < |left| {
          assert es[i] == left[i] && es[j] == left[j];
        } else if i >= |left| && j >= |left| {
          assert es[i] == right[i - |left|] && es[j] == right[j - |left|];
        } else {
          var u, w := es[i].1, es[j].1;
          var pu, pw := if i < |left| then pl else pr, if j < |left| then pl else pr;
          assert IsPrefix(pu, u) && IsPrefix(pw, w);
          assert u[|path|] == pu[|path|] != pw[|path|] == w[|path|];
        }
      }
  }

  /** The table `build_codes` returns for the tree of a text: one entry per
      distinct character, in leaf order, with non-empty prefix-free codes. */
  lemma {:induction false} BuiltCodesProperties(t: Tree)
    requires NoDuplicates(Syms(t))
    ensures Keys(CodesOf(Some(t))) == Syms(t)
    ensures PrefixFree(CodesOf(Some(t))) && NonEmptyCodes(CodesOf(Some(t)))
  {
    CodesOfDistinctLeaves(t);
    PathCodesPrefixFree(t, []);
    PathCodesExtend(t, []);
  }

  // ---------------------------------------------------------------------------
  // Encoding and greedy decoding

  /** `''.join(codes[char] for char in text)` (encode.py:89): with non-empty
      codes it has at least one bit per character. */
  function Payload(text: seq<char>, es: CodeTable): (bits: Code)
    requires forall i :: 0 <= i < |text| ==> text[i] in Keys(es)
    ensures NonEmptyCodes(es) ==> |bits| >= |text|
  {
    if text == [] then [] else Get(es, text[0]).value + Payload(text[1..], es)
  }

  /** `{v: k for k, v in codes.items()}` (encode.py:178): a later entry with
      the same code overwrites an earlier one, so the inverted dictionary
      has at most as many entries as the table. */
  function Reverse(es: CodeTable): (rev: map<Code, char>)
    ensures |rev| <= |es|
  {
    if es == [] then map[]
    else Reverse(es[..|es| - 1])[es[|es| - 1].1 := es[|es| - 1].0]
  }

  /** The codes of the reverse table are exactly the codes of the entries. */
  lemma {:induction false} ReverseDomain(es: CodeTable)
    ensures forall w :: w in Reverse(es) <==> exists j :: 0 <= j < |es| && es[j].1 == w
    decreases |es|
  {
    if es != [] {
      var init := es[..|es| - 1];
      var last := es[|es| - 1];
      ReverseDomain(init);
      assert Reverse(es) == Reverse(init)[last.1 := last.0];
      forall w | w in Reverse(es)
        ensures exists j :: 0 <= j < |es| && es[j].1 == w
      {
        if w != last.1 {
          var j :| 0 <= j < |init| && init[j].1 == w;
          assert es[j] == init[j];
        }
      }
      forall w | exists j :: 0 <= j < |es| && es[j].1 == w
        ensures w in Reverse(es)
      {
        var j :| 0 <= j < |es| && es[j].1 == w;
        if j < |init| {
          assert init[j] == es[j];
          assert w in Reverse(init);
        } else {
          assert w == last.1;
        }
      }
    }
  }

  /** The last entry always reads back its own character, and so does an
      entry whose code no other entry shares. */
  lemma {:induction false} ReverseEntries(es: CodeTable)
    ensures es != [] ==> Reverse(es)[es[|es| - 1].1] == es[|es| - 1].0
    ensures forall i :: 0 <= i < |es| && (forall j :: 0 <= j < |es| && j != i ==> es[j].1 != es[i].1) ==>
              es[i].1 in Reverse(es) && Reverse(es)[es[i].1] == es[i].0
    decreases |es|
  {
    if es != [] {
      var init := es[..|es| - 1];
      var last := es[|es| - 1];
      ReverseEntries(init);
      assert Reverse(es) == Reverse(init)[last.1 := last.0];
      forall i | 0 <= i < |es| && (forall j :: 0 <= j < |es| && j != i ==> es[j].1 != es[i].1)
        ensures es[i].1 in Reverse(es) && Reverse(es)[es[i].1] == es[i].0
      {
        if i < |init| {
          assert es[i] == init[i];
          forall j | 0 <= j < |init| && j != i
            ensures init[j].1 != init[i].1
          {
            assert init[j] == es[j];
          }
        }
      }
    }
  }

  /** The greedy walk of encode.py:181-189 from accumulator `cur`: each bit
      is appended to the accumulator, and as soon as the accumulator is a
      code its character is emitted and the accumulator starts over. Bits
      left in the accumulator at the end are dropped. */
  function Greedy(bits: Code, rev: map<Code, char>, cur: Code): (text: seq<char>)
    ensures |text| <= |bits|
    decreases |bits|
  {
    if bits == [] then []
    else
      var acc := cur + [bits[0]];
      if acc in rev then [rev[acc]] + Greedy(bits[1..], rev, [])
      else Greedy(bits[1..], rev, acc)
  }

  /** Walking the rest of a code `w` whose first `k` bits are already
      accumulated emits exactly its character when no shorter prefix of
      `w` is a code. */
  lemma {:induction false} GreedyCode(w: Code, k: nat, rest: Code, rev: map<Code, char>)
    requires k < |w| && w in rev
    requires forall m :: k < m < |w| ==> w[..m] !in rev
    ensures Greedy(w[k..] + rest, rev, w[..k]) == [rev[w]] + Greedy(rest, rev, [])
    decreases |w| - k
  {
    var bits := w[k..] + rest;
    assert bits[0] == w[k] && bits[1..] == w[k + 1..] + rest;
    assert w[..k] + [w[k]] == w[..k + 1];
    if k + 1 == |w| {
      assert w[..k + 1] == w;
      assert w[k + 1..] + rest == rest;
    } else {
      GreedyCode(w, k + 1, rest, rev);
    }
  }

  /** Greedy decoding of a concatenation of prefix-free, non-empty codes
      recovers the characters they encode, and then walks on. */
  lemma {:induction false} GreedyPayload(text: seq<char>, es: CodeTable, tail: Code)
    requires PrefixFree(es) && NonEmptyCodes(es)
    requires forall i :: 0 <= i < |text| ==> text[i] in Keys(es)
    ensures Greedy(Payload(text, es) + tail, Reverse(es), []) == text + Greedy(tail, Reverse(es), [])
    decreases |text|
  {
    if text == [] {
      assert Payload(text, es) + tail == tail;
    } else {
      var rev := Reverse(es);
      calc {
        Greedy(Payload(text, es) + tail, rev, []);
        == { GreedyFirst(text, es, tail); }
        [text[0]] + Greedy(Payload(text[1..], es) + tail, rev, []);
        == { GreedyPayload(text[1..], es, tail); }
        [text[0]] + (text[1..] + Greedy(tail, rev, []));
        == { assert text == [text[0]] + text[1..]; }
        text + Greedy(tail, rev, []);
      }
    }
  }

  /** The walk reads the first character's code off the front of a payload. */
  lemma {:induction false} GreedyFirst(text: seq<char>, es: CodeTable, tail: Code)
    requires PrefixFree(es) && NonEmptyCodes(es) && text != []
    requires forall i :: 0 <= i < |text| ==> text[i] in Keys(es)
    ensures Greedy(Payload(text, es) + tail, Reverse(es), []) ==
            [text[0]] + Greedy(Payload(text[1..], es) + tail, Reverse(es), [])
  {
    var rev := Reverse(es);
    var w := Get(es, text[0]).value;
    var more := Payload(text[1..], es) + tail;
    assert Payload(text, es) + tail == w[0..] + more by {
      assert Payload(text, es) == w + Payload(text[1..], es);
      assert w[0..] == w;
    }
    var i :| 0 <= i < |es| && es[i] == (text[0], w);
    CodeIsolated(es, i);
    assert w[..0] == [];
    GreedyCode(w, 0, more, rev);
  }

  /** In a prefix-free table, each entry's code reads back its own
      character and no shorter prefix of it is a code. */
  lemma {:induction false} CodeIsolated(es: CodeTable, i: nat)
    requires PrefixFree(es) && i < |es|
    ensures es[i].1 in Reverse(es) && Reverse(es)[es[i].1] == es[i].0
    ensures forall m :: 0 <= m < |es[i].1| ==> es[i].1[..m] !in Reverse(es)
  {
    var w := es[i].1;
    ReverseDomain(es);
    ReverseEntries(es);
    forall j | 0 <= j < |es| && j != i
      ensures es[j].1 != w
    {
      assert !IsPrefix(es[j].1, w);
    }
    forall m, j | 0 <= m < |w| && 0 <= j < |es|
      ensures es[j].1 != w[..m]
    {
      if j != i {
        assert !IsPrefix(es[j].1, w);
      }
    }
  }

  /** Bits that never complete a code are dropped without a trace
      (encode.py:189): the walk ends and returns nothing for them. */
  lemma {:induction false} LeftoverDropped(bits: Code, rev: map<Code, char>, cur: Code)
    requires forall m :: 0 < m <= |bits| ==> cur + bits[..m] !in rev
    ensures Greedy(bits, rev, cur) == []
    decreases |bits|
  {
    if bits != [] {
      assert cur + bits[..1] == cur + [bits[0]];
      forall m | 0 < m <= |bits[1..]|
        ensures (cur + [bits[0]]) + bits[1..][..m] !in rev
      {
        assert (cur + [bits[0]]) + bits[1..][..m] == cur + bits[..m + 1];
      }
      LeftoverDropped(bits[1..], rev, cur + [bits[0]]);
    }
  }

  /** The decoding loop of encode.py:181-189. */
  method WalkPayload(bits: Code, rev: map<Code, char>) returns (text: seq<char>)
    ensures text == Greedy(bits, rev, [])
  {
    text := [];
    var cur: Code := [];
    var i := 0;
    while i < |bits|
      invariant 0 <= i <= |bits|
      invariant text + Greedy(bits[i..], rev, cur) == Greedy(bits, rev, [])
      decreases |bits| - i
    {
      assert bits[i..][0] == bits[i] && bits[i..][1..] == bits[i + 1..];
      cur := cur + [bits[i]];
      if cur in rev {
        text := text + [rev[cur]];
        cur := [];
      }
      i := i + 1;
    }
    assert bits[i..] == [];
  }
}
