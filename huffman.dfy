/** The Huffman tree of encode.py: the frequency count of the text
    (`Counter`), one leaf per distinct character, and the loop that merges
    the two lightest nodes of a priority queue until one root remains
    (`build_huffman_tree`, encode.py:18-41).

    The priority queue is a sequence of trees. Popping takes the first
    tree of least weight in that sequence and pushing appends, which fixes
    one deterministic order among equal weights (heapq leaves it to the
    heap's internal layout). */
module Huffman {

  import opened Wrappers

  /** `HuffmanNode`: a leaf carries a character and its frequency, an
      internal node (char None in the source) carries the weight of its two
      children. */
  datatype Tree = Leaf(sym: char, weight: nat) | Node(weight: nat, left: Tree, right: Tree)

  /** The characters at the leaves, left to right. */
  function Syms(t: Tree): seq<char>
  {
    match t
    case Leaf(c, _) => [c]
    case Node(_, l, r) => Syms(l) + Syms(r)
  }

  /** Every tree has at least one leaf. */
  lemma {:induction false} SymsNonEmpty(t: Tree)
    ensures |Syms(t)| >= 1
  {
    match t
    case Leaf(_, _) =>
    case Node(_, l, r) =>
      SymsNonEmpty(l);
  }

  /** No character occurs twice. */
  predicate NoDuplicates(s: seq<char>)
  {
    forall i, j :: 0 <= i < j < |s| ==> s[i] != s[j]
  }

  /** A sequence has no duplicates exactly when it holds every character at
      most once. */
  lemma {:induction false} NoDuplicatesCount(s: seq<char>)
    ensures NoDuplicates(s) <==> forall x :: multiset(s)[x] <= 1
  {
    if NoDuplicates(s) && s != [] {
      var rest := s[1..];
      assert s == [s[0]] + rest;
      assert NoDuplicates(rest) by {
        forall i, j | 0 <= i < j < |rest|
          ensures rest[i] != rest[j]
        {
          assert s[i + 1] != s[j + 1];
        }
      }
      NoDuplicatesCount(rest);
      assert s[0] !in rest by {
        forall i | 0 <= i < |rest|
          ensures rest[i] != s[0]
        {
          assert s[0] != s[i + 1];
        }
      }
      forall x
        ensures multiset(s)[x] <= 1
      {
        assert multiset(s) == multiset{s[0]} + multiset(rest);
      }
    }
    if forall x :: multiset(s)[x] <= 1 {
      forall i, j | 0 <= i < j < |s|
        ensures s[i] != s[j]
      {
        assert s == s[..j] + s[j..];
        assert s[..j][i] in s[..j] && s[j..][0] in s[j..];
        assert multiset(s) == multiset(s[..j]) + multiset(s[j..]);
        assert multiset(s[..j])[s[i]] >= 1 && multiset(s[j..])[s[j]] >= 1;
        assert multiset(s)[s[i]] <= 1;
      }
    }
  }

  /** Every leaf weighs as many as its character occurs in `text`, and every
      internal node weighs the sum of its children. */
  ghost predicate WellWeighted(t: Tree, text: seq<char>)
  {
    match t
    case Leaf(c, w) => w == multiset(text)[c]
    case Node(w, l, r) => w == l.weight + r.weight && WellWeighted(l, text) && WellWeighted(r, text)
  }

  // ---------------------------------------------------------------------------
  // Frequencies

  /** The keys of `Counter(text)` in the order it lists them: each character
      once, at its first occurrence. */
  function Distinct(text: seq<char>): (d: seq<char>)
    ensures NoDuplicates(d)
    ensures forall c :: c in d <==> c in text
  {
    if text == [] then []
    else
      var init := text[..|text| - 1];
      var last := text[|text| - 1];
      assert text == init + [last];
      var d := Distinct(init);
      if last in d then d else d + [last]
  }

  /** One leaf per character of `keys`, weighted by `freq`. */
  function Leaves(keys: seq<char>, freq: multiset<char>): (h: seq<Tree>)
    ensures |h| == |keys|
    ensures forall i :: 0 <= i < |h| ==> h[i] == Leaf(keys[i], freq[keys[i]])
  {
    if keys == [] then [] else [Leaf(keys[0], freq[keys[0]])] + Leaves(keys[1..], freq)
  }

  /** The queue before the first merge: a leaf per distinct character, its
      weight that character's count, which is never zero (encode.py:24-28). */
  function InitialHeap(text: seq<char>): (h: seq<Tree>)
    ensures |h| == |Distinct(text)|
    ensures forall i :: 0 <= i < |h| ==>
              && h[i] == Leaf(Distinct(text)[i], multiset(text)[Distinct(text)[i]])
              && h[i].weight >= 1
  {
    var d := Distinct(text);
    assert forall i :: 0 <= i < |d| ==> d[i] in d;
    Leaves(d, multiset(text))
  }

  // ---------------------------------------------------------------------------
  // The priority queue

  function HeapWeight(h: seq<Tree>): nat
  {
    if h == [] then 0 else h[0].weight + HeapWeight(h[1..])
  }

  /** The leaf characters of all trees in the queue, tree after tree. */
  function HeapSyms(h: seq<Tree>): seq<char>
  {
    if h == [] then [] else Syms(h[0]) + HeapSyms(h[1..])
  }

  /** The index `heappop` takes: the first tree of least weight. */
  function MinIndex(h: seq<Tree>): (i: nat)
    requires |h| > 0
    ensures i < |h|
    ensures forall j :: 0 <= j < |h| ==> h[i].weight <= h[j].weight
    ensures forall j :: 0 <= j < i ==> h[j].weight > h[i].weight
  {
    if |h| == 1 then 0
    else
      var k := MinIndex(h[1..]) + 1;
      if h[0].weight <= h[k].weight then 0 else k
  }

  /** `heappop`: a tree of least weight, and the queue without it. */
  function PopMin(h: seq<Tree>): (r: (Tree, seq<Tree>))
    requires |h| > 0
    ensures exists i :: 0 <= i < |h| && r.0 == h[i] && r.1 == h[..i] + h[i + 1..]
    ensures forall j :: 0 <= j < |h| ==> r.0.weight <= h[j].weight
  {
    var i := MinIndex(h);
    (h[i], h[..i] + h[i + 1..])
  }

  /** One pass of the loop body (encode.py:32-39): pop two, push their parent. */
  function MergeStep(h: seq<Tree>): (h': seq<Tree>)
    requires |h| >= 2
    ensures |h'| == |h| - 1
  {
    var first := PopMin(h);
    var second := PopMin(first.1);
    second.1 + [Node(first.0.weight + second.0.weight, first.0, second.0)]
  }

  /** The root the loop ends with, or None for an empty queue
      (encode.py:31-41). The root weighs what the whole queue weighed and
      has all of the queue's leaves. */
  function Combine(h: seq<Tree>): (r: Option<Tree>)
    ensures r.None? <==> h == []
    ensures r.Some? ==> r.value.weight == HeapWeight(h)
    ensures r.Some? ==> multiset(Syms(r.value)) == multiset(HeapSyms(h))
    decreases |h|
  {
    if |h| == 0 then None
    else if |h| == 1 then
      assert h == [h[0]];
      SingletonHeap(h[0], []);
      Some(h[0])
    else
      MergeStepConserves(h, []);
      Combine(MergeStep(h))
  }

  /** `build_huffman_tree` as a value: None for the empty text, otherwise the
      root of the merged queue. Its leaves are exactly the distinct
      characters of the text, each weighted by its count, every internal node
      weighs the sum of its children, and the root weighs the text's length. */
  function HuffmanTree(text: seq<char>): (r: Option<Tree>)
    ensures r.None? <==> text == []
    ensures r.Some? ==> r.value.weight == |text| && WellWeighted(r.value, text)
    ensures r.Some? ==> multiset(Syms(r.value)) == multiset(Distinct(text))
  {
    if text == [] then None
    else
      InitialHeapInvariant(text);
      CombineKeepsInvariant(InitialHeap(text), text);
      Combine(InitialHeap(text))
  }

  // ---------------------------------------------------------------------------
  // The invariant of the merge loop

  /** What the loop keeps: the weights add up to the text's length, the
      leaves are the distinct characters of the text, and every tree is well
      weighted. */
  ghost predicate HeapInvariant(h: seq<Tree>, text: seq<char>)
  {
    && HeapWeight(h) == |text|
    && multiset(HeapSyms(h)) == multiset(Distinct(text))
    && AllWellWeighted(h, text)
  }

  ghost predicate AllWellWeighted(h: seq<Tree>, text: seq<char>)
  {
    h == [] || (WellWeighted(h[0], text) && AllWellWeighted(h[1..], text))
  }

  lemma {:induction false} HeapConcat(a: seq<Tree>, b: seq<Tree>, text: seq<char>)
    ensures HeapWeight(a + b) == HeapWeight(a) + HeapWeight(b)
    ensures HeapSyms(a + b) == HeapSyms(a) + HeapSyms(b)
    ensures AllWellWeighted(a + b, text) <==> AllWellWeighted(a, text) && AllWellWeighted(b, text)
  {
    if a != [] {
      assert (a + b)[1..] == a[1..] + b;
      HeapConcat(a[1..], b, text);
    } else {
      assert a + b == b;
    }
  }

  /** Taking the tree at index `i` out of the queue takes its weight and its
      leaves out of the queue's totals, and leaves the rest well weighted. */
  lemma {:induction false} RemoveConserves(h: seq<Tree>, i: nat, text: seq<char>)
    requires i < |h|
    ensures HeapWeight(h) == h[i].weight + HeapWeight(h[..i] + h[i + 1..])
    ensures multiset(HeapSyms(h)) == multiset(Syms(h[i])) + multiset(HeapSyms(h[..i] + h[i + 1..]))
    ensures AllWellWeighted(h, text) <==>
              WellWeighted(h[i], text) && AllWellWeighted(h[..i] + h[i + 1..], text)
  {
    var before, after := h[..i], h[i + 1..];
    assert h == (before + [h[i]]) + after;
    HeapConcat(before + [h[i]], after, text);
    HeapConcat(before, [h[i]], text);
    HeapConcat(before, after, text);
    SingletonHeap(h[i], text);
  }

  /** Popping a tree takes its weight and its leaves out of the queue. */
  lemma {:induction false} PopMinConserves(h: seq<Tree>, text: seq<char>)
    requires |h| > 0
    ensures HeapWeight(h) == PopMin(h).0.weight + HeapWeight(PopMin(h).1)
    ensures multiset(HeapSyms(h)) == multiset(Syms(PopMin(h).0)) + multiset(HeapSyms(PopMin(h).1))
    ensures AllWellWeighted(h, text) ==>
              WellWeighted(PopMin(h).0, text) && AllWellWeighted(PopMin(h).1, text)
  {
    var i :| 0 <= i < |h| && PopMin(h).0 == h[i] && PopMin(h).1 == h[..i] + h[i + 1..];
    RemoveConserves(h, i, text);
  }

  lemma {:induction false} SingletonHeap(t: Tree, text: seq<char>)
    ensures HeapWeight([t]) == t.weight && HeapSyms([t]) == Syms(t)
    ensures AllWellWeighted([t], text) <==> WellWeighted(t, text)
  {
    assert [t][1..] == [];
  }

  /** Pushing the parent of two popped trees gives back their weight and
      their leaves. */
  lemma {:induction false} PushParentConserves(rest: seq<Tree>, left: Tree, right: Tree, text: seq<char>)
    ensures HeapWeight(rest + [Node(left.weight + right.weight, left, right)]) ==
            HeapWeight(rest) + left.weight + right.weight
    ensures multiset(HeapSyms(rest + [Node(left.weight + right.weight, left, right)])) ==
            multiset(HeapSyms(rest)) + multiset(Syms(left)) + multiset(Syms(right))
    ensures AllWellWeighted(rest, text) && WellWeighted(left, text) && WellWeighted(right, text) ==>
              AllWellWeighted(rest + [Node(left.weight + right.weight, left, right)], text)
  {
    var parent := Node(left.weight + right.weight, left, right);
    HeapConcat(rest, [parent], text);
    SingletonHeap(parent, text);
  }

  /** One merge shrinks the queue by one, conserves its total weight and its
      leaves, and keeps every tree well weighted. */
  lemma {:induction false} MergeStepConserves(h: seq<Tree>, text: seq<char>)
    requires |h| >= 2
    ensures HeapWeight(MergeStep(h)) == HeapWeight(h)
    ensures multiset(HeapSyms(MergeStep(h))) == multiset(HeapSyms(h))
    ensures AllWellWeighted(h, text) ==> AllWellWeighted(MergeStep(h), text)
  {
    var first := PopMin(h);
    var second := PopMin(first.1);
    MergeStepUnfold(h);
    PopMinConserves(h, text);
    PopMinConserves(first.1, text);
    MergeConserves(h, first.0, first.1, second.0, second.1, MergeStep(h), text);
  }

  /** The loop's invariant survives one pass, and the root it leads to
      does not change. */
  lemma {:induction false} MergeKeepsInvariant(h: seq<Tree>, left: (Tree, seq<Tree>), right: (Tree, seq<Tree>),
                                               h': seq<Tree>, text: seq<char>)
    requires |h| >= 2 && HeapInvariant(h, text)
    requires left == PopMin(h) && right == PopMin(left.1)
    requires h' == right.1 + [Node(left.0.weight + right.0.weight, left.0, right.0)]
    ensures h' == MergeStep(h)
    ensures |h'| >= 1 && HeapInvariant(h', text)
    ensures Combine(h') == Combine(h)
  {
    MergeStepUnfold(h);
    MergeStepConserves(h, text);
  }

  lemma {:induction false} MergeStepUnfold(h: seq<Tree>)
    requires |h| >= 2
    ensures MergeStep(h) ==
            PopMin(PopMin(h).1).1 + [Node(PopMin(h).0.weight + PopMin(PopMin(h).1).0.weight,
                                          PopMin(h).0, PopMin(PopMin(h).1).0)]
  {
  }

  /** Two pops followed by the push of their parent, stated over the pieces. */
  lemma {:induction false} MergeConserves(h: seq<Tree>, a: Tree, ra: seq<Tree>, b: Tree, rb: seq<Tree>,
                                          m: seq<Tree>, text: seq<char>)
    requires HeapWeight(h) == a.weight + HeapWeight(ra)
    requires multiset(HeapSyms(h)) == multiset(Syms(a)) + multiset(HeapSyms(ra))
    requires AllWellWeighted(h, text) ==> WellWeighted(a, text) && AllWellWeighted(ra, text)
    requires HeapWeight(ra) == b.weight + HeapWeight(rb)
    requires multiset(HeapSyms(ra)) == multiset(Syms(b)) + multiset(HeapSyms(rb))
    requires AllWellWeighted(ra, text) ==> WellWeighted(b, text) && AllWellWeighted(rb, text)
    requires m == rb + [Node(a.weight + b.weight, a, b)]
    ensures HeapWeight(m) == HeapWeight(h)
    ensures multiset(HeapSyms(m)) == multiset(HeapSyms(h))
    ensures AllWellWeighted(h, text) ==> AllWellWeighted(m, text)
  {
    PushParentConserves(rb, a, b, text);
    MultisetRegroup(multiset(HeapSyms(h)), multiset(Syms(a)), multiset(HeapSyms(ra)),
                    multiset(Syms(b)), multiset(HeapSyms(rb)));
  }

  lemma {:induction false} MultisetRegroup(all: multiset<char>, left: multiset<char>, rest: multiset<char>,
                                           right: multiset<char>, rest': multiset<char>)
    requires all == left + rest && rest == right + rest'
    ensures rest' + left + right == all
  {
  }

  /** The loop keeps its invariant, so the root it ends with has it too. */
  lemma {:induction false} CombineKeepsInvariant(h: seq<Tree>, text: seq<char>)
    requires |h| >= 1 && HeapInvariant(h, text)
    ensures Combine(h).Some?
    ensures Combine(h).value.weight == |text| && WellWeighted(Combine(h).value, text)
    ensures multiset(Syms(Combine(h).value)) == multiset(Distinct(text))
    decreases |h|
  {
    if |h| == 1 {
      assert h == [h[0]];
      SingletonHeap(h[0], text);
    } else {
      MergeStepConserves(h, text);
      CombineKeepsInvariant(MergeStep(h), text);
    }
  }

  /** Adding one occurrence of `x` to the counts adds one to their sum over
      `keys` when `x` is a key, and nothing otherwise. */
  lemma {:induction false} CountSumAdd(keys: seq<char>, freq: multiset<char>, x: char)
    requires NoDuplicates(keys)
    ensures HeapWeight(Leaves(keys, freq + multiset{x})) ==
            HeapWeight(Leaves(keys, freq)) + (if x in keys then 1 else 0)
  {
    if keys != [] {
      assert keys == [keys[0]] + keys[1..];
      NoDuplicatesCount(keys);
      NoDuplicatesCount(keys[1..]);
      assert forall y :: multiset(keys)[y] == multiset{keys[0]}[y] + multiset(keys[1..])[y];
      CountSumAdd(keys[1..], freq, x);
    }
  }

  lemma {:induction false} LeavesAppend(keys: seq<char>, y: char, freq: multiset<char>)
    ensures Leaves(keys + [y], freq) == Leaves(keys, freq) + [Leaf(y, freq[y])]
    ensures HeapWeight(Leaves(keys + [y], freq)) == HeapWeight(Leaves(keys, freq)) + freq[y]
  {
    HeapConcat(Leaves(keys, freq), [Leaf(y, freq[y])], []);
  }

  /** The leaves of the initial queue are the keys, each weighted by its count. */
  lemma {:induction false} LeavesOfText(keys: seq<char>, text: seq<char>)
    ensures HeapSyms(Leaves(keys, multiset(text))) == keys
    ensures AllWellWeighted(Leaves(keys, multiset(text)), text)
  {
    if keys != [] {
      assert Leaves(keys, multiset(text))[1..] == Leaves(keys[1..], multiset(text));
      LeavesOfText(keys[1..], text);
    }
  }

  /** The counts of the distinct characters add up to the text's length. */
  lemma {:induction false} CountsSumToLength(text: seq<char>)
    ensures HeapWeight(InitialHeap(text)) == |text|
  {
    if text != [] {
      var init := text[..|text| - 1];
      var last := text[|text| - 1];
      assert text == init + [last];
      var d := Distinct(init);
      CountsSumToLength(init);
      assert multiset(text) == multiset(init) + multiset{last};
      CountSumAdd(d, multiset(init), last);
      if last !in d {
        LeavesAppend(d, last, multiset(text));
        assert last !in init;
      }
    }
  }

  lemma {:induction false} InitialHeapInvariant(text: seq<char>)
    requires text != []
    ensures |InitialHeap(text)| >= 1 && HeapInvariant(InitialHeap(text), text)
  {
    CountsSumToLength(text);
    LeavesOfText(Distinct(text), text);
    assert text[0] in Distinct(text);
  }

  // ---------------------------------------------------------------------------
  // The loop itself

  /** `build_huffman_tree` (encode.py:18-41): the counted leaves go into the
      queue, and while more than one tree is left the two lightest are
      popped and their parent is pushed. Each pass shrinks the queue by one
      and conserves its total weight and its leaves. */
  method BuildHuffmanTree(text: seq<char>) returns (root: Option<Tree>)
    ensures root == HuffmanTree(text)
    ensures root.None? <==> text == []
    ensures root.Some? ==> root.value.weight == |text| && WellWeighted(root.value, text)
    ensures root.Some? ==> multiset(Syms(root.value)) == multiset(Distinct(text))
  {
    if text == [] {
      return None;
    }
    var heap := InitialHeap(text);
    InitialHeapInvariant(text);
    while |heap| > 1
      invariant |heap| >= 1
      invariant HeapInvariant(heap, text)
      invariant Combine(heap) == Combine(InitialHeap(text))
      decreases |heap|
    {
      ghost var before := heap;
      var left := PopMin(heap);
      var right := PopMin(left.1);
      var merged := Node(left.0.weight + right.0.weight, left.0, right.0);
      heap := right.1 + [merged];
      MergeKeepsInvariant(before, left, right, heap, text);
    }
    root := Some(heap[0]);
    CombineKeepsInvariant(heap, text);
  }
}
