// Frequency counting and Huffman tree construction of solution/huffman.c:
// calc_frequencies, _cmp_node, make_huffman_tree and destroy_huffman_tree.

module HuffmanTree {
  import opened Options
  import opened BitTools
  import opened PriorityQueue

  /** NUM_CHARS: one count per byte value. */
  const NumChars := 256

  /** A TreeNode. make_huffman_tree and reconstruct_huffman_tree only build
      nodes with both children or with none; internal nodes carry
      character 0. */
  datatype Tree =
    | Leaf(character: byte, frequency: nat)
    | Node(character: byte, frequency: nat, left: Tree, right: Tree)

  /** The number of nodes. */
  function Size(t: Tree): nat
  {
    match t
    case Leaf(_, _) => 1
    case Node(_, _, l, r) => Size(l) + Size(r) + 1
  }

  /** The (character, frequency) pairs at the leaves. */
  function Leaves(t: Tree): multiset<(byte, nat)>
  {
    match t
    case Leaf(c, f) => multiset{(c, f)}
    case Node(_, _, l, r) => Leaves(l) + Leaves(r)
  }

  /** The characters at the leaves. */
  function Chars(t: Tree): set<byte>
  {
    match t
    case Leaf(c, _) => {c}
    case Node(_, _, l, r) => Chars(l) + Chars(r)
  }

  /** No character sits at two leaves. */
  ghost predicate UniqueLeaves(t: Tree)
  {
    match t
    case Leaf(_, _) => true
    case Node(_, _, l, r) => UniqueLeaves(l) && UniqueLeaves(r) && Chars(l) !! Chars(r)
  }

  /** Every internal node weighs the sum of its children's weights. */
  ghost predicate WellWeighted(t: Tree)
  {
    match t
    case Leaf(_, _) => true
    case Node(_, f, l, r) => f == l.frequency + r.frequency && WellWeighted(l) && WellWeighted(r)
  }

  /** A tree with both children or none at every node has one node fewer than
      twice its leaves. */
  lemma {:induction false} SizeOfFullTree(t: Tree)
    ensures Size(t) == 2 * |Leaves(t)| - 1
  {
    match t
    case Leaf(_, _) =>
    case Node(_, _, l, r) =>
      SizeOfFullTree(l);
      SizeOfFullTree(r);
  }

  /** A leaf's character is among the tree's characters. */
  lemma {:induction false} LeafChar(t: Tree, c: byte, f: nat)
    requires (c, f) in Leaves(t)
    ensures c in Chars(t)
  {
    match t
    case Leaf(_, _) =>
    case Node(_, _, l, r) =>
      if (c, f) in Leaves(l) {
        LeafChar(l, c, f);
      } else {
        LeafChar(r, c, f);
      }
  }

  /** The frequency at the leftmost leaf holding c. */
  function FreqOf(t: Tree, c: byte): nat
    requires c in Chars(t)
  {
    match t
    case Leaf(_, f) => f
    case Node(_, _, l, r) => if c in Chars(l) then FreqOf(l, c) else FreqOf(r, c)
  }

  /** Each of the tree's characters is at some leaf. */
  lemma {:induction false} CharLeaf(t: Tree, c: byte)
    requires c in Chars(t)
    ensures (c, FreqOf(t, c)) in Leaves(t)
  {
    match t
    case Leaf(_, _) =>
    case Node(_, _, l, r) =>
      if c in Chars(l) {
        CharLeaf(l, c);
      } else {
        CharLeaf(r, c);
      }
  }

  /** Leaf pairs in which each character occurs once. */
  ghost predicate DistinctChars(m: multiset<(byte, nat)>)
  {
    forall p, q :: p in m && q in m && p.0 == q.0 ==> p == q && m[p] == 1
  }

  /** A tree whose leaf pairs have distinct characters has unique leaves. */
  lemma {:induction false} DistinctUnique(t: Tree)
    requires DistinctChars(Leaves(t))
    ensures UniqueLeaves(t)
  {
    match t
    case Leaf(_, _) =>
    case Node(_, _, l, r) =>
      assert DistinctChars(Leaves(l)) by {
        forall p, q | p in Leaves(l) && q in Leaves(l) && p.0 == q.0
          ensures p == q && Leaves(l)[p] == 1
        {
          assert Leaves(t)[p] == Leaves(l)[p] + Leaves(r)[p];
        }
      }
      assert DistinctChars(Leaves(r)) by {
        forall p, q | p in Leaves(r) && q in Leaves(r) && p.0 == q.0
          ensures p == q && Leaves(r)[p] == 1
        {
          assert Leaves(t)[p] == Leaves(l)[p] + Leaves(r)[p];
        }
      }
      DistinctUnique(l);
      DistinctUnique(r);
      forall c | c in Chars(l) && c in Chars(r)
        ensures false
      {
        CharLeaf(l, c);
        CharLeaf(r, c);
      }
  }

  // ---------------------------------------------------------------------
  // calc_frequencies

  /** calc_frequencies: counts every byte of the file into `freqs`, on top of
      what the caller put there. `file` is None when fopen fails; then the
      counts are untouched and the result is false (the error message set
      through a_error is not modelled). */
  method CalcFrequencies(freqs: array<nat>, file: Option<seq<byte>>) returns (ok: bool)
    requires freqs.Length == NumChars
    modifies freqs
    ensures ok == file.Some?
    ensures forall c :: 0 <= c < NumChars ==>
      freqs[c] == old(freqs[c]) + if ok then multiset(file.value)[c] else 0
  {
    if file.None? {
      return false;
    }
    var data := file.value;
    var i := 0;
    while i < |data|
      invariant 0 <= i <= |data|
      invariant forall c :: 0 <= c < NumChars ==> freqs[c] == old(freqs[c]) + multiset(data[..i])[c]
    {
      assert data[..i + 1] == data[..i] + [data[i]];
      freqs[data[i]] := freqs[data[i]] + 1;
      i := i + 1;
    }
    assert data[..i] == data;
    return true;
  }

  /** The counts calc_frequencies leaves in a zeroed table. */
  function Counts(data: seq<byte>): (freq: seq<nat>)
    ensures |freq| == NumChars
  {
    seq(NumChars, c requires 0 <= c < NumChars => multiset(data)[c])
  }

  /** The sum of the first n counts. */
  function FreqSum(freq: seq<nat>, n: nat): nat
    requires n <= |freq|
  {
    if n == 0 then 0 else FreqSum(freq, n - 1) + freq[n - 1]
  }

  /** One more count in slot c adds one to the sum of the slots that include c. */
  lemma {:induction false} FreqSumBump(freq: seq<nat>, c: nat, n: nat)
    requires c < |freq| && n <= |freq|
    ensures FreqSum(freq[c := freq[c] + 1], n) == FreqSum(freq, n) + if c < n then 1 else 0
  {
    if n > 0 {
      FreqSumBump(freq, c, n - 1);
    }
  }

  /** The counts of a file add up to its length. */
  lemma {:induction false} CountsSum(data: seq<byte>)
    ensures FreqSum(Counts(data), NumChars) == |data|
  {
    if data == [] {
      ZeroSum(Counts(data), NumChars);
    } else {
      var init, last := data[..|data| - 1], data[|data| - 1];
      assert data == init + [last];
      CountsSum(init);
      assert Counts(data) == Counts(init)[last := Counts(init)[last] + 1];
      FreqSumBump(Counts(init), last, NumChars);
    }
  }

  /** Counts that are all zero add up to zero. */
  lemma {:induction false} ZeroSum(freq: seq<nat>, n: nat)
    requires n <= |freq| && forall c :: 0 <= c < n ==> freq[c] == 0
    ensures FreqSum(freq, n) == 0
  {
    if n > 0 {
      ZeroSum(freq, n - 1);
    }
  }

  // ---------------------------------------------------------------------
  // _cmp_node

  /** _cmp_node with exact arithmetic: by frequency, and between equal
      frequencies by character. */
  function CmpNode(x: Tree, y: Tree): (r: int)
    ensures r < 0 <==> x.frequency < y.frequency || (x.frequency == y.frequency && x.character < y.character)
    ensures r == 0 <==> x.frequency == y.frequency && x.character == y.character
  {
    if x.frequency == y.frequency then x.character - y.character else x.frequency - y.frequency
  }

  /** _cmp_node orders consistently, so the queue it keeps is sorted by
      (frequency, character). */
  lemma {:induction false} CmpNodeComparator()
    ensures Comparator(CmpNode)
  {
    forall a, b, c | CmpNode(a, b) >= 0 && CmpNode(b, c) >= 0
      ensures CmpNode(a, c) >= 0
    {
    }
  }

  /** An integer converted to a 32-bit int: its low 32 bits in two's
      complement. */
  function ToInt32(v: int): (r: int)
    ensures -0x8000_0000 <= r < 0x8000_0000
    ensures (v - r) % 0x1_0000_0000 == 0
  {
    var m := v % 0x1_0000_0000;
    if m < 0x8000_0000 then m else m - 0x1_0000_0000
  }

  /** _cmp_node as written: the conditional brings both of its operands to
      size_t (the character difference too), so the subtraction wraps
      modulo 2^64, and the returned int keeps the low 32 bits. */
  function CmpNodeAsWritten(x: Tree, y: Tree): (r: int)
    ensures -0x8000_0000 <= r < 0x8000_0000
  {
    var d := if x.frequency == y.frequency then x.character - y.character else x.frequency - y.frequency;
    ToInt32(d % 0x1_0000_0000_0000_0000)
  }

  /** A difference that fits in an int survives both conversions. */
  lemma {:induction false} ToInt32Small(d: int)
    requires -0x8000_0000 <= d < 0x8000_0000
    ensures ToInt32(d % 0x1_0000_0000_0000_0000) == d
  {
    if d < 0 {
      assert d % 0x1_0000_0000_0000_0000 == d + 0x1_0000_0000_0000_0000;
      assert (d + 0x1_0000_0000_0000_0000) % 0x1_0000_0000 == d + 0x1_0000_0000;
    }
  }

  /** Below 2^31 the written comparison is the exact one. */
  lemma {:induction false} CmpNodeAsWrittenAgrees(x: Tree, y: Tree)
    requires x.frequency < 0x8000_0000 && y.frequency < 0x8000_0000
    ensures CmpNodeAsWritten(x, y) == CmpNode(x, y)
  {
    var d := if x.frequency == y.frequency then x.character - y.character else x.frequency - y.frequency;
    ToInt32Small(d);
  }

  /** Two nodes whose frequencies are 2^31 apart compare the wrong way round:
      the heavier one sorts first. */
  lemma {:induction false} CmpNodeAsWrittenMisorders()
    ensures var x, y := Leaf(97, 0x8000_0001), Leaf(98, 1);
      CmpNode(x, y) > 0 && CmpNodeAsWritten(x, y) < 0
  {
    var x, y := Leaf(97, 0x8000_0001), Leaf(98, 1);
    assert (x.frequency - y.frequency) % 0x1_0000_0000_0000_0000 == 0x8000_0000;
    assert CmpNodeAsWritten(x, y) == -0x8000_0000;
  }

  // ---------------------------------------------------------------------
  // make_huffman_tree

  /** The queue after the first loop of make_huffman_tree has looked at the
      counts of the characters below n: a leaf per nonzero count, enqueued
      in character order. */
  function LeafQueue(freq: seq<nat>, n: nat): seq<Tree>
    requires n <= |freq| == NumChars
  {
    if n == 0 then []
    else
      var q := LeafQueue(freq, n - 1);
      if freq[n - 1] > 0 then Enqueued(q, Leaf(n - 1, freq[n - 1]), Some(CmpNode)) else q
  }

  /** The internal node make_huffman_tree builds from two dequeued nodes. */
  function Joined(l: Tree, r: Tree): Tree
  {
    Node(0, l.frequency + r.frequency, l, r)
  }

  /** One round of the merge loop: the first two nodes are dequeued and
      their join enqueued. */
  function MergeStep(s: seq<Tree>): seq<Tree>
    requires |s| >= 2
  {
    Enqueued(s[2..], Joined(s[0], s[1]), Some(CmpNode))
  }

  /** The queue once the merge loop has run until at most one node is left. */
  function Merged(s: seq<Tree>): (r: seq<Tree>)
    ensures |r| <= 1 && (r == [] <==> s == [])
    decreases |s|
  {
    if |s| < 2 then s else Merged(MergeStep(s))
  }

  /** The tree make_huffman_tree returns; None is NULL. */
  function TreeOf(freq: seq<nat>): Option<Tree>
    requires |freq| == NumChars
  {
    var s := Merged(LeafQueue(freq, NumChars));
    if s == [] then None else Some(s[0])
  }

  /** make_huffman_tree: a leaf for every nonzero count, enqueued in
      character order; NULL when there is none, the leaf itself when there
      is one; otherwise the two front nodes are merged until one is left. */
  method MakeHuffmanTree(freq: seq<nat>) returns (root: Option<Tree>)
    requires |freq| == NumChars
    ensures root == TreeOf(freq)
  {
    var head := new Queue<Tree>();
    for c := 0 to NumChars
      invariant head.items == LeafQueue(freq, c)
    {
      if freq[c] > 0 {
        head.Enqueue(Leaf(c, freq[c]), Some(CmpNode));
      }
    }
    if head.items == [] {
      return None;
    }
    if |head.items| == 1 {
      return Some(head.items[0]);
    }
    while |head.items| >= 2
      invariant head.items != [] && Merged(head.items) == Merged(LeafQueue(freq, NumChars))
      decreases |head.items|
    {
      ghost var s := head.items;
      var left := head.Dequeue();
      var right := head.Dequeue();
      assert left == Some(s[0]) && right == Some(s[1]) && head.items == s[2..];
      head.Enqueue(Joined(left.value, right.value), Some(CmpNode));
      assert head.items == MergeStep(s);
    }
    root := head.Dequeue();
  }

  /** destroy_huffman_tree: frees the children before the node and leaves the
      root NULL; `freed` lists the frees, one per node. */
  method DestroyHuffmanTree(root: Option<Tree>) returns (freed: seq<Tree>, after: Option<Tree>)
    ensures after == None
    ensures |freed| == if root.Some? then Size(root.value) else 0
    ensures root.Some? ==> freed[|freed| - 1] == root.value
    decreases if root.Some? then Size(root.value) else 0
  {
    freed := [];
    if root.Some? {
      var t := root.value;
      if t.Node? {
        var fl, _ := DestroyHuffmanTree(Some(t.left));
        var fr, _ := DestroyHuffmanTree(Some(t.right));
        freed := fl + fr;
      }
      freed := freed + [t];
    }
    after := None;
  }

  // ---------------------------------------------------------------------
  // What the queue holds, summed over its trees.

  /** The leaf pairs of all the trees in a queue. */
  function QueueLeaves(s: seq<Tree>): multiset<(byte, nat)>
  {
    if s == [] then multiset{} else Leaves(s[0]) + QueueLeaves(s[1..])
  }

  /** The total weight of a queue. */
  function QueueWeight(s: seq<Tree>): nat
  {
    if s == [] then 0 else s[0].frequency + QueueWeight(s[1..])
  }

  /** The leaf pairs present in the counts below n. */
  function Present(freq: seq<nat>, n: nat): multiset<(byte, nat)>
    requires n <= |freq| == NumChars
  {
    if n == 0 then multiset{}
    else Present(freq, n - 1) + if freq[n - 1] > 0 then multiset{(n - 1, freq[n - 1])} else multiset{}
  }

  lemma {:induction false} QueueAppend(a: seq<Tree>, b: seq<Tree>)
    ensures QueueLeaves(a + b) == QueueLeaves(a) + QueueLeaves(b)
    ensures QueueWeight(a + b) == QueueWeight(a) + QueueWeight(b)
  {
    if a == [] {
      assert a + b == b;
    } else {
      assert (a + b)[1..] == a[1..] + b;
      QueueAppend(a[1..], b);
    }
  }

  /** Linking a tree into a queue adds its leaves and its weight. */
  lemma {:induction false} QueueInsert(s: seq<Tree>, p: nat, x: Tree)
    requires p <= |s|
    ensures QueueLeaves(Insert(s, p, x)) == QueueLeaves(s) + Leaves(x)
    ensures QueueWeight(Insert(s, p, x)) == QueueWeight(s) + x.frequency
  {
    var front, back := s[..p], s[p..];
    assert Insert(s, p, x) == front + ([x] + back);
    assert s == front + back;
    QueueAppend(front, [x] + back);
    QueueAppend([x], back);
    QueueAppend(front, back);
    assert QueueLeaves([x]) == Leaves(x) by {
      assert [x][1..] == [];
    }
    assert QueueWeight([x]) == x.frequency by {
      assert [x][1..] == [];
    }
  }

  /** Every tree in the queue is well weighted. */
  ghost predicate AllWellWeighted(s: seq<Tree>)
  {
    forall k :: 0 <= k < |s| ==> WellWeighted(s[k])
  }

  /** A merge round keeps the queue's leaves, weight, weighting and order. */
  lemma {:induction false} MergeStepKeeps(s: seq<Tree>)
    requires |s| >= 2
    ensures QueueLeaves(MergeStep(s)) == QueueLeaves(s)
    ensures QueueWeight(MergeStep(s)) == QueueWeight(s)
    ensures AllWellWeighted(s) ==> AllWellWeighted(MergeStep(s))
    ensures Sorted(s, CmpNode) ==> Sorted(MergeStep(s), CmpNode)
  {
    MergeStepSums(s);
    if AllWellWeighted(s) {
      MergeStepWeighted(s);
    }
    if Sorted(s, CmpNode) {
      MergeStepSorted(s);
    }
  }

  lemma {:induction false} MergeStepSums(s: seq<Tree>)
    requires |s| >= 2
    ensures QueueLeaves(MergeStep(s)) == QueueLeaves(s)
    ensures QueueWeight(MergeStep(s)) == QueueWeight(s)
  {
    var j := Joined(s[0], s[1]);
    var rest := s[2..];
    QueueInsert(rest, Slot(rest, j, Some(CmpNode)), j);
    assert s[1..][1..] == rest;
    assert QueueLeaves(s[1..]) == Leaves(s[1]) + QueueLeaves(rest);
    assert QueueWeight(s[1..]) == s[1].frequency + QueueWeight(rest);
  }

  lemma {:induction false} MergeStepWeighted(s: seq<Tree>)
    requires |s| >= 2 && AllWellWeighted(s)
    ensures AllWellWeighted(MergeStep(s))
  {
    var j := Joined(s[0], s[1]);
    var rest := s[2..];
    var p := Slot(rest, j, Some(CmpNode));
    assert WellWeighted(s[0]) && WellWeighted(s[1]);
    forall k | 0 <= k < |MergeStep(s)|
      ensures WellWeighted(MergeStep(s)[k])
    {
      InsertAt(rest, p, j, k);
    }
  }

  lemma {:induction false} MergeStepSorted(s: seq<Tree>)
    requires |s| >= 2 && Sorted(s, CmpNode)
    ensures Sorted(MergeStep(s), CmpNode)
  {
    DequeuedLeast(s, CmpNode);
    DequeuedLeast(s[1..], CmpNode);
    assert s[1..][1..] == s[2..];
    CmpNodeComparator();
    EnqueuedSorted(s[2..], Joined(s[0], s[1]), CmpNode);
  }

  /** The merge loop keeps the queue's leaves, weight, weighting and order. */
  lemma {:induction false} MergedKeeps(s: seq<Tree>)
    ensures QueueLeaves(Merged(s)) == QueueLeaves(s)
    ensures QueueWeight(Merged(s)) == QueueWeight(s)
    ensures AllWellWeighted(s) ==> AllWellWeighted(Merged(s))
    decreases |s|
  {
    if |s| >= 2 {
      MergeStepKeeps(s);
      MergedKeeps(MergeStep(s));
    }
  }

  /** The leaf queue holds one leaf per nonzero count, weighs the sum of the
      counts and is sorted by (frequency, character). */
  lemma {:induction false} LeafQueueHolds(freq: seq<nat>, n: nat)
    requires n <= |freq| == NumChars
    ensures QueueLeaves(LeafQueue(freq, n)) == Present(freq, n)
    ensures QueueWeight(LeafQueue(freq, n)) == FreqSum(freq, n)
    ensures AllWellWeighted(LeafQueue(freq, n))
    ensures Sorted(LeafQueue(freq, n), CmpNode)
  {
    if n > 0 {
      var q := LeafQueue(freq, n - 1);
      LeafQueueHolds(freq, n - 1);
      if freq[n - 1] > 0 {
        var x := Leaf(n - 1, freq[n - 1]);
        var p := Slot(q, x, Some(CmpNode));
        QueueInsert(q, p, x);
        forall k | 0 <= k < |q| + 1
          ensures WellWeighted(Insert(q, p, x)[k])
        {
          InsertAt(q, p, x, k);
        }
        CmpNodeComparator();
        EnqueuedSorted(q, x, CmpNode);
      }
    }
  }

  /** The counts below n present each character at most once, with its count. */
  lemma {:induction false} PresentHas(freq: seq<nat>, n: nat)
    requires n <= |freq| == NumChars
    ensures forall c: byte, f: nat :: (c, f) in Present(freq, n) <==> c < n && freq[c] > 0 && f == freq[c]
    ensures DistinctChars(Present(freq, n))
  {
    if n > 0 {
      PresentHas(freq, n - 1);
    }
  }

  /** A queue of one tree. */
  lemma {:induction false} QueueOfOne(t: Tree)
    ensures QueueLeaves([t]) == Leaves(t) && QueueWeight([t]) == t.frequency
  {
    assert [t][1..] == [];
  }

  /** No count is nonzero exactly when none is present. */
  lemma {:induction false} PresentEmpty(freq: seq<nat>)
    requires |freq| == NumChars
    ensures Present(freq, NumChars) == multiset{} <==> forall c :: 0 <= c < NumChars ==> freq[c] == 0
  {
    PresentHas(freq, NumChars);
    if forall c :: 0 <= c < NumChars ==> freq[c] == 0 {
      forall p | p in Present(freq, NumChars)
        ensures false
      {
      }
    } else {
      var c :| 0 <= c < NumChars && freq[c] != 0;
      assert (c, freq[c]) in Present(freq, NumChars);
    }
  }

  /** make_huffman_tree returns NULL exactly when every count is zero;
      otherwise its tree holds one leaf per nonzero count, with that count,
      every internal node weighs the sum of its children, and the root
      weighs the sum of all counts. */
  lemma {:induction false} HuffmanTreeHolds(freq: seq<nat>)
    requires |freq| == NumChars
    ensures TreeOf(freq).None? <==> forall c :: 0 <= c < NumChars ==> freq[c] == 0
    ensures TreeOf(freq).Some? ==>
      var t := TreeOf(freq).value;
      Leaves(t) == Present(freq, NumChars) && WellWeighted(t) && t.frequency == FreqSum(freq, NumChars)
  {
    var q := LeafQueue(freq, NumChars);
    LeafQueueHolds(freq, NumChars);
    MergedKeeps(q);
    PresentEmpty(freq);
    var s := Merged(q);
    if s != [] {
      assert s == [s[0]];
      QueueOfOne(s[0]);
      SizeOfFullTree(s[0]);
    } else {
      assert QueueLeaves(s) == multiset{};
    }
  }

  /** The tree's characters are exactly those with a nonzero count, each at
      one leaf; with one such character the tree is that single leaf, and
      with k of them it has 2k - 1 nodes. */
  lemma {:induction false} HuffmanTreeChars(freq: seq<nat>)
    requires |freq| == NumChars && TreeOf(freq).Some?
    ensures var t := TreeOf(freq).value;
      UniqueLeaves(t) && (forall c: byte :: c in Chars(t) <==> freq[c] > 0)
      && Size(t) == 2 * |Present(freq, NumChars)| - 1
      && (forall c: byte :: Present(freq, NumChars) == multiset{(c, freq[c])} ==> t == Leaf(c, freq[c]))
  {
    var t := TreeOf(freq).value;
    HuffmanTreeHolds(freq);
    PresentHas(freq, NumChars);
    DistinctUnique(t);
    forall c: byte
      ensures c in Chars(t) <==> freq[c] > 0
    {
      if c in Chars(t) {
        CharLeaf(t, c);
      }
      if freq[c] > 0 {
        LeafChar(t, c, freq[c]);
      }
    }
    SizeOfFullTree(t);
    if t.Node? {
      SizeOfFullTree(t.left);
      SizeOfFullTree(t.right);
    }
  }
}
