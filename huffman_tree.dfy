/**
 * Construction of a Huffman code table (`_build_huffman_tree` together with
 * its nested `generate_codes`, and the `HuffmanNode` class).
 *
 * `Counter(data)` is modelled by its two observable parts: the keys in
 * iteration order (`Distinct`, first occurrences) and the count of each key
 * (`Count`). The priority queue is modelled by its contents; a pop takes
 * some node of minimum frequency, so nothing below depends on how `heapq`
 * breaks ties.
 */
module HuffmanTree {
  import opened BitString

  // ---------------------------------------------------------------------------
  // Character frequencies (collections.Counter)
  // ---------------------------------------------------------------------------

  /** The number of occurrences of `c` in `s`: the entry `Counter(s)[c]`. */
  function Count(s: string, c: char): (r: nat)
    ensures r > 0 <==> c in s
  {
    if |s| == 0 then 0
    else
      assert s == s[..|s| - 1] + [s[|s| - 1]];
      Count(s[..|s| - 1], c) + (if s[|s| - 1] == c then 1 else 0)
  }

  ghost predicate NoDups(d: seq<char>) {
    forall i, j | 0 <= i < j < |d| :: d[i] != d[j]
  }

  /** The keys of `Counter(s)` in iteration order: each character once, by first occurrence. */
  function Distinct(s: string): (d: seq<char>)
    ensures forall c :: c in d <==> c in s
    ensures NoDups(d)
  {
    if |s| == 0 then []
    else
      var p := Distinct(s[..|s| - 1]);
      assert s == s[..|s| - 1] + [s[|s| - 1]];
      if s[|s| - 1] in p then p else p + [s[|s| - 1]]
  }

  /** A string of one repeated character has exactly one Counter key. */
  lemma {:induction false} DistinctOfRepeated(s: string)
    requires |s| > 0 && forall i | 0 <= i < |s| :: s[i] == s[0]
    ensures Distinct(s) == [s[0]]
  {
    var p := s[..|s| - 1];
    if |p| > 0 {
      DistinctOfRepeated(p);
    }
  }

  /** The sum of the counts of the characters `keys` in `s`. */
  function CountSum(s: string, keys: seq<char>): nat {
    if |keys| == 0 then 0 else CountSum(s, keys[..|keys| - 1]) + Count(s, keys[|keys| - 1])
  }

  lemma CountSumAppendKey(s: string, keys: seq<char>, c: char)
    ensures CountSum(s, keys + [c]) == CountSum(s, keys) + Count(s, c)
  {
    assert (keys + [c])[..|keys|] == keys;
  }

  lemma CountSnoc(p: string, x: char, c: char)
    ensures Count(p + [x], c) == Count(p, c) + (if x == c then 1 else 0)
  {
    assert (p + [x])[..|p|] == p;
  }

  lemma {:induction false} CountSumSnoc(p: string, x: char, keys: seq<char>)
    requires NoDups(keys)
    ensures CountSum(p + [x], keys) == CountSum(p, keys) + (if x in keys then 1 else 0)
  {
    if |keys| > 0 {
      var init := keys[..|keys| - 1];
      var k := keys[|keys| - 1];
      CountSumSnoc(p, x, init);
      CountSnoc(p, x, k);
      assert keys == init + [k];
      assert x == k ==> x !in init;
    }
  }

  /** The counts of all keys of `Counter(s)` add up to `len(s)`. */
  lemma {:induction false} CountSumDistinct(s: string)
    ensures CountSum(s, Distinct(s)) == |s|
  {
    if |s| > 0 {
      var p, x := s[..|s| - 1], s[|s| - 1];
      assert s == p + [x];
      CountSumDistinct(p);
      CountSumSnoc(p, x, Distinct(p));
      if x !in Distinct(p) {
        var d := Distinct(p) + [x];
        assert d[..|d| - 1] == Distinct(p);
        CountSnoc(p, x, x);
      }
    }
  }

  // ---------------------------------------------------------------------------
  // Nodes and forests (HuffmanNode and the heap's contents)
  // ---------------------------------------------------------------------------

  /**
   * A `HuffmanNode`: a leaf carries a character, an internal node (whose
   * `char` is '' in Python) carries both children.
   */
  datatype Node = Leaf(ch: char, freq: nat) | Internal(freq: nat, left: Node, right: Node)

  /**
   * The frequencies `_build_huffman_tree` gives its nodes: a leaf holds its
   * character's count in `data`, an internal node the sum of its children's.
   */
  ghost predicate Weighted(t: Node, data: string) {
    match t
    case Leaf(c, f) => f == Count(data, c)
    case Internal(f, l, r) => f == l.freq + r.freq && Weighted(l, data) && Weighted(r, data)
  }

  /** The characters at the leaves of a tree, with multiplicity. */
  function Leaves(t: Node): multiset<char> {
    match t
    case Leaf(c, _) => multiset{c}
    case Internal(_, l, r) => Leaves(l) + Leaves(r)
  }

  /** No character occurs at two leaves. */
  ghost predicate Simple(m: multiset<char>) {
    forall c :: m[c] <= 1
  }

  /** The leaves of all trees of a forest. */
  function ForestLeaves(h: seq<Node>): multiset<char> {
    if |h| == 0 then multiset{} else ForestLeaves(h[..|h| - 1]) + Leaves(h[|h| - 1])
  }

  /** The summed frequencies of the roots of a forest. */
  function ForestFreq(h: seq<Node>): nat {
    if |h| == 0 then 0 else ForestFreq(h[..|h| - 1]) + h[|h| - 1].freq
  }

  lemma ForestSnoc(h: seq<Node>, n: Node)
    ensures ForestLeaves(h + [n]) == ForestLeaves(h) + Leaves(n)
    ensures ForestFreq(h + [n]) == ForestFreq(h) + n.freq
  {
    assert (h + [n])[..|h|] == h;
  }

  /**
   * The union of `f` over the trees of a forest. With `f` left abstract, the
   * removal argument below needs no knowledge of `Leaves`.
   */
  function LeafSum(h: seq<Node>, f: Node -> multiset<char>): multiset<char> {
    if |h| == 0 then multiset{} else LeafSum(h[..|h| - 1], f) + f(h[|h| - 1])
  }

  lemma {:induction false} ForestLeavesIsSum(h: seq<Node>)
    ensures ForestLeaves(h) == LeafSum(h, Leaves)
  {
    if |h| > 0 {
      ForestLeavesIsSum(h[..|h| - 1]);
    }
  }

  lemma LeafSumSnoc(r: seq<Node>, x: Node, f: Node -> multiset<char>)
    ensures LeafSum(r + [x], f) == LeafSum(r, f) + f(x)
  {
    assert (r + [x])[..|r|] == r;
  }

  lemma Shuffle(a: multiset<char>, b: multiset<char>, c: multiset<char>)
    ensures (a + b) + c == (a + c) + b
  {
  }

  lemma {:induction false} LeafSumRemove(h: seq<Node>, i: nat, f: Node -> multiset<char>)
    requires i < |h|
    ensures LeafSum(h, f) == LeafSum(h[..i] + h[i + 1..], f) + f(h[i])
  {
    var n := |h| - 1;
    var p, last := h[..n], h[n];
    assert h == p + [last];
    LeafSumSnoc(p, last, f);
    if i < n {
      var r := p[..i] + p[i + 1..];
      LeafSumRemove(p, i, f);
      LeafSumSnoc(r, last, f);
      Shuffle(LeafSum(r, f), f(h[i]), f(last));
      assert h[..i] + h[i + 1..] == r + [last];
    } else {
      assert h[..i] + h[i + 1..] == p;
    }
  }

  lemma ForestRemoveLeaves(h: seq<Node>, i: nat)
    requires i < |h|
    ensures ForestLeaves(h) == ForestLeaves(h[..i] + h[i + 1..]) + Leaves(h[i])
  {
    LeafSumRemove(h, i, Leaves);
    ForestLeavesIsSum(h);
    ForestLeavesIsSum(h[..i] + h[i + 1..]);
  }

  lemma {:induction false} ForestRemoveFreq(h: seq<Node>, i: nat)
    requires i < |h|
    ensures ForestFreq(h) == ForestFreq(h[..i] + h[i + 1..]) + h[i].freq
  {
    var n := |h| - 1;
    var p, last := h[..n], h[n];
    assert h == p + [last];
    if i < n {
      ForestRemoveFreq(p, i);
      var r := p[..i] + p[i + 1..];
      assert h[..i] + h[i + 1..] == r + [last];
      assert (r + [last])[..|r|] == r;
    } else {
      assert h[..i] + h[i + 1..] == p;
    }
  }

  /** Taking the element at index `i` out of a sequence takes exactly one copy of it out of its multiset. */
  lemma MultisetRemove(h: seq<Node>, i: nat)
    requires i < |h|
    ensures multiset(h[..i] + h[i + 1..]) + multiset{h[i]} == multiset(h)
  {
    assert h == h[..i] + [h[i]] + h[i + 1..];
  }

  ghost function MinIndex(h: seq<Node>): (i: nat)
    requires |h| > 0
    ensures i < |h| && forall j | 0 <= j < |h| :: h[i].freq <= h[j].freq
  {
    if |h| == 1 then 0
    else
      var k := MinIndex(h[1..]);
      if h[0].freq <= h[1..][k].freq then 0 else k + 1
  }

  /** `heapq.heappop`: removes some node of minimum frequency. */
  method PopMin(heap: seq<Node>) returns (node: Node, rest: seq<Node>)
    requires |heap| > 0
    ensures forall j | 0 <= j < |heap| :: node.freq <= heap[j].freq
    ensures |rest| == |heap| - 1
    ensures multiset(rest) + multiset{node} == multiset(heap)
    ensures ForestLeaves(heap) == ForestLeaves(rest) + Leaves(node)
    ensures ForestFreq(heap) == ForestFreq(rest) + node.freq
    ensures node in heap && forall x | x in rest :: x in heap
  {
    ghost var w := MinIndex(heap);
    var i :| 0 <= i < |heap| && forall j | 0 <= j < |heap| :: heap[i].freq <= heap[j].freq;
    node, rest := heap[i], heap[..i] + heap[i + 1..];
    ForestRemoveLeaves(heap, i);
    ForestRemoveFreq(heap, i);
    MultisetRemove(heap, i);
  }

  /** Every node of the heap is `Weighted`. */
  ghost predicate AllWeighted(heap: seq<Node>, data: string) {
    forall x | x in heap :: Weighted(x, data)
  }

  /** Pushing the merge of two heap nodes onto what remains keeps every node `Weighted`. */
  lemma MergeWeighted(heap: seq<Node>, rest: seq<Node>, left: Node, right: Node, data: string)
    requires AllWeighted(heap, data)
    requires left in heap && right in heap && forall x | x in rest :: x in heap
    ensures AllWeighted(rest + [Internal(left.freq + right.freq, left, right)], data)
  {
    var internal := Internal(left.freq + right.freq, left, right);
    assert Weighted(internal, data);
    forall x | x in rest + [internal]
      ensures Weighted(x, data)
    {
      if x != internal {
        assert x in rest;
      }
    }
  }

  /**
   * The merge loop: while two or more nodes remain, pop the two of lowest
   * frequency and push an internal node over them (first popped on the '0'
   * side) whose frequency is their sum.
   */
  method MergeNodes(heap0: seq<Node>, ghost data: string) returns (heap: seq<Node>)
    ensures |heap| == if |heap0| == 0 then 0 else 1
    ensures ForestLeaves(heap) == ForestLeaves(heap0)
    ensures ForestFreq(heap) == ForestFreq(heap0)
    ensures |heap0| >= 2 ==> heap[0].Internal?
    ensures AllWeighted(heap0, data) ==> AllWeighted(heap, data)
  {
    heap := heap0;
    while |heap| > 1
      invariant |heap| <= |heap0| && (|heap0| > 0 ==> |heap| > 0)
      invariant ForestLeaves(heap) == ForestLeaves(heap0)
      invariant ForestFreq(heap) == ForestFreq(heap0)
      invariant |heap| < |heap0| ==> heap[|heap| - 1].Internal?
      invariant AllWeighted(heap0, data) ==> AllWeighted(heap, data)
      decreases |heap|
    {
      var left, rest1 := PopMin(heap);
      var right, rest2 := PopMin(rest1);
      var internal := Internal(left.freq + right.freq, left, right);
      if AllWeighted(heap0, data) {
        MergeWeighted(heap, rest2, left, right, data);
      }
      ForestSnoc(rest2, internal);
      heap := rest2 + [internal];
    }
  }

  // ---------------------------------------------------------------------------
  // Code assignment (generate_codes) and the code table's properties
  // ---------------------------------------------------------------------------

  /** `u` is a prefix of `v`. */
  predicate IsPrefix(u: Bits, v: Bits) {
    |u| <= |v| && v[..|u|] == u
  }

  /** No code of the table is a prefix of the code of another character. */
  ghost predicate PrefixFree(codes: map<char, Bits>) {
    forall a, b | a in codes && b in codes && a != b :: !IsPrefix(codes[a], codes[b])
  }

  /**
   * A code table fit to encode and decode `data`: its keys are exactly the
   * characters of `data`, every code is non-empty, and the table is prefix-free.
   */
  ghost predicate IsCodeTableFor(data: string, codes: map<char, Bits>) {
    && (forall c :: c in codes <==> c in data)
    && (forall c | c in codes :: |codes[c]| > 0)
    && PrefixFree(codes)
  }

  /** The entries `generate_codes(t, code)` writes: each leaf's path, '0' for left and '1' for right. */
  function Paths(t: Node, code: Bits): map<char, Bits> {
    match t
    case Leaf(c, _) => map[c := code]
    case Internal(_, l, r) => Paths(l, code + [false]) + Paths(r, code + [true])
  }

  /** Exactly the leaf characters receive a code. */
  lemma {:induction false} PathsKeys(t: Node, code: Bits)
    ensures forall c :: c in Paths(t, code) <==> c in Leaves(t)
  {
    if t.Internal? {
      PathsKeys(t.left, code + [false]);
      PathsKeys(t.right, code + [true]);
    }
  }

  /** Every code extends the path to the subtree, strictly so below an internal node. */
  lemma {:induction false} PathsExtend(t: Node, code: Bits)
    ensures forall c | c in Paths(t, code) :: IsPrefix(code, Paths(t, code)[c])
    ensures t.Internal? ==> forall c | c in Paths(t, code) :: |Paths(t, code)[c]| > |code|
  {
    if t.Internal? {
      var l, r := code + [false], code + [true];
      PathsExtend(t.left, l);
      PathsExtend(t.right, r);
      forall c | c in Paths(t, code)
        ensures IsPrefix(code, Paths(t, code)[c]) && |Paths(t, code)[c]| > |code|
      {
        var w := Paths(t, code)[c];
        if c in Paths(t.right, r) {
          assert w[..|r|] == r && w[..|code|] == w[..|r|][..|code|];
        } else {
          assert w[..|l|] == l && w[..|code|] == w[..|l|][..|code|];
        }
      }
    }
  }

  /** Codes are assigned at leaves only, so with distinct leaves no code is a prefix of another. */
  lemma {:induction false} PathsPrefixFree(t: Node, code: Bits)
    requires Simple(Leaves(t))
    ensures PrefixFree(Paths(t, code))
  {
    if t.Internal? {
      var L, R := Leaves(t.left), Leaves(t.right);
      assert forall c :: L[c] + R[c] <= 1 by { assert forall c :: Leaves(t)[c] == L[c] + R[c]; }
      var l, r := code + [false], code + [true];
      PathsPrefixFree(t.left, l);
      PathsPrefixFree(t.right, r);
      PathsKeys(t.left, l);
      PathsKeys(t.right, r);
      PathsExtend(t.left, l);
      PathsExtend(t.right, r);
      var P, PL, PR := Paths(t, code), Paths(t.left, l), Paths(t.right, r);
      forall a, b | a in P && b in P && a != b
        ensures !IsPrefix(P[a], P[b])
      {
        if a in PL && b in PR {
          assert a !in PR;
          CrossNotPrefix(code, PL[a], PR[b]);
        } else if a in PR && b in PL {
          assert b !in PR;
          CrossNotPrefix(code, PL[b], PR[a]);
        }
      }
    }
  }

  /** A code below the '0' branch and one below the '1' branch differ right after the branch point. */
  lemma CrossNotPrefix(code: Bits, u: Bits, v: Bits)
    requires IsPrefix(code + [false], u) && IsPrefix(code + [true], v)
    ensures !IsPrefix(u, v) && !IsPrefix(v, u)
  {
    assert u[|code|] == (code + [false])[|code|];
    assert v[|code|] == (code + [true])[|code|];
  }

  /**
   * `generate_codes`: the recursive walk that writes each leaf's path into
   * the enclosing `codes` dictionary, left subtree first.
   */
  method GenerateCodes(node: Node, code: Bits, codes: map<char, Bits>) returns (result: map<char, Bits>)
    ensures result == codes + Paths(node, code)
    decreases node
  {
    if node.Leaf? {
      result := codes[node.ch := code];
      return;
    }
    result := GenerateCodes(node.left, code + [false], codes);
    result := GenerateCodes(node.right, code + [true], result);
    assert result == codes + (Paths(node.left, code + [false]) + Paths(node.right, code + [true]));
  }

  lemma {:induction false} NoDupsSimple(d: seq<char>)
    requires NoDups(d)
    ensures Simple(multiset(d))
  {
    if |d| > 0 {
      var init := d[..|d| - 1];
      NoDupsSimple(init);
      assert d == init + [d[|d| - 1]];
      assert d[|d| - 1] !in init;
    }
  }

  lemma TakeSnoc(keys: seq<char>, k: nat)
    requires k < |keys|
    ensures keys[..k + 1] == keys[..k] + [keys[k]]
    ensures multiset(keys[..k + 1]) == multiset(keys[..k]) + multiset{keys[k]}
  {
    assert keys[..k + 1] == keys[..k] + [keys[k]];
  }

  /** The heap after pushing, in order, one leaf per key carrying the key's count. */
  function LeafRow(data: string, keys: seq<char>): (row: seq<Node>)
    ensures |row| == |keys|
    ensures forall j | 0 <= j < |keys| :: row[j] == Leaf(keys[j], Count(data, keys[j]))
  {
    if |keys| == 0 then []
    else LeafRow(data, keys[..|keys| - 1]) + [Leaf(keys[|keys| - 1], Count(data, keys[|keys| - 1]))]
  }

  /** The leaves of the row are the keys, and its total frequency is their counts' sum. */
  lemma {:induction false} LeafRowForest(data: string, keys: seq<char>)
    ensures ForestLeaves(LeafRow(data, keys)) == multiset(keys)
    ensures ForestFreq(LeafRow(data, keys)) == CountSum(data, keys)
  {
    if |keys| > 0 {
      var k := |keys| - 1;
      var leaf := Leaf(keys[k], Count(data, keys[k]));
      LeafRowForest(data, keys[..k]);
      assert Leaves(leaf) == multiset{keys[k]};
      ForestSnoc(LeafRow(data, keys[..k]), leaf);
      TakeSnoc(keys, k);
      assert keys[..k + 1] == keys;
      CountSumAppendKey(data, keys[..k], keys[k]);
    }
  }

  /** The `heappush` loop of `_build_huffman_tree`: one leaf per Counter entry, carrying that character's count. */
  method PushLeaves(data: string) returns (heap: seq<Node>)
    ensures heap == LeafRow(data, Distinct(data))
    ensures ForestLeaves(heap) == multiset(Distinct(data))
    ensures ForestFreq(heap) == |data|
  {
    var keys := Distinct(data);
    heap := [];
    for k := 0 to |keys|
      invariant heap == LeafRow(data, keys[..k])
    {
      assert keys[..k + 1][..k] == keys[..k];
      heap := heap + [Leaf(keys[k], Count(data, keys[k]))];
    }
    assert keys[..|keys|] == keys;
    LeafRowForest(data, keys);
    CountSumDistinct(data);
  }

  /**
   * The heap phase of `_build_huffman_tree`: the leaves are pushed, then the merge loop runs. For
   * non-empty `data` a single root remains whose leaves are the distinct
   * characters of `data`, each once, and whose frequency is `len(data)`.
   */
  method BuildHeap(data: string) returns (heap: seq<Node>)
    ensures |heap| == if |data| == 0 then 0 else 1
    ensures |data| > 0 ==> heap[0].freq == |data|
    ensures |data| > 0 ==> forall c :: c in Leaves(heap[0]) <==> c in data
    ensures |data| > 0 ==> Simple(Leaves(heap[0]))
    ensures |Distinct(data)| >= 2 ==> heap[0].Internal?
    ensures |data| > 0 ==> Weighted(heap[0], data)
  {
    heap := PushLeaves(data);
    NoDupsSimple(Distinct(data));
    assert |data| > 0 ==> data[0] in Distinct(data);
    assert AllWeighted(heap, data);
    heap := MergeNodes(heap, data);
    if |heap| > 0 {
      assert heap[..0] == [];
      assert ForestLeaves(heap) == Leaves(heap[0]);
    }
  }

  /**
   * `_build_huffman_tree`: the code table for `data`. Empty input gives the
   * empty table; one distinct character gets the code "0"; otherwise every
   * character of `data` gets its leaf path.
   */
  method BuildCodes(data: string) returns (codes: map<char, Bits>)
    ensures |data| == 0 ==> codes == map[]
    ensures |data| > 0 ==> IsCodeTableFor(data, codes)
    ensures |data| > 0 && (forall i | 0 <= i < |data| :: data[i] == data[0]) ==> codes == map[data[0] := [false]]
  {
    var keys := Distinct(data);
    if |data| > 0 && (forall i | 0 <= i < |data| :: data[i] == data[0]) {
      DistinctOfRepeated(data);
    }
    if |keys| == 1 {
      assert data[0] in keys;
      return map[data[0] := [false]];
    }
    var heap := BuildHeap(data);
    codes := map[];
    if |heap| > 0 {
      assert |keys| >= 2 by { assert data[0] in keys; }
      codes := GenerateCodes(heap[0], [], codes);
      PathsKeys(heap[0], []);
      PathsExtend(heap[0], []);
      PathsPrefixFree(heap[0], []);
    }
  }
}
