/** The decoding tables of tinfl: a table indexed by the next 10 bits, and a binary tree for longer codes.

An entry of the table is 0 if unused, positive for a symbol with its code size, and negative for a tree node.  A
node -1, -3, -5, ... owns two adjacent slots of the tree array; a slot holds the next node, a symbol, or 0.
 */
module InflateTables {
  import opened BitStrings
  import opened CanonicalCodes

  const LOOKUP_BITS: nat := 10
  const LOOKUP_SIZE: nat := 1024
  const TREE_SIZE: nat := 576
  const MAX_SYMBOLS: nat := 288

  /** The codes tinfl accepts: complete ones, and those with at most one used symbol. */
  predicate Accepts(sizes: seq<nat>) {
    Complete(sizes) || Used(sizes, |sizes|) <= 1
  }

  /** What tinfl is given: at most 288 code sizes, none above 15. */
  predicate Sizes(sizes: seq<nat>) {
    |sizes| <= MAX_SYMBOLS && ValidSizes(sizes)
  }

  // ----- reversing a code -----

  lemma {:induction false} CodeWordCons(code: nat, k: nat)
    ensures CodeWord(code, k + 1) == [Shr(code, k) % 2 == 1] + CodeWord(code, k)
  {
    if k > 0 {
      CodeWordCons(code / 2, k - 1);
    }
  }

  lemma {:induction false} ShrStep(x: nat, k: nat)
    ensures Shr(x, k + 1) == Shr(x, k) / 2
  {
    if k > 0 {
      ShrStep(x / 2, k - 1);
    }
  }

  /** Reverses the bits of a code, so that sending the result low bit first sends the code high bit first. */
  method ReverseCode(code: nat, size: nat) returns (rev: nat)
    ensures rev < Pow2(size) && Bits(rev, size) == CodeWord(code, size)
  {
    rev := 0;
    var rest := code;
    for k := 0 to size
      invariant rest == Shr(code, k)
      invariant rev < Pow2(k) && Bits(rev, k) == CodeWord(code, k)
    {
      CodeWordCons(code, k);
      ShrStep(code, k);
      rev := 2 * rev + rest % 2;
      rest := rest / 2;
      assert Bits(rev, k + 1) == [rev % 2 == 1] + Bits(rev / 2, k);
    }
  }

  // ----- what the tables mean -----

  type Nodes = map<seq<bool>, int>

  /** The slot of a node for the next bit. */
  function Slot(node: int, bit: bool): int {
    -node - 1 + BitValue(bit)
  }

  ghost predicate IsNode(node: int) {
    0 < -node < TREE_SIZE && node % 2 == 1
  }

  /** A string of bits on the way to the word of some symbol, long enough to need a tree node. */
  ghost predicate Inner(sizes: seq<nat>, p: seq<bool>) {
    LOOKUP_BITS <= |p| && exists s: nat :: IsUsed(sizes, s) && p < Word(sizes, s)
  }

  ghost predicate ShortEntries(sizes: seq<nat>, n: nat, look: seq<int>)
    requires n <= |sizes| && |look| == LOOKUP_SIZE
  {
    forall s: nat, r: nat | s < n && IsUsed(sizes, s) && sizes[s] <= LOOKUP_BITS && r < LOOKUP_SIZE
      && Word(sizes, s) <= Bits(r, LOOKUP_BITS) :: look[r] == sizes[s] * 512 + s
  }

  ghost predicate LongEntries(sizes: seq<nat>, n: nat, tree: seq<int>, nodes: Nodes)
    requires n <= |sizes|
  {
    forall s: nat | s < n && IsUsed(sizes, s) && sizes[s] > LOOKUP_BITS :: LongEntry(Word(sizes, s), s, tree, nodes)
  }

  /** The slot for the last bit of a word holds its symbol. */
  ghost predicate LongEntry(w: seq<bool>, s: nat, tree: seq<int>, nodes: Nodes) {
    && |w| > 0 && |tree| == TREE_SIZE && w[..|w| - 1] in nodes && IsNode(nodes[w[..|w| - 1]])
    && tree[Slot(nodes[w[..|w| - 1]], w[|w| - 1])] == s
  }

  /** Nodes are distinct and belong to strings on the way to a word. */
  ghost predicate NodesOk(sizes: seq<nat>, nodes: Nodes) {
    && (forall p | p in nodes :: IsNode(nodes[p]) && Inner(sizes, p))
    && (forall p, q | p in nodes && q in nodes && nodes[p] == nodes[q] :: p == q)
  }

  /** Each node is reached from the table or from the node before it. */
  ghost predicate LinksOk(look: seq<int>, tree: seq<int>, nodes: Nodes) {
    forall p {:trigger LinkOk(look, tree, nodes, p)} | p in nodes :: LinkOk(look, tree, nodes, p)
  }

  ghost predicate LinkOk(look: seq<int>, tree: seq<int>, nodes: Nodes, p: seq<bool>) {
    && |look| == LOOKUP_SIZE && |tree| == TREE_SIZE && p in nodes && |p| >= LOOKUP_BITS
    && if |p| == LOOKUP_BITS then Value(p) < LOOKUP_SIZE && look[Value(p)] == nodes[p]
       else
         && p[..|p| - 1] in nodes && IsNode(nodes[p[..|p| - 1]])
         && tree[Slot(nodes[p[..|p| - 1]], p[|p| - 1])] == nodes[p]
  }

  /** A table entry in use belongs to a node or to a short word. */
  ghost predicate LookClean(sizes: seq<nat>, n: nat, look: seq<int>, nodes: Nodes)
    requires n <= |sizes| && |look| == LOOKUP_SIZE
  {
    forall r: nat | r < LOOKUP_SIZE && look[r] != 0 ::
      Bits(r, LOOKUP_BITS) in nodes ||
      exists s: nat :: s < n && IsUsed(sizes, s) && sizes[s] <= LOOKUP_BITS && Word(sizes, s) <= Bits(r, LOOKUP_BITS)
  }

  /** A tree slot in use belongs to a node and leads to a node or to a word. */
  ghost predicate TreeClean(sizes: seq<nat>, n: nat, tree: seq<int>, nodes: Nodes)
    requires n <= |sizes| && |tree| == TREE_SIZE
  {
    forall i: nat | i < TREE_SIZE && tree[i] != 0 :: exists p, b: bool :: SlotUse(sizes, n, nodes, i, p, b)
  }

  ghost predicate SlotUse(sizes: seq<nat>, n: nat, nodes: Nodes, i: nat, p: seq<bool>, b: bool)
    requires n <= |sizes|
  {
    && p in nodes && i == Slot(nodes[p], b)
    && (p + [b] in nodes || exists s: nat :: s < n && IsUsed(sizes, s) && Word(sizes, s) == p + [b])
  }

  /** The tables after the first `n` symbols. */
  ghost predicate Tables(sizes: seq<nat>, n: nat, look: seq<int>, tree: seq<int>, nodes: Nodes) {
    && n <= |sizes| && |look| == LOOKUP_SIZE && |tree| == TREE_SIZE
    && NodesOk(sizes, nodes)
    && ShortEntries(sizes, n, look) && LongEntries(sizes, n, tree, nodes)
    && LinksOk(look, tree, nodes)
    && LookClean(sizes, n, look, nodes) && TreeClean(sizes, n, tree, nodes)
  }

  lemma EmptyTables(sizes: seq<nat>, look: seq<int>, tree: seq<int>)
    requires |look| == LOOKUP_SIZE && |tree| == TREE_SIZE
    requires (forall r | 0 <= r < LOOKUP_SIZE :: look[r] == 0) && forall i | 0 <= i < TREE_SIZE :: tree[i] == 0
    ensures Tables(sizes, 0, look, tree, map[])
  {
  }

  /** A node and a bit are determined by their slot. */
  lemma SlotInjective(a: int, b: bool, a': int, b': bool)
    requires IsNode(a) && IsNode(a') && Slot(a, b) == Slot(a', b')
    ensures a == a' && b == b'
  {
  }

  // ----- adding a symbol with a short code -----

  /** The table after the entries of a short word were filled. */
  ghost predicate Filled(look: seq<int>, look': seq<int>, word: seq<bool>, entry: int) {
    && |look| == |look'| == LOOKUP_SIZE && |word| <= LOOKUP_BITS
    && forall r: nat | r < LOOKUP_SIZE :: look'[r] == if word <= Bits(r, LOOKUP_BITS) then entry else look[r]
  }

  lemma ShortEntriesNext(sizes: seq<nat>, n: nat, look: seq<int>, look': seq<int>)
    requires Sizes(sizes) && Fits(sizes) && n < |sizes| && |look| == LOOKUP_SIZE && ShortEntries(sizes, n, look)
    requires IsUsed(sizes, n) && sizes[n] <= LOOKUP_BITS
    requires Filled(look, look', Word(sizes, n), sizes[n] * 512 + n)
    ensures ShortEntries(sizes, n + 1, look')
  {
    hide Word, Bits;
    forall s: nat, r: nat | s < n + 1 && IsUsed(sizes, s) && sizes[s] <= LOOKUP_BITS && r < LOOKUP_SIZE
      && Word(sizes, s) <= Bits(r, LOOKUP_BITS)
      ensures look'[r] == sizes[s] * 512 + s
    {
      if s < n {
        OtherPrefix(sizes, s, n, Bits(r, LOOKUP_BITS));
      }
    }
  }

  lemma FilledLinks(sizes: seq<nat>, n: nat, look: seq<int>, look': seq<int>, tree: seq<int>, nodes: Nodes)
    requires Sizes(sizes) && Fits(sizes) && |tree| == TREE_SIZE && NodesOk(sizes, nodes)
    requires IsUsed(sizes, n) && sizes[n] <= LOOKUP_BITS
    requires Filled(look, look', Word(sizes, n), sizes[n] * 512 + n)
    requires LinksOk(look, tree, nodes)
    ensures LinksOk(look', tree, nodes)
  {
    hide Word, Bits, Value, Inner;
    forall p | p in nodes
      ensures LinkOk(look', tree, nodes, p)
    {
      assert Inner(sizes, p);
      assert LinkOk(look, tree, nodes, p);
      InnerNotBehind(sizes, n, p);
      if |p| == LOOKUP_BITS {
        BitsOfValue(p);
      }
    }
  }

  lemma FilledLookClean(sizes: seq<nat>, n: nat, look: seq<int>, look': seq<int>, nodes: Nodes)
    requires n < |sizes| && |look| == LOOKUP_SIZE && LookClean(sizes, n, look, nodes)
    requires IsUsed(sizes, n) && sizes[n] <= LOOKUP_BITS
    requires Filled(look, look', Word(sizes, n), sizes[n] * 512 + n)
    ensures LookClean(sizes, n + 1, look', nodes)
  {
    hide Word, Bits;
    forall r: nat | r < LOOKUP_SIZE && look'[r] != 0
      ensures Bits(r, LOOKUP_BITS) in nodes ||
        exists s: nat :: s < n + 1 && IsUsed(sizes, s) && sizes[s] <= LOOKUP_BITS && Word(sizes, s) <= Bits(r, LOOKUP_BITS)
    {
      if !(Word(sizes, n) <= Bits(r, LOOKUP_BITS)) {
        assert look[r] != 0;
      }
    }
  }

  lemma ShortKeepsTables(sizes: seq<nat>, n: nat, look: seq<int>, look': seq<int>, tree: seq<int>, nodes: Nodes)
    requires Sizes(sizes) && Fits(sizes) && Tables(sizes, n, look, tree, nodes)
    requires IsUsed(sizes, n) && sizes[n] <= LOOKUP_BITS
    requires Filled(look, look', Word(sizes, n), sizes[n] * 512 + n)
    ensures Tables(sizes, n + 1, look', tree, nodes)
  {
    assert |look'| == LOOKUP_SIZE;
    hide ShortEntries, LinksOk, LookClean, TreeClean, Filled, Word;
    ShortEntriesNext(sizes, n, look, look');
    FilledLinks(sizes, n, look, look', tree, nodes);
    FilledLookClean(sizes, n, look, look', nodes);
    TreeCleanNext(sizes, n, tree, nodes);
    LongEntriesNext(sizes, n, tree, nodes);
    hide LongEntries, NodesOk;
  }

  lemma LongEntriesNext(sizes: seq<nat>, n: nat, tree: seq<int>, nodes: Nodes)
    requires n < |sizes| && sizes[n] <= LOOKUP_BITS && |tree| == TREE_SIZE && NodesOk(sizes, nodes)
    requires LongEntries(sizes, n, tree, nodes)
    ensures LongEntries(sizes, n + 1, tree, nodes)
  {
    hide Word, NodesOk;
  }

  lemma TreeCleanNext(sizes: seq<nat>, n: nat, tree: seq<int>, nodes: Nodes)
    requires n < |sizes| && |tree| == TREE_SIZE && TreeClean(sizes, n, tree, nodes)
    ensures TreeClean(sizes, n + 1, tree, nodes)
  {
    var m := n + 1;
    forall i: nat | i < TREE_SIZE && tree[i] != 0
      ensures exists p, b: bool :: SlotUse(sizes, m, nodes, i, p, b)
    {
      var p, b: bool :| SlotUse(sizes, n, nodes, i, p, b);
      assert SlotUse(sizes, m, nodes, i, p, b);
    }
  }

  /** Only one word is a prefix of a string. */
  lemma OtherPrefix(sizes: seq<nat>, s: nat, t: nat, bits: seq<bool>)
    requires ValidSizes(sizes) && Fits(sizes) && IsUsed(sizes, s) && IsUsed(sizes, t) && s != t
    requires Word(sizes, s) <= bits
    ensures !(Word(sizes, t) <= bits)
  {
    hide Word, Fits;
    PrefixFree(sizes, s, t);
    PrefixFree(sizes, t, s);
    PrefixesCompare(Word(sizes, s), Word(sizes, t), bits);
  }

  /** Of two prefixes of a string, one is a prefix of the other. */
  lemma PrefixesCompare(v: seq<bool>, w: seq<bool>, bits: seq<bool>)
    ensures v <= bits && w <= bits ==> v <= w || w <= v
  {
    if v <= bits && w <= bits {
      assert v == bits[..|v|] && w == bits[..|w|];
    }
  }

  lemma PrefixTransitive(u: seq<bool>, v: seq<bool>, w: seq<bool>)
    requires v <= w
    ensures u <= v ==> u <= w
  {
    if u <= v {
      assert u == v[..|u|] == w[..|u|];
    }
  }

  /** A word is not a prefix of a string on the way to another word, and not such a string itself. */
  lemma InnerNotBehind(sizes: seq<nat>, n: nat, p: seq<bool>)
    requires Sizes(sizes) && Fits(sizes) && IsUsed(sizes, n) && Inner(sizes, p)
    ensures !(Word(sizes, n) <= p)
  {
    hide Word, Fits;
    var s: nat :| IsUsed(sizes, s) && p < Word(sizes, s);
    PrefixTransitive(Word(sizes, n), p, Word(sizes, s));
    if s != n {
      PrefixFree(sizes, n, s);
    }
  }

  // ----- adding a symbol with a long code -----

  /** The node value has not been given out. */
  ghost predicate Unused(nodes: Nodes, node: int) {
    IsNode(node) && forall p | p in nodes :: nodes[p] != node
  }

  lemma WordTake(sizes: seq<nat>, n: nat, d: nat)
    requires IsUsed(sizes, n) && d < sizes[n]
    ensures Word(sizes, n)[..d + 1] == Word(sizes, n)[..d] + [Word(sizes, n)[d]]
    ensures LOOKUP_BITS <= d ==> Inner(sizes, Word(sizes, n)[..d])
  {
  }

  lemma NodesGrow(sizes: seq<nat>, nodes: Nodes, p: seq<bool>, node: int)
    requires NodesOk(sizes, nodes) && Unused(nodes, node) && Inner(sizes, p) && p !in nodes
    ensures NodesOk(sizes, nodes[p := node])
  {
  }

  /** The entry of a long word's first 10 bits is unused, or is the node for these bits. */
  lemma LookedUp(sizes: seq<nat>, n: nat, look: seq<int>, tree: seq<int>, nodes: Nodes)
    requires Sizes(sizes) && Fits(sizes) && Tables(sizes, n, look, tree, nodes)
    requires IsUsed(sizes, n) && sizes[n] > LOOKUP_BITS
    ensures var p := Word(sizes, n)[..LOOKUP_BITS];
            && Value(p) < LOOKUP_SIZE && Bits(Value(p), LOOKUP_BITS) == p
            && (look[Value(p)] != 0 <==> p in nodes) && (p in nodes ==> look[Value(p)] == nodes[p])
  {
    var p := Word(sizes, n)[..LOOKUP_BITS];
    assert Pow2(10) == 1024;
    BitsOfValue(p);
    hide Bits, Value, Word;
    if p in nodes {
      assert LinkOk(look, tree, nodes, p);
    } else if look[Value(p)] != 0 {
      var s: nat :| s < n && IsUsed(sizes, s) && sizes[s] <= LOOKUP_BITS && Word(sizes, s) <= p;
      assert Word(sizes, s) <= Word(sizes, n) by {
        assert Word(sizes, n)[..|Word(sizes, s)|] == p[..|Word(sizes, s)|];
      }
      PrefixFree(sizes, s, n);
    }
  }

  lemma RootShortEntries(sizes: seq<nat>, n: nat, look: seq<int>, r: nat, node: int)
    requires Sizes(sizes) && Fits(sizes) && |look| == LOOKUP_SIZE && IsUsed(sizes, n) && ShortEntries(sizes, n, look)
    requires r < LOOKUP_SIZE && Bits(r, LOOKUP_BITS) <= Word(sizes, n)
    ensures ShortEntries(sizes, n, look[r := node])
  {
    hide Word, Bits;
    forall s: nat, i: nat | s < n && IsUsed(sizes, s) && sizes[s] <= LOOKUP_BITS && i < LOOKUP_SIZE
      && Word(sizes, s) <= Bits(i, LOOKUP_BITS)
      ensures look[r := node][i] == sizes[s] * 512 + s
    {
      PrefixFree(sizes, s, n);
      PrefixTransitive(Word(sizes, s), Bits(r, LOOKUP_BITS), Word(sizes, n));
    }
  }

  lemma RootLinks(sizes: seq<nat>, look: seq<int>, tree: seq<int>, nodes: Nodes, p: seq<bool>, node: int)
    requires |look| == LOOKUP_SIZE && |tree| == TREE_SIZE && NodesOk(sizes, nodes) && NodesOk(sizes, nodes[p := node])
    requires LinksOk(look, tree, nodes) && p !in nodes && |p| == LOOKUP_BITS && Value(p) < LOOKUP_SIZE
    ensures LinksOk(look[Value(p) := node], tree, nodes[p := node])
  {
    hide Value, Inner;
    var look', nodes' := look[Value(p) := node], nodes[p := node];
    forall q | q in nodes'
      ensures LinkOk(look', tree, nodes', q)
    {
      if q != p {
        assert LinkOk(look, tree, nodes, q);
        if |q| == LOOKUP_BITS {
          BitsOfValue(q);
          BitsOfValue(p);
        }
      }
    }
  }

  lemma RootLookClean(sizes: seq<nat>, n: nat, look: seq<int>, nodes: Nodes, p: seq<bool>, node: int)
    requires n <= |sizes| && |look| == LOOKUP_SIZE && LookClean(sizes, n, look, nodes)
    requires Value(p) < LOOKUP_SIZE && Bits(Value(p), LOOKUP_BITS) == p
    ensures LookClean(sizes, n, look[Value(p) := node], nodes[p := node])
  {
    hide Value, Word;
  }

  lemma RootAdded(sizes: seq<nat>, n: nat, look: seq<int>, tree: seq<int>, nodes: Nodes, node: int)
    requires Sizes(sizes) && Fits(sizes) && Tables(sizes, n, look, tree, nodes)
    requires IsUsed(sizes, n) && sizes[n] > LOOKUP_BITS && Unused(nodes, node)
    requires var p := Word(sizes, n)[..LOOKUP_BITS]; Value(p) < LOOKUP_SIZE && look[Value(p)] == 0
    ensures var p := Word(sizes, n)[..LOOKUP_BITS];
            Tables(sizes, n, look[Value(p) := node], tree, nodes[p := node])
  {
    hide Bits, Value, Word, NodesOk, ShortEntries, LongEntries, LinksOk, LookClean, TreeClean;
    LookedUp(sizes, n, look, tree, nodes);
    WordTake(sizes, n, LOOKUP_BITS);
    var w := Word(sizes, n);
    var p := w[..LOOKUP_BITS];
    NodesGrow(sizes, nodes, p, node);
    RootShortEntries(sizes, n, look, Value(p), node);
    RootLinks(sizes, look, tree, nodes, p, node);
    RootLookClean(sizes, n, look, nodes, p, node);
    GrownTreeClean(sizes, n, tree, nodes, p, node);
    GrownLongEntries(sizes, n, tree, nodes, p, node);
  }

  lemma GrownTreeClean(sizes: seq<nat>, n: nat, tree: seq<int>, nodes: Nodes, p: seq<bool>, node: int)
    requires n <= |sizes| && |tree| == TREE_SIZE && TreeClean(sizes, n, tree, nodes) && p !in nodes
    ensures TreeClean(sizes, n, tree, nodes[p := node])
  {
    var nodes' := nodes[p := node];
    forall i: nat | i < TREE_SIZE && tree[i] != 0
      ensures exists q, b: bool :: SlotUse(sizes, n, nodes', i, q, b)
    {
      var q, b: bool :| SlotUse(sizes, n, nodes, i, q, b);
      assert SlotUse(sizes, n, nodes', i, q, b);
    }
  }

  lemma GrownLongEntries(sizes: seq<nat>, n: nat, tree: seq<int>, nodes: Nodes, p: seq<bool>, node: int)
    requires n <= |sizes| && |tree| == TREE_SIZE && NodesOk(sizes, nodes) && NodesOk(sizes, nodes[p := node])
    requires LongEntries(sizes, n, tree, nodes) && p !in nodes
    ensures LongEntries(sizes, n, tree, nodes[p := node])
  {
  }

  /** The slot for the next bit of a long word is unused, or leads to the node for the bits so far. */
  lemma Followed(sizes: seq<nat>, n: nat, look: seq<int>, tree: seq<int>, nodes: Nodes, d: nat)
    requires Sizes(sizes) && Fits(sizes) && Tables(sizes, n, look, tree, nodes)
    requires IsUsed(sizes, n) && LOOKUP_BITS <= d < sizes[n] - 1 && Word(sizes, n)[..d] in nodes
    ensures var w := Word(sizes, n);
            var p, q := w[..d], w[..d + 1];
            && (tree[Slot(nodes[p], w[d])] != 0 <==> q in nodes)
            && (q in nodes ==> tree[Slot(nodes[p], w[d])] == nodes[q])
  {
    var w := Word(sizes, n);
    var p, q := w[..d], w[..d + 1];
    WordTake(sizes, n, d);
    hide Word;
    var i := Slot(nodes[p], w[d]);
    if q in nodes {
      assert LinkOk(look, tree, nodes, q);
      assert q[..|q| - 1] == p;
    } else if tree[i] != 0 {
      var p', b: bool :| SlotUse(sizes, n, nodes, i, p', b);
      SlotInjective(nodes[p], w[d], nodes[p'], b);
      assert p' + [b] == q;
      var s: nat :| s < n && IsUsed(sizes, s) && Word(sizes, s) == q;
      PrefixFree(sizes, s, n);
    }
  }

  /** Writing the slot that leads to a node, or to none, leaves the links of the other nodes alone. */
  lemma WrittenLinks(sizes: seq<nat>, look: seq<int>, tree: seq<int>, nodes: Nodes, p: seq<bool>, b: bool, value: int)
    requires |look| == LOOKUP_SIZE && |tree| == TREE_SIZE && NodesOk(sizes, nodes) && p in nodes
    requires forall x | x in nodes && x != p + [b] :: LinkOk(look, tree, nodes, x)
    requires p + [b] in nodes ==> value == nodes[p + [b]]
    ensures LinksOk(look, tree[Slot(nodes[p], b) := value], nodes)
  {
    assert |p| >= LOOKUP_BITS by {
      assert Inner(sizes, p);
    }
    hide Value, Inner;
    forall x | x in nodes
      ensures LinkOk(look, tree[Slot(nodes[p], b) := value], nodes, x)
    {
      if x == p + [b] {
        assert x[..|x| - 1] == p;
      } else {
        OtherLink(look, tree, nodes, p, b, value, x);
      }
    }
  }

  lemma OtherLink(look: seq<int>, tree: seq<int>, nodes: Nodes, p: seq<bool>, b: bool, value: int, x: seq<bool>)
    requires |tree| == TREE_SIZE && p in nodes && IsNode(nodes[p]) && LinkOk(look, tree, nodes, x) && x != p + [b]
    requires forall q | q in nodes && nodes[q] == nodes[p] :: q == p
    ensures LinkOk(look, tree[Slot(nodes[p], b) := value], nodes, x)
  {
    hide Value;
    if |x| > LOOKUP_BITS {
      var y := x[..|x| - 1];
      assert x == y + [x[|x| - 1]];
      if Slot(nodes[y], x[|x| - 1]) == Slot(nodes[p], b) {
        SlotInjective(nodes[y], x[|x| - 1], nodes[p], b);
      }
    }
  }

  /** A new node that nothing else goes through leaves the links of the other nodes alone. */
  lemma GrownLinks(sizes: seq<nat>, look: seq<int>, tree: seq<int>, nodes: Nodes, q: seq<bool>, node: int, x: seq<bool>)
    requires |look| == LOOKUP_SIZE && |tree| == TREE_SIZE && NodesOk(sizes, nodes) && NodesOk(sizes, nodes[q := node])
    requires q !in nodes && x in nodes && LinkOk(look, tree, nodes, x)
    ensures LinkOk(look, tree, nodes[q := node], x)
  {
    hide Value, Inner;
  }

  lemma NodeAdded(sizes: seq<nat>, n: nat, look: seq<int>, tree: seq<int>, nodes: Nodes, d: nat, node: int)
    requires Sizes(sizes) && Fits(sizes) && Tables(sizes, n, look, tree, nodes)
    requires IsUsed(sizes, n) && LOOKUP_BITS <= d < sizes[n] - 1 && Word(sizes, n)[..d] in nodes && Unused(nodes, node)
    requires IsNode(nodes[Word(sizes, n)[..d]])
    requires tree[Slot(nodes[Word(sizes, n)[..d]], Word(sizes, n)[d])] == 0
    ensures var w := Word(sizes, n);
            Tables(sizes, n, look, tree[Slot(nodes[w[..d]], w[d]) := node], nodes[w[..d + 1] := node])
  {
    hide Word, NodesOk, ShortEntries, LongEntries, LookClean, TreeClean, LinkOk;
    Followed(sizes, n, look, tree, nodes, d);
    WordTake(sizes, n, d);
    WordTake(sizes, n, d + 1);
    var w := Word(sizes, n);
    var p, q := w[..d], w[..d + 1];
    NodesGrow(sizes, nodes, q, node);
    var nodes' := nodes[q := node];
    assert p + [w[d]] <= w;
    GrownLongEntries(sizes, n, tree, nodes, q, node);
    SlotWritten(sizes, n, tree, nodes', p, w[d], node, n);
    forall x | x in nodes' && x != q
      ensures LinkOk(look, tree, nodes', x)
    {
      GrownLinks(sizes, look, tree, nodes, q, node, x);
    }
    WrittenLinks(sizes, look, tree, nodes', p, w[d], node);
    GrownTreeClean(sizes, n, tree, nodes, q, node);
    WrittenTreeClean(sizes, n, n, tree, nodes', p, w[d], node);
    GrownLookClean(sizes, n, look, nodes, q, node);
    hide LinksOk;
  }

  lemma GrownLookClean(sizes: seq<nat>, n: nat, look: seq<int>, nodes: Nodes, q: seq<bool>, node: int)
    requires n <= |sizes| && |look| == LOOKUP_SIZE && LookClean(sizes, n, look, nodes)
    ensures LookClean(sizes, n, look, nodes[q := node])
  {
    hide Bits, Word;
  }

  /** Writing a slot on the way to an unfinished word leaves the entries of finished words alone. */
  lemma SlotWritten(sizes: seq<nat>, n: nat, tree: seq<int>, nodes: Nodes, p: seq<bool>, b: bool, value: int, m: nat)
    requires Sizes(sizes) && Fits(sizes) && n <= m && IsUsed(sizes, m) && |tree| == TREE_SIZE
    requires NodesOk(sizes, nodes) && LongEntries(sizes, n, tree, nodes)
    requires p in nodes && p + [b] <= Word(sizes, m)
    ensures LongEntries(sizes, n, tree[Slot(nodes[p], b) := value], nodes)
  {
    hide Word, Inner;
    forall s: nat | s < n && IsUsed(sizes, s) && sizes[s] > LOOKUP_BITS
      ensures LongEntry(Word(sizes, s), s, tree[Slot(nodes[p], b) := value], nodes)
    {
      var w := Word(sizes, s);
      assert LongEntry(w, s, tree, nodes);
      if Slot(nodes[w[..|w| - 1]], w[|w| - 1]) == Slot(nodes[p], b) {
        SlotInjective(nodes[w[..|w| - 1]], w[|w| - 1], nodes[p], b);
        assert w == p + [b];
        PrefixFree(sizes, s, m);
      }
    }
  }

  lemma WrittenTreeClean(sizes: seq<nat>, n: nat, m: nat, tree: seq<int>, nodes: Nodes, p: seq<bool>, b: bool, value: int)
    requires n <= m <= |sizes| && |tree| == TREE_SIZE && TreeClean(sizes, n, tree, nodes)
    requires p in nodes && IsNode(nodes[p])
    requires p + [b] in nodes || exists s: nat :: s < m && IsUsed(sizes, s) && Word(sizes, s) == p + [b]
    ensures TreeClean(sizes, m, tree[Slot(nodes[p], b) := value], nodes)
  {
    var tree' := tree[Slot(nodes[p], b) := value];
    forall i: nat | i < TREE_SIZE && tree'[i] != 0
      ensures exists q, c: bool :: SlotUse(sizes, m, nodes, i, q, c)
    {
      if i == Slot(nodes[p], b) {
        assert SlotUse(sizes, m, nodes, i, p, b);
      } else {
        var q, c: bool :| SlotUse(sizes, n, nodes, i, q, c);
        assert SlotUse(sizes, m, nodes, i, q, c);
      }
    }
  }

  lemma NotANode(sizes: seq<nat>, n: nat, nodes: Nodes)
    requires Sizes(sizes) && Fits(sizes) && IsUsed(sizes, n) && NodesOk(sizes, nodes)
    ensures Word(sizes, n) !in nodes
  {
    hide Word, Inner;
    forall p | p in nodes
      ensures p != Word(sizes, n)
    {
      InnerNotBehind(sizes, n, p);
    }
  }

  /** Writing the symbol into the slot of the last bit completes a long word. */
  lemma LeafAdded(sizes: seq<nat>, n: nat, look: seq<int>, tree: seq<int>, nodes: Nodes)
    requires Sizes(sizes) && Fits(sizes) && Tables(sizes, n, look, tree, nodes)
    requires IsUsed(sizes, n) && sizes[n] > LOOKUP_BITS && Word(sizes, n)[..sizes[n] - 1] in nodes
    ensures var w := Word(sizes, n);
            Tables(sizes, n + 1, look, tree[Slot(nodes[w[..|w| - 1]], w[|w| - 1]) := n], nodes)
  {
    hide Word, Bits, Value, ShortEntries, LongEntries, LookClean, TreeClean, LinkOk, Inner;
    var w := Word(sizes, n);
    var p, b := w[..|w| - 1], w[|w| - 1];
    assert w == p + [b];
    NotANode(sizes, n, nodes);
    SlotWritten(sizes, n, tree, nodes, p, b, n, n);
    WrittenTreeClean(sizes, n, n + 1, tree, nodes, p, b, n);
    WrittenLinks(sizes, look, tree, nodes, p, b, n);
    LongEntriesLast(sizes, n, tree[Slot(nodes[p], b) := n], nodes);
    ShortEntriesSkip(sizes, n, look, nodes);
    hide LinksOk, NodesOk;
  }

  lemma LongEntriesLast(sizes: seq<nat>, n: nat, tree: seq<int>, nodes: Nodes)
    requires IsUsed(sizes, n) && |tree| == TREE_SIZE && NodesOk(sizes, nodes) && LongEntries(sizes, n, tree, nodes)
    requires LongEntry(Word(sizes, n), n, tree, nodes)
    ensures LongEntries(sizes, n + 1, tree, nodes)
  {
    hide Word, Inner;
  }

  lemma ShortEntriesSkip(sizes: seq<nat>, n: nat, look: seq<int>, nodes: Nodes)
    requires n < |sizes| && sizes[n] > LOOKUP_BITS && |look| == LOOKUP_SIZE
    requires ShortEntries(sizes, n, look) && LookClean(sizes, n, look, nodes)
    ensures ShortEntries(sizes, n + 1, look) && LookClean(sizes, n + 1, look, nodes)
  {
    hide Word, Bits;
  }
}
