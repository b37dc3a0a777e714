/** Building the decoding tables of tinfl, and decoding one symbol with them. */
module Inflate {
  import opened BitStrings
  import opened CanonicalCodes
  import opened InflateTables
  import opened TreeBound

  /** Nodes are given out as -1, -3, -5, ...; `next` is the one to be given out next. */
  ghost predicate NextNode(nodes: Nodes, next: int) {
    next == -1 - 2 * |nodes| && forall p | p in nodes :: nodes[p] > next
  }

  lemma NodesLeft(sizes: seq<nat>, nodes: Nodes, p: seq<bool>)
    requires Sizes(sizes) && Accepts(sizes) && NodesOk(sizes, nodes) && Inner(sizes, p) && p !in nodes
    ensures |nodes| < MAX_SYMBOLS
  {
    hide Inner, Accepts;
    forall q | q in nodes.Keys + {p}
      ensures Inner(sizes, q)
    {
    }
    NodesBounded(sizes, nodes.Keys + {p});
  }

  /** The next node lies within the tree array. */
  lemma NodeAvailable(sizes: seq<nat>, nodes: Nodes, p: seq<bool>, next: int)
    requires Sizes(sizes) && Accepts(sizes) && NodesOk(sizes, nodes) && NextNode(nodes, next)
    requires Inner(sizes, p) && p !in nodes
    ensures Unused(nodes, next) && NextNode(nodes[p := next], next - 2)
  {
    NodesLeft(sizes, nodes, p);
    hide NodesOk, Inner, Accepts;
    assert |nodes[p := next]| == |nodes| + 1;
    assert next == 2 * (-|nodes| - 1) + 1;
  }

  class HuffTable {
    const lookUp: array<int>
    const tree: array<int>
    ghost var nodes: Nodes

    /** The tables hold the first `n` symbols. */
    ghost predicate Holds(sizes: seq<nat>, n: nat)
      reads this, lookUp, tree
    {
      lookUp != tree && Tables(sizes, n, lookUp[..], tree[..], nodes)
    }

    constructor ()
      ensures fresh(lookUp) && fresh(tree) && lookUp != tree
      ensures lookUp.Length == LOOKUP_SIZE && tree.Length == TREE_SIZE
    {
      lookUp := new int[LOOKUP_SIZE];
      tree := new int[TREE_SIZE];
      nodes := map[];
    }

    method Clear()
      requires lookUp != tree && lookUp.Length == LOOKUP_SIZE && tree.Length == TREE_SIZE
      modifies this, lookUp, tree
      ensures forall sizes: seq<nat> :: Holds(sizes, 0)
      ensures nodes == map[]
    {
      forall i | 0 <= i < lookUp.Length {
        lookUp[i] := 0;
      }
      forall i | 0 <= i < tree.Length {
        tree[i] := 0;
      }
      nodes := map[];
      forall sizes: seq<nat>
        ensures Holds(sizes, 0)
      {
        EmptyTables(sizes, lookUp[..], tree[..]);
      }
    }

    /** Enters a short code at every index whose low bits are the code. */
    method Fill(rev: nat, size: nat, entry: int)
      requires lookUp.Length == LOOKUP_SIZE && size <= LOOKUP_BITS && rev < Pow2(size)
      modifies lookUp
      ensures Filled(old(lookUp[..]), lookUp[..], Bits(rev, size), entry)
    {
      hide Pow2, Bits, Rem;
      FillCongruent(rev, Pow2(size), entry);
      forall i: nat | i < LOOKUP_SIZE
        ensures Bits(rev, size) <= Bits(i, LOOKUP_BITS) <==> Rem(i, Pow2(size)) == rev
      {
        PrefixIsRemainder(rev, i, size);
      }
    }

    /** Enters a code at every index with the given remainder. */
    method FillCongruent(rev: nat, step: nat, entry: int)
      requires lookUp.Length == LOOKUP_SIZE && rev < step
      modifies lookUp
      ensures forall i: nat | i < LOOKUP_SIZE ::
                lookUp[i] == if Rem(i, step) == rev then entry else old(lookUp[i])
    {
      RemSmall(rev, step);
      hide Rem;
      var r := rev;
      NothingBelow(rev, step);
      while r < LOOKUP_SIZE
        invariant Rem(r, step) == rev
        invariant forall i: nat | i < LOOKUP_SIZE ::
          lookUp[i] == if i < r && Rem(i, step) == rev then entry else old(lookUp[i])
        decreases LOOKUP_SIZE - r
      {
        lookUp[r] := entry;
        NextCongruent(r, step);
        r := r + step;
      }
    }

    /** Enters the first 10 bits of a long code; returns their node. */
    method Root(ghost sizes: seq<nat>, ghost n: nat, rev: nat, next: int) returns (node: int, next': int)
      requires Sizes(sizes) && Accepts(sizes) && Fits(sizes) && Holds(sizes, n) && NextNode(nodes, next)
      requires IsUsed(sizes, n) && sizes[n] > LOOKUP_BITS && Bits(rev, sizes[n]) == Word(sizes, n)
      modifies this`nodes, lookUp
      ensures Holds(sizes, n) && NextNode(nodes, next')
      ensures Word(sizes, n)[..LOOKUP_BITS] in nodes && node == nodes[Word(sizes, n)[..LOOKUP_BITS]]
    {
      ghost var p := Word(sizes, n)[..LOOKUP_BITS];
      LookedUp(sizes, n, lookUp[..], tree[..], nodes);
      RootIndex(rev, sizes[n]);
      var i := rev % LOOKUP_SIZE;
      assert i == Value(p);
      hide Word, Bits, Value, NodesOk, ShortEntries, LongEntries, LinksOk, LookClean, TreeClean, Fits, Accepts;
      node, next' := lookUp[i], next;
      if node == 0 {
        WordTake(sizes, n, LOOKUP_BITS);
        NodeAvailable(sizes, nodes, p, next);
        RootAdded(sizes, n, lookUp[..], tree[..], nodes, next);
        ghost var look := lookUp[..];
        lookUp[i] := next;
        assert lookUp[..] == look[i := next];
        nodes := nodes[p := next];
        node, next' := next, next - 2;
      }
    }

    /** Follows one more bit of a long code from its node; returns the next node. */
    method Branch(ghost sizes: seq<nat>, ghost n: nat, ghost d: nat, cur: int, bit: nat, next: int)
      returns (node: int, next': int)
      requires Sizes(sizes) && Accepts(sizes) && Fits(sizes) && Holds(sizes, n) && NextNode(nodes, next)
      requires IsUsed(sizes, n) && LOOKUP_BITS <= d < sizes[n] - 1
      requires Word(sizes, n)[..d] in nodes && cur == nodes[Word(sizes, n)[..d]]
      requires bit == BitValue(Word(sizes, n)[d])
      modifies this`nodes, tree
      ensures Holds(sizes, n) && NextNode(nodes, next')
      ensures Word(sizes, n)[..d + 1] in nodes && node == nodes[Word(sizes, n)[..d + 1]]
    {
      hide Word, Bits, Value, ShortEntries, LongEntries, LinksOk, LookClean, TreeClean, Fits, Accepts;
      ghost var w := Word(sizes, n);
      assert IsNode(cur);
      Followed(sizes, n, lookUp[..], tree[..], nodes, d);
      hide NodesOk;
      var i := -(cur - bit) - 1;
      assert i == Slot(cur, w[d]);
      node, next' := tree[i], next;
      if node == 0 {
        WordTake(sizes, n, d + 1);
        NodeAvailable(sizes, nodes, w[..d + 1], next);
        NodeAdded(sizes, n, lookUp[..], tree[..], nodes, d, next);
        ghost var slots := tree[..];
        tree[i] := next;
        assert tree[..] == slots[i := next];
        nodes := nodes[w[..d + 1] := next];
        node, next' := next, next - 2;
      }
    }

    /** Writes the symbol into the slot for the last bit of its code. */
    method Leaf(ghost sizes: seq<nat>, symbol: nat, cur: int, bit: nat)
      requires Sizes(sizes) && Fits(sizes) && Holds(sizes, symbol)
      requires IsUsed(sizes, symbol) && sizes[symbol] > LOOKUP_BITS
      requires var w := Word(sizes, symbol);
               w[..|w| - 1] in nodes && cur == nodes[w[..|w| - 1]] && bit == BitValue(w[|w| - 1])
      modifies tree
      ensures Holds(sizes, symbol + 1)
    {
      hide Word, Bits, Value, ShortEntries, LongEntries, LinksOk, LookClean, TreeClean, Fits, Inner;
      ghost var w := Word(sizes, symbol);
      assert IsNode(cur);
      LeafAdded(sizes, symbol, lookUp[..], tree[..], nodes);
      ghost var slots := tree[..];
      var i := -(cur - bit) - 1;
      assert i == Slot(cur, w[|w| - 1]);
      tree[i] := symbol;
      assert tree[..] == slots[i := symbol];
    }

    /** Enters a code of more than 10 bits. */
    method AddLong(ghost sizes: seq<nat>, symbol: nat, size: nat, rev: nat, next: int) returns (next': int)
      requires Sizes(sizes) && Accepts(sizes) && Fits(sizes) && Holds(sizes, symbol) && NextNode(nodes, next)
      requires IsUsed(sizes, symbol) && size == sizes[symbol] > LOOKUP_BITS && Bits(rev, size) == Word(sizes, symbol)
      modifies this`nodes, lookUp, tree
      ensures Holds(sizes, symbol + 1) && NextNode(nodes, next')
    {
      hide Word, Bits, Shr, Holds, NextNode, Fits, Accepts;
      ghost var w := Word(sizes, symbol);
      var cur;
      cur, next' := Root(sizes, symbol, rev, next);
      var rest := Shr(rev, LOOKUP_BITS - 1);
      ghost var d := LOOKUP_BITS;
      for j := size downto LOOKUP_BITS + 1
        invariant d == size - j + LOOKUP_BITS
        invariant rest == Shr(rev, d - 1)
        invariant Holds(sizes, symbol) && NextNode(nodes, next')
        invariant w[..d] in nodes && cur == nodes[w[..d]]
      {
        NextBit(rev, size, d);
        rest := rest / 2;
        cur, next' := Branch(sizes, symbol, d, cur, rest % 2, next');
        d := d + 1;
      }
      NextBit(rev, size, d);
      rest := rest / 2;
      Leaf(sizes, symbol, cur, rest % 2);
    }

    /** Builds the tables for the given code sizes; fails exactly when the sizes are neither those of a complete
        code nor those of a code with at most one symbol. */
    method Build(sizes: seq<nat>) returns (ok: bool)
      requires Sizes(sizes)
      requires lookUp != tree && lookUp.Length == LOOKUP_SIZE && tree.Length == TREE_SIZE
      modifies this, lookUp, tree
      ensures ok == Accepts(sizes)
      ensures ok ==> Holds(sizes, |sizes|)
    {
      hide Word, Bits, NodesOk, ShortEntries, LongEntries, LinksOk, LookClean, TreeClean, Fits, FirstCode, Filled, Used;
      var totals := CountSizes(sizes);
      var nextCodes, total, used := NextCodes(sizes, totals);
      if total != FULL && used > 1 { return false; }
      Clear();
      AcceptedFits(sizes);
      hide Accepts;
      var next := -1;
      for s := 0 to |sizes|
        invariant |nextCodes| == 17
        invariant forall l: nat | 1 <= l <= MAX_SIZE :: nextCodes[l] == FirstCode(sizes, l) + Count(sizes, s, l)
        invariant Holds(sizes, s) && NextNode(nodes, next)
      {
        var size := sizes[s];
        if size == 0 {
          UnusedKeepsTables(sizes, s, lookUp[..], tree[..], nodes);
        } else {
          var rev := ReverseCode(nextCodes[size], size);
          CodeIsWord(sizes, s, nextCodes[size]);
          nextCodes := nextCodes[size := nextCodes[size] + 1];
          if size <= LOOKUP_BITS {
            ghost var look := lookUp[..];
            Fill(rev, size, size * 512 + s);
            ShortKeepsTables(sizes, s, look, lookUp[..], tree[..], nodes);
          } else {
            next := AddLong(sizes, s, size, rev, next);
          }
        }
      }
      ok := true;
    }

    /** Decodes one symbol from a bit buffer that starts with a word: returns the symbol of that word, its size,
        and the buffer without it. */
    method Decode(ghost sizes: seq<nat>, bitBuffer: nat) returns (symbol: nat, size: nat, rest: nat)
      requires Sizes(sizes) && Fits(sizes) && Holds(sizes, |sizes|)
      requires exists s: nat :: IsUsed(sizes, s) && Word(sizes, s) <= Bits(bitBuffer, MAX_SIZE)
      ensures IsUsed(sizes, symbol) && size == sizes[symbol] && Word(sizes, symbol) <= Bits(bitBuffer, MAX_SIZE)
      ensures rest == Shr(bitBuffer, size)
    {
      hide Word, Bits, Shr, NodesOk, ShortEntries, LongEntries, LinksOk, LookClean, TreeClean, Fits;
      ghost var s: nat :| IsUsed(sizes, s) && Word(sizes, s) <= Bits(bitBuffer, MAX_SIZE);
      ghost var w := Word(sizes, s);
      LookUpFinds(sizes, lookUp[..], tree[..], nodes, bitBuffer, s);
      var entry := lookUp[bitBuffer % LOOKUP_SIZE];
      if entry >= 0 {
        size, symbol := entry / 512, entry % 512;
      } else {
        size := LOOKUP_BITS;
        rest := Shr(bitBuffer, LOOKUP_BITS);
        while true
          invariant LOOKUP_BITS <= size < sizes[s] && rest == Shr(bitBuffer, size)
          invariant w[..size] in nodes && entry == nodes[w[..size]]
          decreases sizes[s] - size
        {
          BranchFinds(sizes, lookUp[..], tree[..], nodes, bitBuffer, s, size);
          ShrStep(bitBuffer, size);
          entry := tree[-entry - 1 + rest % 2];
          size, rest := size + 1, rest / 2;
          if entry >= 0 { break; }
        }
        symbol := entry;
      }
      rest := Shr(bitBuffer, size);
    }
  }

  /** How many symbols have each size. */
  method CountSizes(sizes: seq<nat>) returns (totals: seq<nat>)
    requires ValidSizes(sizes)
    ensures |totals| == 16 && forall l: nat | l < 16 :: totals[l] == Total(sizes, l)
  {
    totals := seq(16, _ => 0);
    for s := 0 to |sizes|
      invariant |totals| == 16 && forall l: nat | l < 16 :: totals[l] == Count(sizes, s, l)
    {
      totals := totals[sizes[s] := totals[sizes[s]] + 1];
    }
  }

  /** The first code of each size, the total that tells a complete code, and the number of used symbols. */
  method NextCodes(sizes: seq<nat>, totals: seq<nat>) returns (nextCodes: seq<nat>, total: nat, used: nat)
    requires ValidSizes(sizes) && |totals| == 16 && forall l: nat | l < 16 :: totals[l] == Total(sizes, l)
    ensures |nextCodes| == 17 && forall l: nat | 1 <= l <= 16 :: nextCodes[l] == FirstCode(sizes, l)
    ensures total == FirstCode(sizes, 16) && used == Used(sizes, |sizes|)
  {
    hide FirstCode, Total, LongTotal, Used, ValidSizes;
    nextCodes, total, used := seq(17, _ => 0), 0, 0;
    NoCodesYet(sizes);
    for i := 1 to 16
      invariant |nextCodes| == 17 && forall l: nat | 1 <= l <= i :: nextCodes[l] == FirstCode(sizes, l)
      invariant total == FirstCode(sizes, i)
      invariant used == LongTotal(sizes, |sizes|, 1) - LongTotal(sizes, |sizes|, i)
    {
      MoreCodes(sizes, i);
      used := used + totals[i];
      total := 2 * (total + totals[i]);
      nextCodes := nextCodes[i + 1 := total];
    }
    UsedIsTotal(sizes, |sizes|);
  }

  lemma NoCodesYet(sizes: seq<nat>)
    ensures FirstCode(sizes, 1) == 0 && LongTotal(sizes, |sizes|, 16) == 0
  {
  }

  lemma MoreCodes(sizes: seq<nat>, i: nat)
    requires 1 <= i < 16
    ensures FirstCode(sizes, i + 1) == 2 * (FirstCode(sizes, i) + Total(sizes, i))
    ensures LongTotal(sizes, |sizes|, i) == Total(sizes, i) + LongTotal(sizes, |sizes|, i + 1)
  {
  }

  /** A symbol that is not used leaves the tables alone. */
  lemma UnusedKeepsTables(sizes: seq<nat>, n: nat, look: seq<int>, tree: seq<int>, nodes: Nodes)
    requires n < |sizes| && sizes[n] == 0 && Tables(sizes, n, look, tree, nodes)
    ensures Tables(sizes, n + 1, look, tree, nodes)
  {
    hide NodesOk, LinksOk, Word, Bits;
    TreeCleanNext(sizes, n, tree, nodes);
    assert NodesOk(sizes, nodes);
    assert ShortEntries(sizes, n + 1, look);
    assert LookClean(sizes, n + 1, look, nodes);
    hide TreeClean, LookClean, ShortEntries;
  }

  lemma CodeIsWord(sizes: seq<nat>, s: nat, code: nat)
    requires IsUsed(sizes, s) && code == FirstCode(sizes, sizes[s]) + Count(sizes, s, sizes[s])
    ensures CodeWord(code, sizes[s]) == Word(sizes, s)
  {
  }

  lemma ShortEntryOf(sizes: seq<nat>, look: seq<int>, s: nat, r: nat)
    requires |look| == LOOKUP_SIZE && ShortEntries(sizes, |sizes|, look)
    requires IsUsed(sizes, s) && sizes[s] <= LOOKUP_BITS && r < LOOKUP_SIZE && Word(sizes, s) <= Bits(r, LOOKUP_BITS)
    ensures look[r] == sizes[s] * 512 + s
  {
    hide Word, Bits;
  }

  lemma LongEntryOf(sizes: seq<nat>, tree: seq<int>, nodes: Nodes, s: nat)
    requires LongEntries(sizes, |sizes|, tree, nodes) && IsUsed(sizes, s) && sizes[s] > LOOKUP_BITS
    ensures LongEntry(Word(sizes, s), s, tree, nodes)
  {
    hide Word;
  }

  /** The table entry for a buffer that starts with a word: the symbol of a short word, or the node of a long one. */
  lemma LookUpFinds(sizes: seq<nat>, look: seq<int>, tree: seq<int>, nodes: Nodes, bitBuffer: nat, s: nat)
    requires Sizes(sizes) && Tables(sizes, |sizes|, look, tree, nodes)
    requires IsUsed(sizes, s) && Word(sizes, s) <= Bits(bitBuffer, MAX_SIZE)
    ensures bitBuffer % LOOKUP_SIZE < LOOKUP_SIZE
    ensures var entry, w := look[bitBuffer % LOOKUP_SIZE], Word(sizes, s);
            if sizes[s] <= LOOKUP_BITS then entry / 512 == sizes[s] && entry % 512 == s && entry >= 0
            else w[..LOOKUP_BITS] in nodes && entry == nodes[w[..LOOKUP_BITS]] < 0
  {
    hide Word, Bits, Value, ShortEntries, LongEntries, LookClean, TreeClean, LinksOk, NodesOk;
    var w, r := Word(sizes, s), bitBuffer % LOOKUP_SIZE;
    LowTen(bitBuffer);
    if |w| <= LOOKUP_BITS {
      assert w <= Bits(r, LOOKUP_BITS) by {
        assert Bits(bitBuffer, MAX_SIZE)[..LOOKUP_BITS][..|w|] == Bits(bitBuffer, MAX_SIZE)[..|w|];
      }
      ShortEntryOf(sizes, look, s, r);
    } else {
      WordNodes(sizes, look, tree, nodes, s, LOOKUP_BITS);
      assert w[..LOOKUP_BITS] == Bits(r, LOOKUP_BITS);
      NodeLink(sizes, look, tree, nodes, w[..LOOKUP_BITS]);
    }
  }

  lemma LowTen(bitBuffer: nat)
    ensures var r := bitBuffer % LOOKUP_SIZE;
            Bits(r, LOOKUP_BITS) == Bits(bitBuffer, MAX_SIZE)[..LOOKUP_BITS] && r == Value(Bits(r, LOOKUP_BITS))
  {
    BitsPrefix(bitBuffer, MAX_SIZE, LOOKUP_BITS);
    assert Pow2(10) == 1024;
    BitsOfRemainder(bitBuffer, LOOKUP_BITS);
    LowBits(bitBuffer, LOOKUP_BITS);
  }

  lemma NodeLink(sizes: seq<nat>, look: seq<int>, tree: seq<int>, nodes: Nodes, p: seq<bool>)
    requires NodesOk(sizes, nodes) && LinksOk(look, tree, nodes) && p in nodes
    ensures IsNode(nodes[p]) && LinkOk(look, tree, nodes, p)
  {
    hide Inner, Value;
  }

  /** All strings on the way to an entered long word have nodes. */
  lemma {:induction false} WordNodes(sizes: seq<nat>, look: seq<int>, tree: seq<int>, nodes: Nodes, s: nat, d: nat)
    requires Sizes(sizes) && Tables(sizes, |sizes|, look, tree, nodes)
    requires IsUsed(sizes, s) && LOOKUP_BITS <= d < sizes[s]
    ensures Word(sizes, s)[..d] in nodes
    decreases sizes[s] - d
  {
    hide Word, Bits, Value, ShortEntries, LongEntries, LookClean, TreeClean, LinksOk, NodesOk;
    var w := Word(sizes, s);
    if d < |w| - 1 {
      WordNodes(sizes, look, tree, nodes, s, d + 1);
      NodeLink(sizes, look, tree, nodes, w[..d + 1]);
      assert w[..d + 1][..d] == w[..d];
    } else {
      LongEntryOf(sizes, tree, nodes, s);
    }
  }

  /** One more bit leads from the node of a string on the way to a word to the next node, or to the symbol. */
  lemma BranchFinds(sizes: seq<nat>, look: seq<int>, tree: seq<int>, nodes: Nodes, bitBuffer: nat, s: nat, d: nat)
    requires Sizes(sizes) && Tables(sizes, |sizes|, look, tree, nodes)
    requires IsUsed(sizes, s) && Word(sizes, s) <= Bits(bitBuffer, MAX_SIZE)
    requires LOOKUP_BITS <= d < sizes[s] && Word(sizes, s)[..d] in nodes
    ensures var i := -nodes[Word(sizes, s)[..d]] - 1 + Shr(bitBuffer, d) % 2;
            && 0 <= i < TREE_SIZE
            && if d == sizes[s] - 1 then tree[i] == s
               else Word(sizes, s)[..d + 1] in nodes && tree[i] == nodes[Word(sizes, s)[..d + 1]] < 0
  {
    hide Word, Bits, Shr, Value, ShortEntries, LongEntries, LookClean, TreeClean, LinksOk, NodesOk;
    var w := Word(sizes, s);
    BufferBit(bitBuffer, d);
    assert w[d] == Bits(bitBuffer, MAX_SIZE)[d];
    NodeLink(sizes, look, tree, nodes, w[..d]);
    if d < |w| - 1 {
      WordNodes(sizes, look, tree, nodes, s, d + 1);
      NodeLink(sizes, look, tree, nodes, w[..d + 1]);
      assert w[..d + 1][..d] == w[..d];
    } else {
      LongEntryOf(sizes, tree, nodes, s);
    }
  }

  lemma BufferBit(bitBuffer: nat, d: nat)
    requires d < MAX_SIZE
    ensures Shr(bitBuffer, d) % 2 == BitValue(Bits(bitBuffer, MAX_SIZE)[d])
  {
    BitsDrop(bitBuffer, MAX_SIZE, d);
    assert Bits(bitBuffer, MAX_SIZE)[d] == Bits(bitBuffer, MAX_SIZE)[d..][0];
  }

  /** The next bit of a code that has been shifted so far. */
  lemma NextBit(rev: nat, size: nat, d: nat)
    requires 1 <= d < size
    ensures Shr(rev, d - 1) / 2 == Shr(rev, d) && Shr(rev, d) % 2 == BitValue(Bits(rev, size)[d])
  {
    ShrStep(rev, d - 1);
    BitsDrop(rev, size, d);
    assert Bits(rev, size)[d] == Bits(rev, size)[d..][0];
  }

  lemma RootIndex(rev: nat, size: nat)
    requires size > LOOKUP_BITS
    ensures rev % LOOKUP_SIZE == Value(Bits(rev, size)[..LOOKUP_BITS])
  {
    BitsPrefix(rev, size, LOOKUP_BITS);
    LowBits(rev, LOOKUP_BITS);
    assert Pow2(10) == 1024;
  }

  function Rem(i: nat, step: nat): nat
    requires step > 0
  {
    i % step
  }

  lemma RemSmall(i: nat, step: nat)
    requires i < step
    ensures Rem(i, step) == i
  {
  }

  /** The low bits of an index are those of a code exactly when the code is the remainder. */
  lemma PrefixIsRemainder(rev: nat, i: nat, size: nat)
    requires rev < Pow2(size) && size <= LOOKUP_BITS
    ensures Bits(rev, size) <= Bits(i, LOOKUP_BITS) <==> Rem(i, Pow2(size)) == rev
  {
    BitsPrefix(i, LOOKUP_BITS, size);
    SameBits(rev, i, size);
    RemSmall(rev, Pow2(size));
    hide Bits, Pow2;
  }

  lemma NothingBelow(rev: nat, step: nat)
    requires rev < step
    ensures forall i: nat | i < rev :: Rem(i, step) != rev
  {
  }

  /** Between a number and the next one congruent to it there is none. */
  lemma NextCongruent(r: nat, step: nat)
    requires step > 0
    ensures Rem(r + step, step) == Rem(r, step)
    ensures forall i: nat | r <= i < r + step && Rem(i, step) == Rem(r, step) :: i == r
  {
    CongruentNear(r, r + step, step);
    forall i: nat | r <= i < r + step && Rem(i, step) == Rem(r, step)
      ensures i == r
    {
      CongruentNear(r, i, step);
    }
  }

  lemma CongruentNear(r: nat, i: nat, step: nat)
    requires step > 0 && r <= i <= r + step
    ensures i % step == r % step <==> i == r || i == r + step
  {
    DivMod(r, step);
    DivMod(i, step);
    var q, q' := r / step, i / step;
    var a, b := r % step, i % step;
    assert a + step * q == r && b + step * q' == i;
    if q' > q + 1 {
      MulAtLeast(step, q + 2, q');
    } else if q' < q {
      MulAtLeast(step, q' + 1, q);
    }
  }

  lemma MulAtLeast(step: nat, a: nat, b: nat)
    requires a <= b
    ensures step * a <= step * b
  {
  }
}
