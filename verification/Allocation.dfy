/** Blocks of memory, and who answers for them. */
module Allocation {
  import opened Common

  type Block = nat

  /** The memory allocator: the blocks that are allocated at the moment, and how many requests it has
      refused so far. */
  class Memory {
    var live: multiset<Block>
    ghost var refusals: nat

    constructor ()
      ensures live == multiset{} && refusals == 0
    {
      live, refusals := multiset{}, 0;
    }

    /** Allocates a block, or fails. */
    method Allocate() returns (block: Option<Block>)
      modifies this
      ensures live == old(live) + Held(block)
      ensures block.Some? ==> block.value !in old(live)
      ensures refusals == old(refusals) + if block.None? then 1 else 0
    {
      var ok: bool, candidate: Block := *, *;
      if ok && candidate !in live {
        block := Some(candidate);
        live := live + multiset{candidate};
      } else {
        block := None;
        refusals := refusals + 1;
      }
    }

    /** Frees a block, which must be allocated: nothing is freed twice. */
    method Free(block: Block)
      requires block in live
      modifies this`live
      ensures live == old(live) - multiset{block}
    {
      live := live - multiset{block};
    }
  }

  function Held(block: Option<Block>): multiset<Block> {
    match block
    case None => multiset{}
    case Some(b) => multiset{b}
  }

  // There is always another block.

  lemma {:induction false} FreshBlock(m: multiset<Block>) returns (b: Block)
    ensures forall k :: k in m ==> k < b
    decreases |m|
  {
    if m == multiset{} {
      b := 0;
    } else {
      var x :| x in m;
      b := FreshBlock(m - multiset{x});
      b := if b <= x then x + 1 else b;
      forall k | k in m
        ensures k < b
      {
        if k != x {
          assert k in m - multiset{x};
        }
      }
    }
  }

  // Sums of blocks.

  lemma AddOn(base: multiset<Block>, a: multiset<Block>, b: multiset<Block>)
    ensures base + a + b == base + (a + b)
  {
  }

  lemma AddAround(base: multiset<Block>, a: multiset<Block>, b: multiset<Block>)
    ensures base + a + b == base + (b + a)
  {
  }
}
