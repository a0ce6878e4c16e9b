/** The block pool of slpool.h: fixed-size blocks of chunks, the free chunks of all
    blocks on one intrusive doubly linked list. */
module SlPool {
  import opened Sequences

  class Chunk {
    var parent: ChunkList?
    var prev: Chunk?
    var next: Chunk?
    var inUse: bool   // _state

    constructor ()
      ensures parent == null && prev == null && next == null && !inUse
    {
      parent, prev, next, inUse := null, null, null, false;
    }
  }

  class ChunkList {
    var prev: ChunkList?
    var next: ChunkList?
    var useCount: int
    const chunk: seq<Chunk>
    ghost var used: set<Chunk>  // its chunks in use

    constructor (chunk: seq<Chunk>)
      ensures this.chunk == chunk && prev == null && next == null && useCount == 0 && used == {}
    {
      this.chunk, prev, next, useCount, used := chunk, null, null, 0, {};
    }
  }

  ghost predicate LinkAt(l: seq<Chunk>, i: int)
    requires 0 <= i < |l|
    reads l`prev, l`next
  {
    l[i].prev == Before(l, i, null) && l[i].next == After(l, i, null)
  }

  /** l is a doubly linked list from head, without cycle. */
  ghost predicate Linked(head: Chunk?, l: seq<Chunk>)
    reads l`prev, l`next
  {
    && head == (if l == [] then null else l[0])
    && NoDup(l)
    && forall i :: 0 <= i < |l| ==> LinkAt(l, i)
  }

  ghost predicate BlockAt(l: seq<ChunkList>, i: int)
    requires 0 <= i < |l|
    reads l`prev, l`next
  {
    l[i].prev == Before(l, i, null) && l[i].next == After(l, i, null)
  }

  function Members(l: seq<Chunk>): (r: set<Chunk>)
    ensures forall x :: x in l ==> x in r
    ensures forall x :: x in r ==> x in l
  {
    set x | x in l
  }

  lemma {:induction false} MembersCount(l: seq<Chunk>)
    requires NoDup(l)
    ensures |Members(l)| == |l|
  {
    if l != [] {
      MembersCount(l[1..]);
      assert l[0] !in l[1..];
      assert Members(l) == {l[0]} + Members(l[1..]);
    }
  }

  lemma OneBlockLess(owned: set<Chunk>, gone: seq<Chunk>, n: int, size: nat)
    requires Members(gone) <= owned && NoDup(gone) && |gone| == size && |owned| == n * size
    ensures |owned - Members(gone)| == (n - 1) * size
  {
    MembersCount(gone);
    assert |owned - Members(gone)| == |owned| - |Members(gone)|;
  }

  lemma OneBlockMore(owned: set<Chunk>, more: seq<Chunk>, n: int, size: nat)
    requires Members(more) !! owned && NoDup(more) && |more| == size && |owned| == n * size
    ensures |owned + Members(more)| == (n + 1) * size
  {
    MembersCount(more);
  }

  class Pool {
    const keep: nat        // chunkCount of the template: blocks never given back
    const chunkSize: nat
    var head: Chunk?
    var listHead: ChunkList?
    var chunkCount: int
    ghost var free: seq<Chunk>
    ghost var live: set<Chunk>     // handed out
    ghost var owned: set<Chunk>    // all chunks of the blocks
    ghost var blocks: set<ChunkList>
    ghost var chain: seq<ChunkList>  // the blocks as the list of blocks should have them
    ghost var ever: set<ChunkList>   // the blocks there have been

    ghost predicate ChunkAt(c: Chunk, loose: set<Chunk>)
      reads this`free, this`live, c`inUse, c`prev, c`next
    {
      && (c.inUse <==> c in live)
      && (c in free <==> !c.inUse && c !in loose)
      && (c !in free ==> c.prev == null && c.next == null)
    }

    /** The free list of a pool with the chunks own, when those of loose are free but
        not on it. */
    ghost predicate Lists(own: set<Chunk>, loose: set<Chunk>)
      reads this`head, this`free, this`live, own`inUse, own`prev, own`next
    {
      && (forall c :: c in free ==> c in own)
      && Linked(head, free)
      && live <= own
      && forall c {:trigger ChunkAt(c, loose)} :: c in own ==> ChunkAt(c, loose)
    }

    /** The chunk belongs to one of these blocks. */
    ghost predicate HomeOf(c: Chunk, these: set<ChunkList>)
      reads c`parent
    {
      c.parent != null && c.parent in these && c in c.parent.chunk
    }

    /** A block of chunks from own, of which those in taken are in use. */
    ghost predicate IsBlock(b: ChunkList, own: set<Chunk>, taken: set<Chunk>)
      reads b`useCount, b`used, own`parent
    {
      && |b.chunk| == chunkSize && NoDup(b.chunk)
      && (forall c :: c in b.chunk ==> c in own && c.parent == b)
      && (forall c :: c in b.used ==> c in b.chunk && c in taken)
      && (forall c :: c in b.chunk && c in taken ==> c in b.used)
      && b.useCount == |b.used|
    }

    /** These n blocks and no others make up own. */
    ghost predicate Blocks(these: set<ChunkList>, n: int, own: set<Chunk>, taken: set<Chunk>)
      reads these`useCount, these`used, own`parent
    {
      && chunkSize >= 1
      && (forall b {:trigger IsBlock(b, own, taken)} :: b in these ==> IsBlock(b, own, taken))
      && (forall c {:trigger HomeOf(c, these)} :: c in own ==> HomeOf(c, these))
      && |these| == n && |own| == n * chunkSize
    }

    ghost predicate LeadsTo(b: ChunkList, known: set<ChunkList>)
      reads b`prev, b`next
    {
      (b.prev != null ==> b.prev in known) && (b.next != null ==> b.next in known)
    }

    /** Block pointers lead to blocks, though perhaps to released ones. */
    ghost predicate Known()
      reads this`blocks, this`listHead, this`ever, ever`prev, ever`next
    {
      && blocks <= ever && (listHead != null ==> listHead in ever)
      && forall b {:trigger LeadsTo(b, ever)} :: b in ever ==> LeadsTo(b, ever)
    }

    ghost predicate Valid()
      reads this, owned, blocks, ever
    {
      Lists(owned, {}) && Blocks(blocks, chunkCount, owned, live) && Known()
    }

    /** The list of blocks holds exactly these, linked both ways. */
    ghost predicate Intact(these: set<ChunkList>)
      reads this`chain, this`listHead, chain`prev, chain`next
    {
      && listHead == (if chain == [] then null else chain[0])
      && NoDup(chain)
      && (forall b :: b in chain ==> b in these) && (forall b :: b in these ==> b in chain)
      && forall i :: 0 <= i < |chain| ==> BlockAt(chain, i)
    }

    /** Free and used chunks make up all blocks. */
    lemma CountsAdd()
      requires Valid()
      ensures |free| + |live| == chunkCount * chunkSize
    {
      MembersCount(free);
      forall c | c in owned
        ensures c in Members(free) <==> c !in live
      {
        assert ChunkAt(c, {});
      }
      assert owned == Members(free) + live;
    }

    method Add(c: Chunk)
      requires Linked(head, free) && c !in free && c.prev == null && c in owned && forall d :: d in free ==> d in owned
      modifies this`head, this`free, owned`prev, owned`next
      ensures Linked(head, free) && free == [c] + old(free)
      ensures forall d :: d in owned && d !in free ==> d.prev == old(d.prev) && d.next == old(d.next)
    {
      ghost var l := free;
      c.next := head;
      if head != null {
        head.prev := c;
      }
      head := c;
      free := [c] + free;
      forall i | 0 <= i < |free|
        ensures LinkAt(free, i)
      {
        assert i > 0 ==> old(LinkAt(l, i - 1));
      }
    }

    method Bypass(c: Chunk)
      requires c in owned && (c.prev != null ==> c.prev in owned) && (c.next != null ==> c.next in owned)
      modifies this`head, owned`prev, owned`next
      ensures head == (if c == old(head) then old(c.next) else old(head)) && c.prev == c.next == null
      ensures forall d :: d in owned && d != c ==>
                && d.prev == (if d == old(c.next) then old(c.prev) else old(d.prev))
                && d.next == (if d == old(c.prev) then old(c.next) else old(d.next))
    {
      if c.next != null {
        c.next.prev := c.prev;
      }
      if c.prev != null {
        c.prev.next := c.next;
      }
      if c == head {
        head := c.next;
      }
      c.prev, c.next := null, null;
    }

    method Remove(c: Chunk)
      requires Linked(head, free) && c in owned && forall d :: d in free ==> d in owned
      requires c !in free ==> c.prev == null && c.next == null
      modifies this`head, this`free, owned`prev, owned`next
      ensures Linked(head, free)
      ensures exists k :: 0 <= k <= |old(free)| && free == Cut(old(free), k)
      ensures forall d :: d in free <==> d in old(free) && d != c
      ensures c.prev == null && c.next == null
      ensures forall d :: d in owned && d !in old(free) ==> d.prev == old(d.prev) && d.next == old(d.next)
    {
      ghost var l := free;
      ghost var k :| 0 <= k <= |l| && (if k < |l| then l[k] == c else c !in l);
      CutMembers(l, k, c);
      if k < |l| {
        assert LinkAt(l, k);
        assert k > 0 ==> LinkAt(l, k - 1);
        assert k + 1 < |l| ==> LinkAt(l, k + 1);
      }
      Bypass(c);
      free := Cut(l, k);
      if k < |l| {
        StillLinked(k);
      } else {
        assert forall i :: 0 <= i < |l| ==> old(LinkAt(l, i)) && l[i] in l;
      }
    }

    twostate lemma StillLinked(k: nat)
      requires k < |old(free)| && free == Cut(old(free), k) && old(Linked(head, free))
      requires var c := old(free)[k];
               && head == old(if c == head then c.next else head)
               && forall d :: d in old(free) && d != c ==>
                    && d.prev == (if d == old(c.next) then old(c.prev) else old(d.prev))
                    && d.next == (if d == old(c.prev) then old(c.next) else old(d.next))
      ensures Linked(head, free)
    {
      ghost var l := old(free);
      CutMembers(l, k, l[k]);
      assert old(LinkAt(l, k)) && (k > 0 ==> old(LinkAt(l, k - 1))) && (k + 1 < |l| ==> old(LinkAt(l, k + 1)));
      forall i | 0 <= i < |free|
        ensures LinkAt(free, i)
      {
        assert old(LinkAt(l, if i < k then i else i + 1));
      }
    }

    constructor (keep: nat, chunkSize: nat)
      requires chunkSize >= 1
      ensures Valid() && Intact(blocks) && fresh(owned) && fresh(ever)
      ensures this.keep == keep && this.chunkSize == chunkSize && live == {} && chunkCount == 1
    {
      this.keep, this.chunkSize := keep, chunkSize;
      head, listHead, chunkCount := null, null, 0;
      free, live, owned, blocks, chain, ever := [], {}, {}, {}, [], {};
      new;
      AllocChunk();
    }

    method Alloc() returns (ret: Chunk)
      requires Valid()
      modifies this, owned, ever
      ensures Valid()
      ensures ret !in old(live) && live == old(live) + {ret} && HomeOf(ret, blocks)
      ensures fresh(owned - old(owned)) && fresh(ever - old(ever))
      ensures if old(free) != []
              then ret == old(free)[0] && owned == old(owned) && blocks == old(blocks) && chunkCount == old(chunkCount)
              else chunkCount == old(chunkCount) + 1 && fresh(ret) && listHead == ret.parent && fresh(listHead)
      ensures old(Intact(blocks)) ==> Intact(blocks)
    {
      hide Blocks, Intact;
      if head == null {
        AllocChunk();
      }
      ret := TakeFirst();
    }

    method TakeFirst() returns (ret: Chunk)
      requires Lists(owned, {}) && Blocks(blocks, chunkCount, owned, live) && free != []
      modifies this`head, this`free, this`live, owned`inUse, owned`prev, owned`next, blocks`useCount, blocks`used
      ensures Lists(owned, {}) && Blocks(blocks, chunkCount, owned, live)
      ensures ret == old(free)[0] && ret !in old(live) && live == old(live) + {ret} && HomeOf(ret, blocks)
      ensures Known() == old(Known()) && Intact(blocks) == old(Intact(blocks))
    {
      hide Known, Intact;
      ret := head;
      assert ret == free[0] && ChunkAt(ret, {}) && HomeOf(ret, blocks);
      Unlink(ret, {});
      assert {} + {ret} == {ret};
      Take(ret);
    }

    /** One more block, its chunks free and in front of the free list. */
    method AllocChunk()
      requires Lists(owned, {}) && Blocks(blocks, chunkCount, owned, live) && Known()
      modifies this, owned`prev, owned`next, ever`prev
      ensures Valid() && live == old(live) && chunkCount == old(chunkCount) + 1
      ensures fresh(owned - old(owned)) && fresh(ever - old(ever))
      ensures listHead != null && fresh(listHead) && blocks == old(blocks) + {listHead}
      ensures free != [] && fresh(free[0]) && free[0].parent == listHead
      ensures old(Intact(blocks)) ==> Intact(blocks)
    {
      hide Lists, Blocks, Intact;
      var b := MakeBlock();
      assert Known();
      assert b !in ever;
      EnterBlock(b);
    }

    method MakeBlock() returns (b: ChunkList)
      requires Lists(owned, {}) && Blocks(blocks, chunkCount, owned, live) && blocks <= ever
      modifies this`head, this`free, this`owned, owned`prev, owned`next
      ensures Lists(owned, {}) && fresh(b) && b.prev == null
      ensures Blocks(blocks + {b}, chunkCount + 1, owned, live)
      ensures owned == old(owned) + Members(b.chunk) && fresh(Members(b.chunk))
      ensures free != [] && free[0] in b.chunk && free[0].parent == b
      ensures Known() == old(Known()) && Intact(blocks) == old(Intact(blocks))
    {
      hide Lists, Blocks, Known, Intact;
      b := NewBlock();
      assert Known() == old(Known());
      assert Intact(blocks) == old(Intact(blocks));
      assert Blocks(blocks, chunkCount, old(owned), live) == old(Blocks(blocks, chunkCount, owned, live));
      WithBlock(b, old(owned));
    }

    method NewBlock() returns (b: ChunkList)
      requires Lists(owned, {})
      modifies this`head, this`free, this`owned, owned`prev, owned`next
      ensures Lists(owned, {}) && fresh(b) && b.prev == null && b.useCount == 0 && b.used == {}
      ensures |b.chunk| == chunkSize && NoDup(b.chunk)
      ensures forall c :: c in b.chunk ==> c !in live && c.parent == b
      ensures owned == old(owned) + Members(b.chunk) && Members(b.chunk) !! old(owned) && fresh(Members(b.chunk))
      ensures chunkSize > 0 ==> free != [] && free[0] in b.chunk
    {
      var chunk := NewChunks();
      b := new ChunkList(chunk);
      ghost var was := owned;
      owned := owned + Members(chunk);
      forall c | c in owned
        ensures ChunkAt(c, Members(chunk))
      {
        assert c in was ==> old(ChunkAt(c, {}));
      }
      assert forall c :: c in owned ==> c in was || fresh(c);
      assert forall c :: c in Members(b.chunk) ==> fresh(c);
      ArrangeChunkList(b);
    }

    method EnterBlock(b: ChunkList)
      requires Lists(owned, {}) && Blocks(blocks + {b}, chunkCount + 1, owned, live) && Known()
      requires b !in ever && b.prev == null
      modifies this`listHead, this`chain, this`ever, this`blocks, this`chunkCount, ever`prev, b`next
      ensures Valid() && listHead == b && ever == old(ever) + {b} && chunkCount == old(chunkCount) + 1
      ensures blocks == old(blocks) + {b}
      ensures old(Intact(blocks)) ==> Intact(blocks)
    {
      LinkBlock(b);
      assert Lists(owned, {}) == old(Lists(owned, {}));
      assert Blocks(blocks, chunkCount, owned, live) == old(Blocks(blocks + {b}, chunkCount + 1, owned, live));
    }

    lemma WithBlock(b: ChunkList, was: set<Chunk>)
      requires Blocks(blocks, chunkCount, was, live) && b !in blocks && b.useCount == 0 && b.used == {}
      requires |b.chunk| == chunkSize && NoDup(b.chunk)
      requires forall c :: c in b.chunk ==> c !in live && c.parent == b
      requires owned == was + Members(b.chunk) && Members(b.chunk) !! was
      ensures Blocks(blocks + {b}, chunkCount + 1, owned, live)
    {
      OneBlockMore(was, b.chunk, chunkCount, chunkSize);
      forall d | d in blocks + {b}
        ensures IsBlock(d, owned, live)
      {
        assert d != b ==> IsBlock(d, was, live);
      }
      forall c | c in owned
        ensures HomeOf(c, blocks + {b})
      {
        assert c in was ==> HomeOf(c, blocks);
      }
    }

    method NewChunks() returns (chunk: seq<Chunk>)
      ensures |chunk| == chunkSize && NoDup(chunk)
      ensures forall c :: c in chunk ==> fresh(c) && c.parent == null && c.prev == null && c.next == null && !c.inUse
    {
      chunk := [];
      while |chunk| < chunkSize
        invariant |chunk| <= chunkSize && NoDup(chunk)
        invariant forall c :: c in chunk ==>
                                fresh(c) && c.parent == null && c.prev == null && c.next == null && !c.inUse
      {
        var c := new Chunk();
        chunk := chunk + [c];
      }
    }

    method ArrangeChunkList(b: ChunkList)
      requires Lists(owned, Members(b.chunk)) && NoDup(b.chunk) && Members(b.chunk) <= owned && Members(b.chunk) !! live
      modifies this`head, this`free, owned`prev, owned`next, Members(b.chunk)`parent
      ensures Lists(owned, {}) && (b.chunk != [] ==> free != [] && free[0] in b.chunk)
      ensures forall c :: c in b.chunk ==> c.parent == b
    {
      ghost var loose := Members(b.chunk);
      var i := 0;
      while i < |b.chunk|
        invariant 0 <= i <= |b.chunk| && Lists(owned, loose)
        invariant forall k :: 0 <= k < |b.chunk| ==> (b.chunk[k] in loose <==> i <= k)
        invariant loose <= Members(b.chunk)
        invariant forall k :: 0 <= k < i ==> b.chunk[k].parent == b
        invariant i > 0 ==> free != [] && free[0] in b.chunk
      {
        b.chunk[i].parent := b;
        Link(b.chunk[i], loose);
        loose := loose - {b.chunk[i]};
        i := i + 1;
      }
      assert loose == {};
    }

    /** A new block goes to the front of the list of blocks. */
    method LinkBlock(b: ChunkList)
      requires Known() && b !in ever && b.prev == null
      modifies this`listHead, this`chain, this`ever, this`blocks, this`chunkCount, ever`prev, b`next
      ensures Known() && listHead == b && ever == old(ever) + {b} && chunkCount == old(chunkCount) + 1
      ensures blocks == old(blocks) + {b}
      ensures old(Intact(blocks)) ==> Intact(blocks)
    {
      ghost var l, was := chain, ever;
      b.next := listHead;
      if listHead != null {
        listHead.prev := b;
      }
      listHead, chunkCount := b, chunkCount + 1;
      chain, ever, blocks := [b] + chain, ever + {b}, blocks + {b};
      forall d | d in ever
        ensures LeadsTo(d, ever)
      {
        assert d != b ==> old(LeadsTo(d, was));
      }
      if old(Intact(blocks)) {
        forall i | 0 <= i < |chain|
          ensures BlockAt(chain, i)
        {
          assert i > 0 ==> old(BlockAt(l, i - 1));
        }
      }
    }

    /** Add, for a free chunk of the pool. */
    method Link(c: Chunk, ghost loose: set<Chunk>)
      requires Lists(owned, loose) && c in owned && c in loose && c !in live
      modifies this`head, this`free, owned`prev, owned`next
      ensures Lists(owned, loose - {c}) && free == [c] + old(free)
    {
      assert ChunkAt(c, loose);
      Add(c);
      forall d | d in owned
        ensures ChunkAt(d, loose - {c})
      {
        assert old(ChunkAt(d, loose));
      }
    }

    /** Remove, for a free chunk of the pool. */
    method Unlink(c: Chunk, ghost loose: set<Chunk>)
      requires Lists(owned, loose) && c in owned && !c.inUse
      modifies this`head, this`free, owned`prev, owned`next
      ensures Lists(owned, loose + {c}) && c !in free
    {
      assert ChunkAt(c, loose);
      Remove(c);
      forall d | d in owned
        ensures ChunkAt(d, loose + {c})
      {
        assert old(ChunkAt(d, loose));
      }
    }

    /** The book-keeping of alloc for a chunk that has left the free list. */
    method Take(c: Chunk)
      requires Lists(owned, {c}) && Blocks(blocks, chunkCount, owned, live)
      requires c in owned && !c.inUse && HomeOf(c, blocks)
      modifies this`live, owned`inUse, blocks`useCount, blocks`used
      ensures Lists(owned, {}) && Blocks(blocks, chunkCount, owned, live) && live == old(live) + {c} && c !in old(live)
      ensures c.parent.useCount == old(c.parent.useCount) + 1
    {
      assert ChunkAt(c, {c});
      CountInto(c.parent, c.parent.useCount + 1, live + {c}, c);
      c.inUse := true;
      live := live + {c};
      forall d | d in owned
        ensures ChunkAt(d, {})
      {
        assert old(ChunkAt(d, {c}));
      }
    }

    method GiveBack(c: Chunk)
      requires Valid() && c in live && HomeOf(c, blocks)
      modifies this`live, owned`inUse, blocks`useCount, blocks`used
      ensures Lists(owned, {c}) && Blocks(blocks, chunkCount, owned, live) && live == old(live) - {c}
      ensures !c.inUse && c !in free && c.prev == null
      ensures c.parent.useCount == old(c.parent.useCount) - 1
    {
      assert ChunkAt(c, {});
      CountInto(c.parent, c.parent.useCount - 1, live - {c}, c);
      c.inUse := false;
      live := live - {c};
      forall d | d in owned
        ensures ChunkAt(d, {c})
      {
        assert old(ChunkAt(d, {}));
      }
    }

    /** The use count of a block when its chunk c is handed out or comes back. */
    method CountInto(b: ChunkList, n: int, ghost taken: set<Chunk>, ghost c: Chunk)
      requires Blocks(blocks, chunkCount, owned, live) && HomeOf(c, blocks) && c.parent == b && c in owned
      requires || (c !in live && taken == live + {c} && n == b.useCount + 1)
               || (c in live && taken == live - {c} && n == b.useCount - 1)
      modifies blocks`useCount, blocks`used
      ensures Blocks(blocks, chunkCount, owned, taken) && b.useCount == n
    {
      assert IsBlock(b, owned, live);
      b.useCount := n;
      b.used := if c in taken then b.used + {c} else b.used - {c};
      forall d | d in blocks
        ensures IsBlock(d, owned, taken)
      {
        assert old(IsBlock(d, owned, live));
      }
      forall d | d in owned
        ensures HomeOf(d, blocks)
      {
        assert old(HomeOf(d, blocks));
      }
    }

    lemma HomeIsBlock(c: Chunk)
      requires Blocks(blocks, chunkCount, owned, live) && HomeOf(c, blocks)
      ensures IsBlock(c.parent, owned, live)
    {
    }

    method Recover(c: Chunk)
      requires Valid() && c in live && HomeOf(c, blocks)
      modifies this, owned, ever
      ensures Valid() && live == old(live) - {c} && ever == old(ever)
      ensures if old(c.parent.useCount) == 1 && old(chunkCount) > keep
              then blocks == old(blocks) - {old(c.parent)} && owned == old(owned) - Members(old(c.parent).chunk)
              else blocks == old(blocks) && owned == old(owned) && free == [c] + old(free)
      ensures listHead == old(listHead)
      ensures old(Intact(blocks)) ==>
                (Intact(blocks) <==>
                   !(old(c.parent.useCount) == 1 && old(chunkCount) > keep && old(c.parent == listHead)))
    {
      hide Valid, Lists, Blocks, Known, Intact, IsBlock;
      BlocksKnown();
      GiveBack(c);
      HomeIsBlock(c);
      if c.parent.useCount == 0 && chunkCount > keep {
        FreeChunkList(c.parent, {c});
      } else {
        LinkAgain(c);
      }
    }

    lemma BlocksKnown()
      requires Valid()
      ensures Known() && blocks <= ever
    {
    }

    method LinkAgain(c: Chunk)
      requires Lists(owned, {c}) && Blocks(blocks, chunkCount, owned, live) && Known() && c in owned && c !in live
      modifies this`head, this`free, owned`prev, owned`next
      ensures Valid() && free == [c] + old(free)
      ensures Intact(blocks) == old(Intact(blocks))
    {
      hide Lists, Blocks, Known, Intact;
      Link(c, {c});
      assert {c} - {c} == {};
      assert Blocks(blocks, chunkCount, owned, live) == old(Blocks(blocks, chunkCount, owned, live));
      assert Known() == old(Known()) && Intact(blocks) == old(Intact(blocks));
    }

    /** Releases a block: by then none of its chunks is in use or on the free list.
        The head of the list of blocks is left where it was, so that releasing the
        head block leaves the list without a valid head. */
    method FreeChunkList(b: ChunkList, ghost loose: set<Chunk>)
      requires Lists(owned, loose) && Blocks(blocks, chunkCount, owned, live) && Known()
      requires b in blocks && IsBlock(b, owned, live) && b.useCount == 0 && loose <= Members(b.chunk)
      modifies this`head, this`free, this`chain, this`owned, this`blocks, this`chunkCount
      modifies owned`prev, owned`next, ever`prev, ever`next
      ensures Valid()
      ensures blocks == old(blocks) - {b} && owned == old(owned) - Members(b.chunk)
      ensures forall c :: c in b.chunk ==> ChunkAt(c, {c})
      ensures old(Intact(blocks)) ==> (Intact(blocks) <==> b != old(listHead))
    {
      hide Lists, Blocks, Known, Intact, IsBlock, ChunkAt;
      DetachChunks(b, loose);
      WithoutBlock(b, Members(b.chunk));
      ReleaseBlock(b);
    }

    method DetachChunks(b: ChunkList, ghost loose: set<Chunk>)
      requires Lists(owned, loose) && IsBlock(b, owned, live) && b.useCount == 0 && loose <= Members(b.chunk)
      modifies this`head, this`free, owned`prev, owned`next
      ensures Lists(owned, Members(b.chunk))
    {
      ghost var gone := loose;
      var i := 0;
      while i < chunkSize
        invariant 0 <= i <= chunkSize && Lists(owned, gone) && IsBlock(b, owned, live)
        invariant gone == loose + Members(b.chunk[..i])
      {
        assert ChunkAt(b.chunk[i], gone);
        Unlink(b.chunk[i], gone);
        gone := gone + {b.chunk[i]};
        assert b.chunk[..i + 1] == b.chunk[..i] + [b.chunk[i]];
        i := i + 1;
      }
      assert b.chunk[..i] == b.chunk;
      assert gone == Members(b.chunk);
    }

    method ReleaseBlock(b: ChunkList)
      requires Lists(owned - Members(b.chunk), {}) && Known() && b in blocks
      requires Blocks(blocks - {b}, chunkCount - 1, owned - Members(b.chunk), live)
      modifies this`chain, this`owned, this`blocks, this`chunkCount, ever`prev, ever`next
      ensures Valid() && blocks == old(blocks) - {b} && owned == old(owned) - Members(b.chunk)
      ensures old(Intact(blocks)) ==> (Intact(blocks) <==> b != old(listHead))
    {
      UnlinkBlock(b);
      assert Lists(owned, {}) == old(Lists(owned - Members(b.chunk), {}));
      assert Blocks(blocks, chunkCount, owned, live)
          == old(Blocks(blocks - {b}, chunkCount - 1, owned - Members(b.chunk), live));
    }

    method UnlinkBlock(b: ChunkList)
      requires Known() && b in blocks
      modifies this`chain, this`owned, this`blocks, this`chunkCount, ever`prev, ever`next
      ensures Known() && blocks == old(blocks) - {b} && owned == old(owned) - Members(b.chunk)
      ensures chunkCount == old(chunkCount) - 1
      ensures old(Intact(blocks)) ==> (Intact(blocks) <==> b != old(listHead))
    {
      UnlinkPointers(b);
      chunkCount := chunkCount - 1;
      owned, blocks := owned - Members(b.chunk), blocks - {b};
    }

    method BypassBlock(b: ChunkList)
      requires b in ever && LeadsTo(b, ever)
      modifies ever`prev, ever`next
      ensures b.prev == b.next == null
      ensures forall d :: d in ever && d != b ==>
                && d.prev == (if d == old(b.next) then old(b.prev) else old(d.prev))
                && d.next == (if d == old(b.prev) then old(b.next) else old(d.next))
    {
      if b.prev != null {
        b.prev.next := b.next;
      }
      if b.next != null {
        b.next.prev := b.prev;
      }
      b.prev, b.next := null, null;
    }

    method UnlinkPointers(b: ChunkList)
      requires Known() && b in blocks
      modifies this`chain, ever`prev, ever`next
      ensures Known()
      ensures old(Intact(blocks)) && b != listHead ==> Intact(blocks - {b})
    {
      ghost var l := chain;
      ghost var k :| 0 <= k <= |l| && (if k < |l| then l[k] == b else b !in l);
      assert LeadsTo(b, ever);
      if Intact(blocks) {
        CutMembers(l, k, b);
        assert BlockAt(l, k);
        assert k > 0 ==> BlockAt(l, k - 1);
        assert k + 1 < |l| ==> BlockAt(l, k + 1);
      }
      BypassBlock(b);
      chain := Cut(l, k);
      forall d | d in ever
        ensures LeadsTo(d, ever)
      {
        assert old(LeadsTo(d, ever));
      }
      if old(Intact(blocks)) {
        forall i | 0 <= i < |chain|
          ensures BlockAt(chain, i)
        {
          assert old(BlockAt(l, if i < k then i else i + 1));
        }
      }
    }

    lemma WithoutBlock(b: ChunkList, gone: set<Chunk>)
      requires Lists(owned, gone) && Blocks(blocks, chunkCount, owned, live)
      requires b in blocks && b.useCount == 0 && gone == Members(b.chunk)
      ensures Lists(owned - gone, {}) && Blocks(blocks - {b}, chunkCount - 1, owned - gone, live)
      ensures forall c :: c in b.chunk ==> ChunkAt(c, {c})
    {
      assert IsBlock(b, owned, live);
      OneBlockLess(owned, b.chunk, chunkCount, chunkSize);
      forall c | c in owned
        ensures c in gone ==> ChunkAt(c, {c}) && c !in live
        ensures c !in gone ==> ChunkAt(c, {}) && HomeOf(c, blocks - {b})
      {
        assert ChunkAt(c, gone) && HomeOf(c, blocks);
      }
      forall d | d in blocks - {b}
        ensures IsBlock(d, owned - gone, live)
      {
        assert IsBlock(d, owned, live);
      }
    }
  }

  /** Two blocks of one chunk each, both handed out; one block is kept. */
  method TwoBlocks() returns (pool: Pool, second: Chunk)
    ensures fresh(pool) && fresh(pool.owned) && fresh(pool.ever) && pool.Valid() && pool.Intact(pool.blocks)
    ensures pool.keep == 1 && pool.chunkCount == 2 && |pool.live| == 2 && second in pool.live
    ensures pool.HomeOf(second, pool.blocks) && second.parent == pool.listHead && second.parent.useCount == 1
  {
    hide Pool.Valid, Pool.Intact;
    pool := new Pool(1, 1);
    pool.CountsAdd();
    var first := pool.Alloc();
    pool.CountsAdd();
    second := pool.Alloc();
    UsedUp(pool, second);
  }

  lemma UsedUp(pool: Pool, c: Chunk)
    requires pool.Valid() && pool.chunkSize == 1 && c in pool.live && pool.HomeOf(c, pool.blocks)
    ensures c.parent.useCount == 1
  {
    assert pool.IsBlock(c.parent, pool.owned, pool.live);
    assert c.parent.chunk == [c];
    assert c.parent.used == {c};
  }

  /** Handing out two chunks of such a pool and taking the second back releases the
      head block, and the list of blocks is left pointing at it. */
  method ReleasesHeadBlock() returns (pool: Pool)
    ensures pool.Valid() && |pool.live| == 1
    ensures pool.listHead != null && pool.listHead !in pool.blocks && !pool.Intact(pool.blocks)
  {
    var second;
    pool, second := TwoBlocks();
    pool.Recover(second);
  }
}
