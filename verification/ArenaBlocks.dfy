/** The arena's block list and cleanup list in memory, as one thread at a time runs their methods. */
module ArenaBlocks {
  import opened Options
  import opened ArenaModel
  import ArenaProof

  /** A block header. `first` is as in ArenaModel.Block. */
  class Cell {
    var size: nat
    var pos: nat
    var owner: Option<Thread>
    var next: Cell?
    ghost var first: nat

    ghost function Value(): Block
      reads this
    {
      Block(size, pos, owner, first)
    }

    constructor (b: Block)
      ensures Value() == b && next == null
    {
      size, pos, owner, first, next := b.size, b.pos, b.owner, b.first, null;
    }
  }

  /** A node of the cleanup list, at position `at.1` of block `at.0`. */
  class Node {
    const at: (Cell, nat)
    const elem: nat
    var next: Node?

    constructor (at: (Cell, nat), elem: nat, next: Node?)
      ensures this.at == at && this.elem == elem && this.next == next
    {
      this.at, this.elem, this.next := at, elem, next;
    }
  }

  class ThreadCache {
    const me: Thread
    var seen: int
    var last: Cell?

    constructor (me: Thread)
      ensures this.me == me && seen == -1 && last == null
    {
      this.me, seen, last := me, -1, null;
    }
  }

  ghost function CellAt(s: seq<Cell>, i: nat): Cell? { if i < |s| then s[i] else null }

  function Maybe(c: Cell?): Option<Cell> { if c == null then None else Some(c) }

  /** What a search says of block `o`, if there is one. */
  ghost function Confirmed<X>(chain: seq<X>, body: map<X, Block>, me: Thread, o: Option<X>): Option<X>
    requires forall x :: x in chain ==> x in body
  {
    if o.None? then None else FindBlock(chain, body, me)
  }

  ghost function Usable<X>(body: map<X, Block>, me: Thread, hint: Option<X>): Option<X> {
    if hint.Some? && hint.value in body && body[hint.value].owner == Some(me) then hint else None
  }

  ghost predicate Consistent<X>(chain: seq<X>, body: map<X, Block>, me: Thread, cached: Option<X>, hint: Option<X>)
    requires forall x :: x in chain ==> x in body
  {
    && Confirmed(chain, body, me, cached) == cached
    && Confirmed(chain, body, me, Usable(body, me, hint)) == Usable(body, me, hint)
  }

  lemma BumpConsistent<X>(chain: seq<X>, body: map<X, Block>, me: Thread, n: nat, b: X, p: nat,
                          cached: Option<X>, hint: Option<X>)
    requires ChainOk(chain, body) && n % 8 == 0 && FindBlock(chain, body, me) == Some(b) && body[b].Avail() >= n
    requires p == body[b].pos && Consistent(chain, body, me, cached, hint)
    ensures var body' := Moved(body, b, p + n); ChainOk(chain, body') && Consistent(chain, body', me, cached, hint)
  {
    ArenaProof.ChainBumped(chain, body, b, n);
    FindBlockSame(chain, body, Moved(body, b, p + n), me);
  }

  lemma PushConsistent<X>(chain: seq<X>, body: map<X, Block>, me: Thread, x: X, b: Block, cached: Option<X>, hint: Option<X>)
    requires ChainOk(chain, body) && x !in body && b.Ok() && Consistent(chain, body, me, cached, hint)
    requires b.owner == (if b.Avail() == 0 then None else Some(me)) && (hint.Some? ==> hint.value in body)
    ensures ChainOk([x] + chain, body[x := b])
    ensures if b.Avail() == 0 then Consistent([x] + chain, body[x := b], me, cached, hint)
            else Consistent([x] + chain, body[x := b], me, Some(x), Some(x))
  {
    ArenaProof.ChainLinked(chain, body, x, b);
    ArenaProof.LinkFind(chain, body, x, b, me);
  }

  /** `cleanup_list_`: its nodes, the memory they are in and their objects, newest first. */
  class CleanupList {
    var head: Node?
    ghost var nodes: seq<Node>
    ghost var places: seq<(Cell, nat)>
    ghost var elems: seq<nat>

    ghost predicate Valid()
      reads this, nodes
    {
      && head == (if nodes == [] then null else nodes[0])
      && |elems| == |places| == |nodes|
      && (forall i :: 0 <= i < |nodes| ==> nodes[i].elem == elems[i] && nodes[i].at == places[i])
      && (nodes != [] ==> nodes[|nodes| - 1].next == null)
      && forall i, j :: 0 <= i < j < |nodes| && j == i + 1 ==> nodes[i].next == nodes[j]
    }

    constructor ()
      ensures Valid() && elems == [] && places == []
    {
      head, nodes, places, elems := null, [], [], [];
    }

    /** Every node lies in one of these blocks. */
    ghost predicate LiesIn(live: seq<Cell>)
      reads this
    {
      forall i :: 0 <= i < |places| ==> places[i].0 in live
    }

    /** The end of AddListNode, with no other call in between. */
    method Push(at: (Cell, nat), elem: nat, ghost live: seq<Cell>)
      requires Valid() && LiesIn(live) && at.0 in live
      modifies this
      ensures Valid() && LiesIn(live) && elems == [elem] + old(elems) && places == [at] + old(places)
    {
      head := new Node(at, elem, head);
      nodes, places, elems := [head] + nodes, [at] + places, [elem] + elems;
    }

    /** Cleans up every registered object, the last one first, and forgets the list. The nodes it visits
        must be in blocks that are still `live`. */
    method Run(ghost live: seq<Cell>) returns (ran: seq<nat>)
      requires Valid() && LiesIn(live)
      modifies this
      ensures Valid() && elems == [] && places == [] && ran == old(elems)
    {
      ran := [];
      var n := head;
      while n != null
        invariant |ran| <= |nodes| && n == (if |ran| < |nodes| then nodes[|ran|] else null)
        invariant ran == elems[..|ran|]
        decreases |nodes| - |ran|
      {
        assert n.at == places[|ran|] && n.at.0 in live;
        ran := ran + [n.elem];
        n := n.next;
      }
      head, nodes, places, elems := null, [], [], [];
    }
  }

  /** The caller's own block and its size, if the arena does not own its first block. */
  ghost function UserOf(chain: seq<Cell>, body: map<Cell, Block>, ownsFirst: bool): Option<(Cell, nat)>
    requires !ownsFirst ==> chain != [] && chain[|chain| - 1] in body
  {
    if ownsFirst then None else Some((chain[|chain| - 1], body[chain[|chain| - 1]].size))
  }

  /** What GiveBack has added up before block `i` carries over to the next. */
  lemma RestFreed(chain: seq<Cell>, body: map<Cell, Block>, ownsFirst: bool, i: nat, total: int, freed: seq<(Cell, nat)>)
    requires i < |chain| && forall x :: x in chain ==> x in body
    ensures var size := body[chain[i]].size;
      && total + SumSizes(chain[i..], body) == total + size + SumSizes(chain[i + 1..], body)
      && freed + Freed(chain[i..], body, ownsFirst) ==
           (if i + 1 == |chain| && !ownsFirst then freed else freed + [(chain[i], size)])
           + Freed(chain[i + 1..], body, ownsFirst)
  {
    assert chain[i..][1..] == chain[i + 1..];
    var rest := Freed(chain[i + 1..], body, ownsFirst);
    var one := [(chain[i], body[chain[i]].size)];
    assert freed + (one + rest) == (freed + one) + rest;
  }

  class Arena {
    const start: nat
    const max: nat
    var lifecycle: int
    var blocks: Cell?
    var hint: Cell?
    var ownsFirst: bool
    const list: CleanupList
    ghost var chain: seq<Cell>
    ghost var body: map<Cell, Block>

    ghost predicate Linked()
      reads this, chain
    {
      && blocks == CellAt(chain, 0)
      && (chain != [] ==> chain[|chain| - 1].next == null)
      && forall i, j :: 0 <= i < j < |chain| && j == i + 1 ==> chain[i].next == chain[j]
    }

    /** `body` records what the headers of the blocks hold. */
    ghost predicate Mirrors()
      reads this, chain
    {
      forall x :: x in chain ==> x in body && x.Value() == body[x]
    }

    ghost predicate Sound()
      reads this, chain
    {
      && Linked() && Mirrors() && ChainOk(chain, body)
      && HEADER <= start && HEADER <= max && (hint != null ==> hint in chain)
    }

    ghost predicate Valid()
      reads this, chain
    {
      Sound() && (!ownsFirst ==> chain != [])
    }

    ghost function CachedBy(c: ThreadCache): Option<Cell>
      reads this, c
    {
      if c.seen == lifecycle then Maybe(c.last) else None
    }

    /** The cache of thread `c.me` and `hint`, where they may be used, name what a search finds. */
    ghost predicate Agrees(c: ThreadCache)
      requires Mirrors()
      reads this, chain, c
    {
      Consistent(chain, body, c.me, CachedBy(c), Maybe(hint))
    }

    method FindOwned(me: Thread) returns (b: Cell?)
      requires Valid()
      ensures Maybe(b) == FindBlock(chain, body, me)
    {
      b := blocks;
      ghost var i := 0;
      assert chain[0..] == chain;
      while b != null && b.owner != Some(me)
        invariant 0 <= i <= |chain| && b == CellAt(chain, i)
        invariant FindBlock(chain[i..], body, me) == FindBlock(chain, body, me)
        decreases |chain| - i
      {
        assert chain[i..][1..] == chain[i + 1..];
        i, b := i + 1, b.next;
      }
    }

    method SpaceAllocated() returns (total: int)
      requires Valid()
      ensures total == SumSizes(chain, body)
    {
      total := 0;
      var b := blocks;
      ghost var i := 0;
      assert chain[0..] == chain;
      while b != null
        invariant 0 <= i <= |chain| && b == CellAt(chain, i)
        invariant total + SumSizes(chain[i..], body) == SumSizes(chain, body)
        decreases |chain| - i
      {
        assert chain[i..][1..] == chain[i + 1..];
        total := total + b.size;
        i, b := i + 1, b.next;
      }
    }

    method SpaceUsed() returns (total: int)
      requires Valid()
      ensures total == SumUsed(chain, body)
    {
      total := 0;
      var b := blocks;
      ghost var i := 0;
      assert chain[0..] == chain;
      while b != null
        invariant 0 <= i <= |chain| && b == CellAt(chain, i)
        invariant total + SumUsed(chain[i..], body) == SumUsed(chain, body)
        decreases |chain| - i
      {
        assert chain[i..][1..] == chain[i + 1..];
        total := total + (b.pos - HEADER);
        i, b := i + 1, b.next;
      }
    }

    /** Puts `b` in front of the list. */
    method PushBlock(b: Cell)
      requires Linked() && Mirrors() && b !in chain
      modifies this`blocks, this`chain, this`body, b`next
      ensures Linked() && Mirrors()
      ensures chain == [b] + old(chain) && body == old(body)[b := old(b.Value())]
    {
      b.next := blocks;
      blocks := b;
      chain, body := [b] + chain, body[b := b.Value()];
    }

    /** Puts `b` in front of the list, and in `hint` if it has room. */
    method AddBlockInternal(b: Cell)
      requires Sound() && b !in chain && b.Value().Ok() && (b.owner == None ==> b.Value().Avail() == 0)
      modifies this`blocks, this`chain, this`body, this`hint, b`next
      ensures Valid() && chain == [b] + old(chain) && body == old(body)[b := old(b.Value())]
      ensures hint == if b.pos != b.size then b else old(hint)
    {
      ArenaProof.ChainLinked(chain, body, b, b.Value());
      PushBlock(b);
      if b.size - b.pos != 0 { hint := b; }
    }

    // ---------------------------------------------------------------- allocation

    /** The size policy; `block_alloc` gives memory that no one else has. */
    method MakeBlock(me: Thread, last: Cell?, n: nat) returns (b: Cell)
      requires HEADER <= start && HEADER <= max && n % 8 == 0
      requires last != null ==> HEADER <= last.size
      ensures fresh(b)
      ensures b.Value() == NewBlock(me, if last == null then None else Some(last.Value()), n, start, max)
      ensures var want: nat := if last == null then start else if 2 * last.size > max then max else 2 * last.size;
        b.size == if n <= want - HEADER then want else HEADER + n
    {
      var size;
      if last != null {
        size := 2 * last.size;
        if size > max { size := max; }
      } else {
        size := start;
      }
      if n > size - HEADER { size := HEADER + n; }
      var pos := HEADER + n;
      b := new Cell(Block(size, pos, if size - pos == 0 then None else Some(me), n));
    }

    method AllocFromBlock(b: Cell, n: nat) returns (p: nat)
      requires Linked() && Mirrors() && b in chain
      modifies b`pos, this`body
      ensures Linked() && Mirrors() && p == old(b.pos) && body == Moved(old(body), b, p + n)
    {
      p := b.pos;
      b.pos := p + n;
      body := Moved(body, b, p + n);
    }

    /** Allocation from the thread's own block `b`, which the search would have found. */
    method Serve(cache: ThreadCache, b: Cell, n: nat) returns (p: nat)
      requires Valid() && Agrees(cache) && n % 8 == 0
      requires FindBlock(chain, body, cache.me) == Some(b) && body[b].Avail() >= n
      modifies b`pos, this`body
      ensures Valid() && Agrees(cache)
      ensures (chain, body, b, p) == Outcome(old(chain), old(body), cache.me, n, start, max, b)
    {
      ghost var was, cached, hinted := body, CachedBy(cache), Maybe(hint);
      p := AllocFromBlock(b, n);
      assert CachedBy(cache) == cached && Maybe(hint) == hinted;
      BumpConsistent(chain, was, cache.me, n, b, p, cached, hinted);
      OutcomeFits(chain, was, cache.me, n, start, max, b, p);
    }

    /** The same, after a search that has found it: cache and hint name it from now on. */
    method ServeFound(cache: ThreadCache, b: Cell, n: nat) returns (p: nat)
      requires Valid() && n % 8 == 0
      requires FindBlock(chain, body, cache.me) == Some(b) && body[b].Avail() >= n
      modifies this`hint, this`body, cache, b`pos
      ensures Valid() && Agrees(cache) && hint == b && cache.last == b && cache.seen == lifecycle
      ensures (chain, body, b, p) == Outcome(old(chain), old(body), cache.me, n, start, max, b)
    {
      cache.last, cache.seen := b, lifecycle;
      hint := b;
      p := Serve(cache, b, n);
    }

    /** SetThreadCacheBlock, if the block can be reused. */
    method Adopt(cache: ThreadCache, b: Cell)
      modifies cache
      ensures cache.last == if b.owner == Some(cache.me) then b else old(cache.last)
      ensures cache.seen == if b.owner == Some(cache.me) then lifecycle else old(cache.seen)
    {
      if b.owner == Some(cache.me) {
        cache.last, cache.seen := b, lifecycle;
      }
    }

    method AddBlock(cache: ThreadCache, b: Cell, n: nat)
      requires Valid() && Agrees(cache) && n % 8 == 0 && b !in chain
      requires var f := FindBlock(chain, body, cache.me);
        && b.Value() == NewBlock(cache.me, if f.Some? then Some(body[f.value]) else None, n, start, max)
        && !(f.Some? && body[f.value].Avail() >= n)
      modifies this`blocks, this`chain, this`body, this`hint, cache, b`next
      ensures Valid() && Agrees(cache)
      ensures if b.pos == b.size then hint == old(hint) && cache.last == old(cache.last) && cache.seen == old(cache.seen)
              else hint == b && cache.last == b && cache.seen == lifecycle
      ensures (chain, body, b, HEADER) == Outcome(old(chain), old(body), cache.me, n, start, max, b)
    {
      PushConsistent(chain, body, cache.me, b, b.Value(),
        CachedBy(cache), Maybe(hint));
      AddBlockInternal(b);
      Adopt(cache, b);
    }

    method SlowAlloc(cache: ThreadCache, n: nat) returns (b: Cell, p: nat)
      requires Valid() && Agrees(cache) && n % 8 == 0
      modifies this`blocks, this`chain, this`body, this`hint, cache, chain
      ensures Valid() && Agrees(cache)
      ensures b in old(chain) || b.pos < b.size ==> hint == b && cache.last == b && cache.seen == lifecycle
      ensures (chain, body, b, p) == Outcome(old(chain), old(body), cache.me, n, start, max, b)
    {
      var found := FindOwned(cache.me);
      if found != null && found.size - found.pos >= n {
        b := found;
        p := ServeFound(cache, b, n);
        return;
      }
      b := MakeBlock(cache.me, found, n);
      AddBlock(cache, b, n);
      p := HEADER;
    }

    /** Whatever the cache and `hint_` hold, the outcome is that of the search. */
    method AllocateAligned(cache: ThreadCache, asked: nat) returns (b: Cell, p: nat)
      requires Valid() && Agrees(cache)
      modifies this`blocks, this`chain, this`body, this`hint, cache, chain
      ensures Valid() && Agrees(cache)
      ensures (chain, body, b, p) == Outcome(old(chain), old(body), cache.me, Round8(asked), start, max, b)
    {
      var n := Round8(asked);
      if cache.seen == lifecycle && cache.last != null {
        if cache.last.size - cache.last.pos < n {
          b, p := SlowAlloc(cache, n);
          return;
        }
        b := cache.last;
        p := Serve(cache, b, n);
        return;
      }
      if hint == null || hint.owner != Some(cache.me) || hint.size - hint.pos < n {
        b, p := SlowAlloc(cache, n);
        return;
      }
      b := hint;
      p := Serve(cache, b, n);
    }

    // ---------------------------------------------------------------- Init and Reset

    /** The block list is that of the state `s`. */
    ghost predicate Is(s: ArenaModel.Arena<Cell>)
      reads this
    {
      && chain == s.chain && body == s.body && Maybe(hint) == s.hint
      && lifecycle == s.lifecycle && ownsFirst == s.user.None?
    }

    /** Makes the caller's block the only one, owned by the thread. */
    method Recycle(cache: ThreadCache, first: Cell)
      requires Sound() && chain == [] && HEADER <= first.size
      modifies this`blocks, this`chain, this`body, this`hint, cache, first
      ensures Valid() && chain == [first] && body == map[first := Block(old(first.size), HEADER, Some(cache.me), 0)]
      ensures hint == (if old(first.size) == HEADER then null else first)
      ensures cache.last == first && cache.seen == lifecycle
    {
      first.pos, first.owner, first.first := HEADER, Some(cache.me), 0;
      cache.last, cache.seen := first, lifecycle;
      AddBlockInternal(first);
    }

    /** Gives every block that the arena allocated back to the allocator, with its size; `first` is the
        caller's, which it keeps. */
    method GiveBack() returns (total: int, freed: seq<(Cell, nat)>, first: Cell?)
      requires Linked() && Mirrors() && (!ownsFirst ==> chain != [])
      ensures total == SumSizes(chain, body) && freed == Freed(chain, body, ownsFirst)
      ensures first == if ownsFirst then null else chain[|chain| - 1]
    {
      total, freed, first := 0, [], null;
      var b := blocks;
      ghost var i := 0;
      assert chain[0..] == chain;
      while b != null
        invariant 0 <= i <= |chain| && b == CellAt(chain, i)
        invariant total + SumSizes(chain[i..], body) == SumSizes(chain, body)
        invariant freed + Freed(chain[i..], body, ownsFirst) == Freed(chain, body, ownsFirst)
        invariant first == if i == |chain| && !ownsFirst then chain[i - 1] else null
        decreases |chain| - i
      {
        RestFreed(chain, body, ownsFirst, i, total, freed);
        total := total + b.size;
        var next := b.next;
        if next != null || ownsFirst {
          freed := freed + [(b, b.size)];
        } else {
          first := b;
        }
        i, b := i + 1, next;
      }
    }

    /** Empties the list, and makes the caller's block `first`, if there is one, available again. */
    method StartAgain(cache: ThreadCache, first: Cell?)
      requires HEADER <= start && HEADER <= max && (first == null <==> ownsFirst)
      requires first != null ==> HEADER <= first.size
      modifies this`blocks, this`chain, this`body, this`hint, cache, if first == null then {} else {first}
      ensures Valid() && (old(cache.seen) != lifecycle ==> Agrees(cache))
      ensures Is(Started(lifecycle, start, max, if first == null then None else Some((first, old(first.size))), cache.me))
      ensures first == null ==> cache.last == old(cache.last) && cache.seen == old(cache.seen)
      ensures first != null ==> cache.last == first && cache.seen == lifecycle
    {
      blocks, hint, chain, body := null, null, [], map[];
      if first != null { Recycle(cache, first); }
    }

    method FreeBlocks(cache: ThreadCache) returns (total: int, freed: seq<(Cell, nat)>)
      requires Valid()
      modifies this`blocks, this`chain, this`body, this`hint, cache, chain
      ensures Valid() && Is(Started(lifecycle, start, max, UserOf(old(chain), old(body), ownsFirst), cache.me))
      ensures total == SumSizes(old(chain), old(body)) && freed == Freed(old(chain), old(body), ownsFirst)
      ensures if ownsFirst then cache.last == old(cache.last) && cache.seen == old(cache.seen)
              else Maybe(cache.last) == Some(old(chain[|chain| - 1])) && cache.seen == lifecycle
      ensures old(cache.seen) != lifecycle ==> Agrees(cache)
    {
      var first;
      total, freed, first := GiveBack();
      assert first != null ==> first in chain && body[first].Ok();
      StartAgain(cache, first);
    }

    /** Registered objects are cleaned up first, while their nodes are there; then blocks are given back. */
    method Reset(cache: ThreadCache, id: int) returns (total: int, ran: seq<nat>, freed: seq<(Cell, nat)>)
      requires Valid() && list.Valid() && list.LiesIn(chain) && cache.seen < id
      modifies this`lifecycle, this`blocks, this`chain, this`body, this`hint, cache, chain, list
      ensures Valid() && list.Valid() && Agrees(cache)
      ensures Is(Started(id, start, max, UserOf(old(chain), old(body), ownsFirst), cache.me))
      ensures ran == old(list.elems) && list.elems == [] && list.LiesIn(chain)
      ensures total == SumSizes(old(chain), old(body)) && freed == Freed(old(chain), old(body), ownsFirst)
    {
      lifecycle := id;
      ran := list.Run(chain);
      total, freed := FreeBlocks(cache);
    }

    /** Init, with the caller's block or none. */
    constructor (cache: ThreadCache, start: nat, max: nat, id: int, user: Cell?)
      requires HEADER <= start && HEADER <= max && cache.seen < id
      requires user != null ==> HEADER <= user.size
      modifies cache, if user == null then {} else {user}
      ensures Valid() && Agrees(cache) && fresh(list) && list.Valid() && list.elems == [] && list.LiesIn(chain)
      ensures Is(Started(id, start, max, if user == null then None else Some((user, old(user.size))), cache.me))
    {
      this.start, this.max, lifecycle := start, max, id;
      blocks, hint, ownsFirst := null, null, true;
      chain, body := [], map[];
      list := new CleanupList();
      new;
      if user != null {
        Recycle(cache, user);
        ownsFirst := false;
      }
    }

    /** AllocateAligned for a node of the list. */
    method AllocateNode(cache: ThreadCache) returns (b: Cell, p: nat)
      requires Valid() && Agrees(cache) && list.LiesIn(chain)
      modifies this`blocks, this`chain, this`body, this`hint, cache, chain
      ensures Valid() && Agrees(cache) && list.LiesIn(chain) && b in chain
      ensures (chain, body, b, p) == Outcome(old(chain), old(body), cache.me, Round8(NODE), start, max, b)
    {
      ghost var was, seen := chain, body;
      b, p := AllocateAligned(cache, NODE);
      OutcomeHolds(was, seen, cache.me, Round8(NODE), start, max, b, chain);
    }

    /** Puts the object in front of the list, with the node just allocated. */
    method Register(ghost cache: ThreadCache, b: Cell, p: nat, elem: nat)
      requires Valid() && Agrees(cache) && list.Valid() && list.LiesIn(chain) && b in chain
      modifies list
      ensures Valid() && Agrees(cache) && list.Valid() && list.LiesIn(chain)
      ensures list.elems == [elem] + old(list.elems) && list.places == [(b, p)] + old(list.places)
    {
      ghost var cached, hinted := CachedBy(cache), Maybe(hint);
      list.Push((b, p), elem, chain);
      assert CachedBy(cache) == cached && Maybe(hint) == hinted;
    }

    /** The new object goes in front of those registered before, its node in the memory just taken. */
    method AddListNode(cache: ThreadCache, elem: nat) returns (b: Cell, p: nat)
      requires Valid() && Agrees(cache) && list.Valid() && list.LiesIn(chain)
      modifies this`blocks, this`chain, this`body, this`hint, cache, chain, list
      ensures Valid() && Agrees(cache) && list.Valid() && list.LiesIn(chain)
      ensures list.elems == [elem] + old(list.elems) && list.places == [(b, p)] + old(list.places)
      ensures (chain, body, b, p) == Outcome(old(chain), old(body), cache.me, Round8(NODE), start, max, b)
    {
      b, p := AllocateNode(cache);
      Register(cache, b, p, elem);
    }
  }
}
