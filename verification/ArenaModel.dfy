/** One arena on values: its block list, its cleanup list, and what it has handed out.

    `X` stands for the addresses of blocks. Fields marked (history) are not stored by the code; they
    record what has happened since the last Reset. */
module ArenaModel {
  import opened Options

  type Thread = nat

  /** sizeof(Block): four words of eight bytes. */
  const HEADER: nat := 32
  /** sizeof(Node): three words of eight bytes. */
  const NODE: nat := 24

  /** `n` is `asked` rounded up to a multiple of 8. */
  predicate Rounded(n: nat, asked: nat) { n % 8 == 0 && asked <= n < asked + 8 }

  function Round8(asked: nat): (n: nat)
    ensures Rounded(n, asked)
  {
    (asked + 7) / 8 * 8
  }

  /** `first` (history) is the size of the request the block was made for. */
  datatype Block = Block(size: nat, pos: nat, owner: Option<Thread>, first: nat) {
    predicate Ok() { HEADER <= pos <= size && pos % 8 == 0 && HEADER + first <= pos }
    function Avail(): int { size - pos }
    function Capacity(): int { size - HEADER }
    function Used(): int { pos - HEADER }
  }

  /** Memory handed out: `len` bytes at offset `lo` of a block, for a request of `asked` bytes. */
  datatype Region<X> = Region(block: X, lo: nat, len: nat, asked: nat)

  datatype Addr<X> = Addr(block: X, lo: nat)

  datatype Link<X> = Link(elem: nat, next: Option<Addr<X>>)

  /** The cleanup list. `pushed` (history): the nodes in the order of their exchanges; `elems`
      (history): the objects registered with them; `pending`
      (history): those whose `next` is still to be stored, and by whom; `loose` (history): nodes
      allocated but not yet exchanged, and by whom. */
  datatype Cleanup<X(==)> = Cleanup(
    head: Option<Addr<X>>, links: map<Addr<X>, Link<X>>,
    pushed: seq<Addr<X>>, elems: seq<nat>, pending: map<Addr<X>, Thread>, loose: map<Addr<X>, Thread>)

  /** `chain` is the block list from `blocks_`; `user` is the caller's own first block, if there is one
      (the code stores `owns_first_block_`, whether there is none); `regions` is (history). */
  datatype Arena<X(==)> = Arena(
    lifecycle: int, start: nat, max: nat, user: Option<X>,
    chain: seq<X>, body: map<X, Block>, hint: Option<X>,
    regions: seq<Region<X>>, cleanup: Cleanup<X>)

  // ------------------------------------------------------------------ searching the block list

  /** FindBlock: the first block of the list that `me` owns. */
  function FindBlock<X(==)>(chain: seq<X>, body: map<X, Block>, me: Thread): (r: Option<X>)
    requires forall x :: x in chain ==> x in body
    ensures r.Some? ==> r.value in chain && body[r.value].owner == Some(me)
    ensures r.None? ==> forall x :: x in chain ==> body[x].owner != Some(me)
  {
    if chain == [] then None
    else if body[chain[0]].owner == Some(me) then Some(chain[0])
    else FindBlock(chain[1..], body, me)
  }

  function Find<X(==)>(a: Arena<X>, me: Thread): Option<X>
    requires ListOk(a)
  {
    FindBlock(a.chain, a.body, me)
  }

  /** The search looks at owners only. */
  lemma {:induction false} FindBlockSame<X>(chain: seq<X>, body: map<X, Block>, body': map<X, Block>, me: Thread)
    requires forall x :: x in chain ==> x in body && x in body'
    requires forall x :: x in chain ==> (body[x].owner == Some(me) <==> body'[x].owner == Some(me))
    ensures FindBlock(chain, body, me) == FindBlock(chain, body', me)
  {
    if chain == [] {
    } else {
      FindBlockSame(chain[1..], body, body', me);
    }
  }

  // ------------------------------------------------------------------ what holds of one arena

  ghost predicate NoDuplicates<T>(s: seq<T>) {
    forall i, j :: 0 <= i < j < |s| ==> s[i] != s[j]
  }

  ghost predicate ChainOk<X>(chain: seq<X>, body: map<X, Block>) {
    && (forall x :: x in chain ==> x in body)
    && (forall x :: x in body ==> x in chain)
    && NoDuplicates(chain)
    && (forall x :: x in body ==> body[x].Ok())
    && (forall x :: x in body && body[x].owner == None ==> body[x].Avail() == 0)
  }

  ghost predicate ListOk<X>(a: Arena<X>) {
    && ChainOk(a.chain, a.body)
    && (a.hint.Some? ==> a.hint.value in a.body)
    && HEADER <= a.start && HEADER <= a.max
    && (a.user.Some? ==> a.chain != [] && a.chain[|a.chain| - 1] == a.user.value)
  }

  ghost predicate Inside<X>(body: map<X, Block>, r: Region<X>) {
    && r.block in body && HEADER <= r.lo && r.lo % 8 == 0
    && r.lo + r.len <= body[r.block].pos && Rounded(r.len, r.asked)
  }

  /** Regions lie inside block bodies and, in the order they were handed out, one after another. */
  ghost predicate RegionsOk<X>(rs: seq<Region<X>>, body: map<X, Block>) {
    && (forall i :: 0 <= i < |rs| ==> Inside(body, rs[i]))
    && (forall i, j :: 0 <= i < j < |rs| && rs[i].block == rs[j].block ==> rs[i].lo + rs[i].len <= rs[j].lo)
  }

  function SumUsed<X(==)>(chain: seq<X>, body: map<X, Block>): int
    requires forall x :: x in chain ==> x in body
  {
    if chain == [] then 0 else body[chain[0]].Used() + SumUsed(chain[1..], body)
  }

  function SumSizes<X(==)>(chain: seq<X>, body: map<X, Block>): int
    requires forall x :: x in chain ==> x in body
  {
    if chain == [] then 0 else body[chain[0]].size + SumSizes(chain[1..], body)
  }

  function SumRegions<X(==)>(rs: seq<Region<X>>): nat {
    if rs == [] then 0 else SumRegions(rs[..|rs| - 1]) + rs[|rs| - 1].len
  }

  function SpaceUsed<X(==)>(a: Arena<X>): int
    requires ListOk(a)
  {
    SumUsed(a.chain, a.body)
  }

  function SpaceAllocated<X(==)>(a: Arena<X>): int
    requires ListOk(a)
  {
    SumSizes(a.chain, a.body)
  }

  // ------------------------------------------------------------------ the space bound

  /** Payload capacity of all blocks, leaving out the newest block of every owner not in `seen`. */
  function Superseded<X(==)>(chain: seq<X>, body: map<X, Block>, seen: set<Thread>): int
    requires forall x :: x in chain ==> x in body
  {
    if chain == [] then 0
    else
      var b := body[chain[0]];
      if b.owner.Some? && b.owner.value !in seen
      then Superseded(chain[1..], body, seen + {b.owner.value})
      else b.Capacity() + Superseded(chain[1..], body, seen)
  }

  function SumFirst<X(==)>(chain: seq<X>, body: map<X, Block>): int
    requires forall x :: x in chain ==> x in body
  {
    if chain == [] then 0
    else (if body[chain[0]].owner.Some? then body[chain[0]].first else 0) + SumFirst(chain[1..], body)
  }

  /** Every block has no owner and is full, or superseded its owner's newest block, if there was one,
      for a request that did not fit there. */
  ghost predicate Tight<X>(chain: seq<X>, body: map<X, Block>)
    requires forall x :: x in chain ==> x in body
  {
    chain != [] ==> Tight(chain[1..], body) && Supersedes(chain[1..], body, body[chain[0]])
  }

  ghost predicate Supersedes<X>(older: seq<X>, body: map<X, Block>, b: Block)
    requires forall x :: x in older ==> x in body
  {
    match b.owner
    case None => b.Capacity() <= b.Used()
    case Some(t) =>
      match FindBlock(older, body, t)
      case None => true
      case Some(x) => body[x].Capacity() <= body[x].Used() + b.first
  }

  lemma {:induction false} SeenMore<X>(chain: seq<X>, body: map<X, Block>, seen: set<Thread>, t: Thread)
    requires forall x :: x in chain ==> x in body
    ensures Superseded(chain, body, seen + {t}) == Superseded(chain, body, seen) +
            (if t !in seen && FindBlock(chain, body, t).Some? then body[FindBlock(chain, body, t).value].Capacity() else 0)
  {
    if t in seen {
      assert seen + {t} == seen;
    } else if chain == [] {
    } else {
      var b := body[chain[0]];
      if b.owner.Some? && b.owner.value !in seen {
        var u := b.owner.value;
        if u == t {
          assert (seen + {t}) == seen + {u};
        } else {
          SeenMore(chain[1..], body, seen + {u}, t);
          assert seen + {t} + {u} == seen + {u} + {t};
        }
      } else {
        SeenMore(chain[1..], body, seen, t);
      }
    }
  }

  ghost function SumUsedButNewest<X>(chain: seq<X>, body: map<X, Block>, seen: set<Thread>): int
    requires forall x :: x in chain ==> x in body
  {
    if chain == [] then 0
    else
      var b := body[chain[0]];
      if b.owner.Some? && b.owner.value !in seen
      then SumUsedButNewest(chain[1..], body, seen + {b.owner.value})
      else b.Used() + SumUsedButNewest(chain[1..], body, seen)
  }

  lemma {:induction false} SeenMoreUsed<X>(chain: seq<X>, body: map<X, Block>, seen: set<Thread>, t: Thread)
    requires forall x :: x in chain ==> x in body
    ensures SumUsedButNewest(chain, body, seen + {t}) == SumUsedButNewest(chain, body, seen) +
            (if t !in seen && FindBlock(chain, body, t).Some? then body[FindBlock(chain, body, t).value].Used() else 0)
  {
    if t in seen {
      assert seen + {t} == seen;
    } else if chain == [] {
    } else {
      var b := body[chain[0]];
      if b.owner.Some? && b.owner.value !in seen {
        var u := b.owner.value;
        if u == t {
          assert (seen + {t}) == seen + {u};
        } else {
          SeenMoreUsed(chain[1..], body, seen + {u}, t);
          assert seen + {t} + {u} == seen + {u} + {t};
        }
      } else {
        SeenMoreUsed(chain[1..], body, seen, t);
      }
    }
  }

  lemma {:induction false} SupersededBound<X>(chain: seq<X>, body: map<X, Block>)
    requires forall x :: x in chain ==> x in body
    requires Tight(chain, body)
    ensures Superseded(chain, body, {}) <= SumUsedButNewest(chain, body, {}) + SumFirst(chain, body)
  {
    if chain == [] {
    } else {
      SupersededBound(chain[1..], body);
      var b := body[chain[0]];
      if b.owner.Some? {
        SeenMore(chain[1..], body, {}, b.owner.value);
        SeenMoreUsed(chain[1..], body, {}, b.owner.value);
      }
    }
  }

  lemma {:induction false} PartsOfUsed<X>(chain: seq<X>, body: map<X, Block>, seen: set<Thread>)
    requires forall x :: x in chain ==> x in body && body[x].Ok()
    ensures SumUsedButNewest(chain, body, seen) <= SumUsed(chain, body)
    ensures SumFirst(chain, body) <= SumUsed(chain, body)
  {
    if chain == [] {
    } else {
      var b := body[chain[0]];
      PartsOfUsed(chain[1..], body, seen);
      if b.owner.Some? { PartsOfUsed(chain[1..], body, seen + {b.owner.value}); }
    }
  }

  /** Leaving out each thread's newest block, at most half of the capacity is waste. */
  lemma SpaceBound<X>(a: Arena<X>)
    requires ListOk(a) && Tight(a.chain, a.body)
    ensures Superseded(a.chain, a.body, {}) <= 2 * SpaceUsed(a)
  {
    SupersededBound(a.chain, a.body);
    PartsOfUsed(a.chain, a.body, {});
  }

  // ------------------------------------------------------------------ the cleanup list

  function Newest<X>(pushed: seq<Addr<X>>): Option<Addr<X>> {
    if pushed == [] then None else Some(pushed[|pushed| - 1])
  }

  function Previous<X>(pushed: seq<Addr<X>>, i: nat): Option<Addr<X>>
    requires i < |pushed|
  {
    if i == 0 then None else Some(pushed[i - 1])
  }

  /** `p` is the start of memory that was handed out for a node. */
  ghost predicate IsNode<X>(rs: seq<Region<X>>, p: Addr<X>) {
    exists k :: 0 <= k < |rs| && rs[k].block == p.block && rs[k].lo == p.lo && rs[k].len == NODE
  }

  ghost predicate CleanupOk<X>(c: Cleanup<X>, rs: seq<Region<X>>) {
    && NoDuplicates(c.pushed)
    && c.head == Newest(c.pushed)
    && |c.elems| == |c.pushed|
    && (forall i :: 0 <= i < |c.pushed| ==> c.pushed[i] in c.links && c.links[c.pushed[i]].elem == c.elems[i])
    && (forall i :: 0 <= i < |c.pushed| && c.pushed[i] !in c.pending ==>
          c.links[c.pushed[i]].next == Previous(c.pushed, i))
    && (forall p :: p in c.pending ==> p in c.pushed)
    && (forall p :: p in c.loose ==> p !in c.pushed && IsNode(rs, p))
    && (forall p :: p in c.pushed ==> IsNode(rs, p))
  }

  /** The nodes met from `from` on, following `next`; `fuel` bounds the walk. */
  function Walk<X(==)>(links: map<Addr<X>, Link<X>>, from: Option<Addr<X>>, fuel: nat): seq<Addr<X>>
    decreases fuel
  {
    if fuel == 0 || from.None? || from.value !in links then []
    else [from.value] + Walk(links, links[from.value].next, fuel - 1)
  }

  /** The objects cleaned up by CleanupList, in order. */
  function Cleaned<X(==)>(links: map<Addr<X>, Link<X>>, from: Option<Addr<X>>, fuel: nat): seq<nat>
    decreases fuel
  {
    if fuel == 0 || from.None? || from.value !in links then []
    else [links[from.value].elem] + Cleaned(links, links[from.value].next, fuel - 1)
  }

  function Reversed<T>(s: seq<T>): (r: seq<T>)
    ensures |r| == |s|
  {
    if s == [] then [] else [s[|s| - 1]] + Reversed(s[..|s| - 1])
  }

  ghost predicate Threaded<X>(links: map<Addr<X>, Link<X>>, pushed: seq<Addr<X>>, elems: seq<nat>) {
    |elems| == |pushed| &&
    forall i :: 0 <= i < |pushed| ==> pushed[i] in links && links[pushed[i]] == Link(elems[i], Previous(pushed, i))
  }

  lemma ThreadedRest<X>(links: map<Addr<X>, Link<X>>, pushed: seq<Addr<X>>, elems: seq<nat>)
    requires Threaded(links, pushed, elems) && pushed != []
    ensures Threaded(links, pushed[..|pushed| - 1], elems[..|pushed| - 1])
  {
    var k := |pushed| - 1;
    forall i | 0 <= i < k ensures Previous(pushed[..k], i) == Previous(pushed, i) {
    }
  }

  lemma {:induction false} WalkReversed<X>(links: map<Addr<X>, Link<X>>, pushed: seq<Addr<X>>, elems: seq<nat>, fuel: nat)
    requires |pushed| <= fuel && Threaded(links, pushed, elems)
    ensures Walk(links, Newest(pushed), fuel) == Reversed(pushed)
  {
    if pushed == [] {
    } else {
      var k := |pushed| - 1;
      var (last, rest) := (pushed[k], pushed[..k]);
      ThreadedRest(links, pushed, elems);
      assert links[last].next == Newest(rest);
      WalkReversed(links, rest, elems[..k], fuel - 1);
      assert Walk(links, Some(last), fuel) == [last] + Walk(links, Newest(rest), fuel - 1);
      assert Reversed(pushed) == [last] + Reversed(rest);
    }
  }

  lemma {:induction false} CleanedReversed<X>(links: map<Addr<X>, Link<X>>, pushed: seq<Addr<X>>, elems: seq<nat>, fuel: nat)
    requires |pushed| <= fuel && Threaded(links, pushed, elems)
    ensures Cleaned(links, Newest(pushed), fuel) == Reversed(elems)
  {
    if pushed == [] {
    } else {
      var k := |pushed| - 1;
      ThreadedRest(links, pushed, elems);
      assert Previous(pushed, k) == Newest(pushed[..k]);
      CleanedReversed(links, pushed[..k], elems[..k], fuel - 1);
    }
  }

  /** With no call between its exchange and its store, the chain from `cleanup_list_` holds every
      pushed node exactly once, the last exchanged first. */
  lemma CleanupChain<X>(c: Cleanup<X>, rs: seq<Region<X>>, fuel: nat)
    requires CleanupOk(c, rs) && c.pending == map[] && fuel >= |c.pushed|
    ensures Walk(c.links, c.head, fuel) == Reversed(c.pushed) && NoDuplicates(c.pushed)
    ensures Cleaned(c.links, c.head, fuel) == Reversed(c.elems)
  {
    WalkReversed(c.links, c.pushed, c.elems, fuel);
    CleanedReversed(c.links, c.pushed, c.elems, fuel);
  }

  // ------------------------------------------------------------------ how blocks grow

  function Limited(n: nat, max: nat): nat { if n > max then max else n }

  /** A block with an owner is the first of its thread, of the start size, or twice as large as the one
      before, within the limit. */
  ghost predicate Grown<X>(older: seq<X>, body: map<X, Block>, b: Block, start: nat, max: nat)
    requires forall x :: x in older ==> x in body
  {
    b.owner.Some? ==>
      match FindBlock(older, body, b.owner.value)
      case None => b.size == start
      case Some(x) => b.size == Limited(2 * body[x].size, max)
  }

  /** So are all blocks but the caller's. */
  ghost predicate Doubling<X>(chain: seq<X>, body: map<X, Block>, start: nat, max: nat, user: Option<X>)
    requires forall x :: x in chain ==> x in body
  {
    chain != [] ==>
      && Doubling(chain[1..], body, start, max, user)
      && (user != Some(chain[0]) ==> Grown(chain[1..], body, body[chain[0]], start, max))
  }

  lemma {:induction false} DoublingSame<X>(chain: seq<X>, body: map<X, Block>, body': map<X, Block>, start: nat, max: nat, user: Option<X>)
    requires forall y :: y in chain ==> y in body && y in body'
    requires forall y :: y in chain ==> body'[y].owner == body[y].owner && body'[y].size == body[y].size
    requires Doubling(chain, body, start, max, user)
    ensures Doubling(chain, body', start, max, user)
  {
    if chain == [] {
    } else {
      DoublingSame(chain[1..], body, body', start, max, user);
      if body[chain[0]].owner.Some? { FindBlockSame(chain[1..], body, body', body[chain[0]].owner.value); }
    }
  }

  /** The sizes of the blocks of `t`, the oldest first. */
  function SizesOf<X(==)>(chain: seq<X>, body: map<X, Block>, t: Thread): seq<nat>
    requires forall x :: x in chain ==> x in body
  {
    if chain == [] then []
    else SizesOf(chain[1..], body, t) + if body[chain[0]].owner == Some(t) then [body[chain[0]].size] else []
  }

  function Power2(k: nat): nat { if k == 0 then 1 else 2 * Power2(k - 1) }

  /** The size of the `k`-th block of a thread, counted from 0, whose first has size `first`. */
  function SizeAt(k: nat, first: nat, max: nat): nat {
    if k == 0 then first else Limited(Power2(k) * first, max)
  }

  lemma SizeDoubles(k: nat, first: nat, max: nat)
    ensures SizeAt(k + 1, first, max) == Limited(2 * SizeAt(k, first, max), max)
  {
    assert Power2(k + 1) * first == 2 * (Power2(k) * first);
  }

  lemma {:induction false} LatestSize<X>(chain: seq<X>, body: map<X, Block>, t: Thread)
    requires forall x :: x in chain ==> x in body
    ensures var s, f := SizesOf(chain, body, t), FindBlock(chain, body, t);
      if f.None? then s == [] else s != [] && s[|s| - 1] == body[f.value].size
  {
    if chain == [] {
    } else {
      LatestSize(chain[1..], body, t);
    }
  }

  /** The blocks of a thread double in size from the start size, or from the size of the caller's block if
      that is the thread's, up to the limit. */
  lemma {:induction false} SizesDouble<X>(chain: seq<X>, body: map<X, Block>, start: nat, max: nat, user: Option<X>, t: Thread)
    requires forall x :: x in chain ==> x in body
    requires NoDuplicates(chain) && Doubling(chain, body, start, max, user)
    requires user.Some? ==> chain != [] && chain[|chain| - 1] == user.value
    ensures var first := if user.Some? && body[user.value].owner == Some(t) then body[user.value].size else start;
      forall k :: 0 <= k < |SizesOf(chain, body, t)| ==> SizesOf(chain, body, t)[k] == SizeAt(k, first, max)
  {
    if chain == [] {
    } else if user == Some(chain[0]) {
      assert |chain| == 1;
      assert SizesOf(chain[1..], body, t) == [];
    } else {
      var rest := chain[1..];
      SizesDouble(rest, body, start, max, user, t);
      LatestSize(rest, body, t);
      var s := SizesOf(rest, body, t);
      if s != [] {
        var first := if user.Some? && body[user.value].owner == Some(t) then body[user.value].size else start;
        SizeDoubles(|s| - 1, first, max);
      }
    }
  }

  /** Everything that holds of one arena between any two steps. */
  ghost predicate ArenaOk<X>(a: Arena<X>) {
    && ListOk(a) && RegionsOk(a.regions, a.body) && Tight(a.chain, a.body) && CleanupOk(a.cleanup, a.regions)
    && SumUsed(a.chain, a.body) == SumRegions(a.regions) && Doubling(a.chain, a.body, a.start, a.max, a.user)
  }

  // ------------------------------------------------------------------ changes of one arena

  /** The size policy: twice the thread's last block, but not more than the maximum; the first block of
      a thread has the start size. */
  function Wanted(last: Option<Block>, start: nat, max: nat): nat {
    match last
    case None => start
    case Some(b) => if 2 * b.size > max then max else 2 * b.size
  }

  /** A new block of the wanted size, or as large as the request needs, with the request taken. */
  function NewBlock(me: Thread, last: Option<Block>, n: nat, start: nat, max: nat): (b: Block)
    requires HEADER <= start && HEADER <= max && n % 8 == 0
    requires last.Some? ==> HEADER <= last.value.size
    ensures b.Ok() && b.pos == HEADER + n && b.first == n
    ensures b.owner == if b.Avail() == 0 then None else Some(me)
    ensures last == None ==> b.size == if n <= start - HEADER then start else HEADER + n
    ensures last.Some? && 2 * last.value.size <= max ==>
              b.size == if n <= 2 * last.value.size - HEADER then 2 * last.value.size else HEADER + n
    ensures last.Some? && 2 * last.value.size > max ==> b.size == if n <= max - HEADER then max else HEADER + n
    ensures b.size >= Wanted(last, start, max) && (b.size > Wanted(last, start, max) ==> b.Avail() == 0)
  {
    var wanted := Wanted(last, start, max);
    var size := if n > wanted - HEADER then HEADER + n else wanted;
    Block(size, HEADER + n, if size == HEADER + n then None else Some(me), n)
  }

  /** AddBlockInternal without the store to `hint_`, and the region at the front of the block. */
  function Linked<X(==)>(a: Arena<X>, x: X, b: Block, asked: nat): Arena<X> {
    a.(chain := [x] + a.chain, body := a.body[x := b], regions := a.regions + [Region(x, HEADER, b.first, asked)])
  }

  function Moved<X(==)>(body: map<X, Block>, x: X, pos: nat): map<X, Block>
    requires x in body
  {
    body[x := body[x].(pos := pos)]
  }

  /** The outcome that the search alone would give: if `n` bytes fit in the block that FindBlock returns,
      they are taken there; otherwise `x`, a new block, goes in front. The result is the new block list,
      the new headers, and the block and position handed out. */
  function Outcome<X(==)>(chain: seq<X>, body: map<X, Block>, me: Thread, n: nat, start: nat, max: nat, x: X)
    : (seq<X>, map<X, Block>, X, nat)
    requires HEADER <= start && HEADER <= max && n % 8 == 0
    requires forall x :: x in chain ==> x in body && HEADER <= body[x].size
  {
    match FindBlock(chain, body, me)
    case Some(b) =>
      if body[b].Avail() >= n then (chain, Moved(body, b, body[b].pos + n), b, body[b].pos)
      else ([x] + chain, body[x := NewBlock(me, Some(body[b]), n, start, max)], x, HEADER)
    case None =>
      ([x] + chain, body[x := NewBlock(me, None, n, start, max)], x, HEADER)
  }

  lemma OutcomeFits<X>(chain: seq<X>, body: map<X, Block>, me: Thread, n: nat, start: nat, max: nat, b: X, p: nat)
    requires ChainOk(chain, body) && HEADER <= start && HEADER <= max && n % 8 == 0
    requires FindBlock(chain, body, me) == Some(b) && body[b].Avail() >= n && p == body[b].pos
    ensures Outcome(chain, body, me, n, start, max, b) == (chain, Moved(body, b, p + n), b, p)
  {
  }

  /** Without room there, a new block goes in front, of the size that its thread's blocks grow to or as
      large as the request needs, and the request is at its start. */
  lemma OutcomeMakes<X>(chain: seq<X>, body: map<X, Block>, me: Thread, n: nat, start: nat, max: nat, x: X)
    requires ChainOk(chain, body) && HEADER <= start && HEADER <= max && n % 8 == 0 && x !in body
    requires FindBlock(chain, body, me).Some? ==> body[FindBlock(chain, body, me).value].Avail() < n
    ensures var (chain', body', y, p) := Outcome(chain, body, me, n, start, max, x);
      && chain' == [x] + chain && y == x && p == HEADER
      && x in body' && body' == body[x := body'[x]] && body'[x].pos == HEADER + n
      && Grown(chain, body, body'[x], start, max)
      && (body'[x].owner == None ==> body'[x].size == HEADER + n)
      && (body'[x].owner.Some? ==> body'[x].owner == Some(me) && HEADER + n < body'[x].size)
  {
  }

  /** The memory handed out is in a block of the new list, which has all the old blocks. */
  lemma OutcomeHolds<X>(chain: seq<X>, body: map<X, Block>, me: Thread, n: nat, start: nat, max: nat, x: X, chain': seq<X>)
    requires HEADER <= start && HEADER <= max && n % 8 == 0
    requires forall y :: y in chain ==> y in body && HEADER <= body[y].size
    requires var o := Outcome(chain, body, me, n, start, max, x); chain' == o.0 && x == o.2
    ensures x in chain' && forall y :: y in chain ==> y in chain'
  {
  }

  /** The write of AllocFromBlock. */
  function Bumped<X(==)>(a: Arena<X>, x: X, p: nat, n: nat, asked: nat): Arena<X>
    requires x in a.body
  {
    a.(body := Moved(a.body, x, p + n), regions := a.regions + [Region(x, p, n, asked)])
  }

  lemma {:induction false} SumUsedSame<X>(chain: seq<X>, body: map<X, Block>, body': map<X, Block>)
    requires forall x :: x in chain ==> x in body && x in body' && body[x] == body'[x]
    ensures SumUsed(chain, body) == SumUsed(chain, body')
  {
    if chain == [] {
    } else {
      SumUsedSame(chain[1..], body, body');
    }
  }

  lemma {:induction false} SumUsedBump<X>(chain: seq<X>, body: map<X, Block>, x: X, b: Block)
    requires forall y :: y in chain ==> y in body
    requires NoDuplicates(chain) && x in chain
    ensures SumUsed(chain, body[x := b]) == SumUsed(chain, body) - body[x].Used() + b.Used()
  {
    if chain[0] == x {
      SumUsedSame(chain[1..], body, body[x := b]);
    } else {
      SumUsedBump(chain[1..], body, x, b);
    }
  }

  lemma {:induction false} TightSame<X>(chain: seq<X>, body: map<X, Block>, body': map<X, Block>)
    requires forall y :: y in chain ==> y in body && y in body'
    requires forall y :: y in chain ==>
      && body'[y].owner == body[y].owner && body'[y].size == body[y].size && body'[y].first == body[y].first
      && body'[y].pos >= body[y].pos
    requires Tight(chain, body)
    ensures Tight(chain, body')
  {
    if chain == [] {
    } else {
      TightSame(chain[1..], body, body');
      if body[chain[0]].owner.Some? { FindBlockSame(chain[1..], body, body', body[chain[0]].owner.value); }
    }
  }

  lemma RegionsGrow<X>(a: Arena<X>, r: Region<X>)
    ensures SumRegions(a.regions + [r]) == SumRegions(a.regions) + r.len
  {
    assert (a.regions + [r])[..|a.regions|] == a.regions;
  }

  lemma NodesStay<X>(rs: seq<Region<X>>, rs': seq<Region<X>>)
    requires rs <= rs'
    ensures forall p :: IsNode(rs, p) ==> IsNode(rs', p)
  {
    forall p | IsNode(rs, p) ensures IsNode(rs', p) {
      var k :| 0 <= k < |rs| && rs[k].block == p.block && rs[k].lo == p.lo && rs[k].len == NODE;
      assert rs'[k] == rs[k];
    }
  }

  // ------------------------------------------------------------------ Init and Reset

  /** The arena after Init by thread `t`, or after Reset by it. */
  function Started<X(==)>(lifecycle: int, start: nat, max: nat, user: Option<(X, nat)>, t: Thread): Arena<X> {
    var none := Cleanup(None, map[], [], [], map[], map[]);
    match user
    case None => Arena(lifecycle, start, max, None, [], map[], None, [], none)
    case Some((x, size)) =>
      Arena(lifecycle, start, max, Some(x), [x], map[x := Block(size, HEADER, Some(t), 0)],
        if size == HEADER then None else Some(x), [], none)
  }

  function UserBlock<X(==)>(a: Arena<X>): Option<(X, nat)>
    requires ListOk(a)
  {
    if a.user.None? then None else Some((a.user.value, a.body[a.user.value].size))
  }

  function WasReset<X(==)>(a: Arena<X>, lifecycle: int, t: Thread): Arena<X>
    requires ListOk(a)
  {
    Started(lifecycle, a.start, a.max, UserBlock(a), t)
  }

  lemma StartedOk<X>(lifecycle: int, start: nat, max: nat, user: Option<(X, nat)>, t: Thread)
    requires HEADER <= start && HEADER <= max && (user.Some? ==> HEADER <= user.value.1)
    ensures var a := Started(lifecycle, start, max, user, t); ArenaOk(a) && SpaceUsed(a) == 0
  {
  }

  // ------------------------------------------------------------------ what FreeBlocks gives back

  /** The blocks that FreeBlocks hands to `block_dealloc`, each with the size it passes. */
  function Freed<X(==)>(chain: seq<X>, body: map<X, Block>, ownsFirst: bool): seq<(X, nat)>
    requires forall x :: x in chain ==> x in body
  {
    if chain == [] || (|chain| == 1 && !ownsFirst) then []
    else [(chain[0], body[chain[0]].size)] + Freed(chain[1..], body, ownsFirst)
  }

  lemma {:induction false} FreedAt<X>(chain: seq<X>, body: map<X, Block>, ownsFirst: bool)
    requires forall x :: x in chain ==> x in body
    ensures var f := Freed(chain, body, ownsFirst);
      && |f| == (if ownsFirst || chain == [] then |chain| else |chain| - 1)
      && forall i :: 0 <= i < |f| ==> f[i] == (chain[i], body[chain[i]].size)
  {
    if chain == [] {
    } else {
      FreedAt(chain[1..], body, ownsFirst);
    }
  }

  function SumFreed<X>(f: seq<(X, nat)>): nat { if f == [] then 0 else f[0].1 + SumFreed(f[1..]) }

  /** The sizes of the blocks given back, and that of the caller's, add up to the space allocated. */
  lemma {:induction false} FreedIsAllocated<X>(chain: seq<X>, body: map<X, Block>, ownsFirst: bool)
    requires forall x :: x in chain ==> x in body
    ensures SumSizes(chain, body) == SumFreed(Freed(chain, body, ownsFirst)) +
            if ownsFirst || chain == [] then 0 else body[chain[|chain| - 1]].size
  {
    if chain == [] {
    } else if |chain| == 1 && !ownsFirst {
      assert SumSizes(chain[1..], body) == 0;
    } else {
      FreedIsAllocated(chain[1..], body, ownsFirst);
      var rest := Freed(chain[1..], body, ownsFirst);
      assert ([(chain[0], body[chain[0]].size)] + rest)[1..] == rest;
    }
  }

  /** Reset frees every block that the arena allocated exactly once, with its own size, and never the
      caller's. */
  lemma FreedOnce<X>(a: Arena<X>)
    requires ListOk(a)
    ensures var f := Freed(a.chain, a.body, a.user.None?);
      && (forall x :: x in a.body && a.user != Some(x) <==> exists i :: 0 <= i < |f| && f[i].0 == x)
      && (forall i :: 0 <= i < |f| ==> f[i].0 in a.body && f[i].1 == a.body[f[i].0].size)
      && (forall i, j :: 0 <= i < j < |f| ==> f[i].0 != f[j].0)
  {
    var f := Freed(a.chain, a.body, a.user.None?);
    FreedAt(a.chain, a.body, a.user.None?);
    forall x | x in a.body && a.user != Some(x) ensures exists i :: 0 <= i < |f| && f[i].0 == x {
      var i :| 0 <= i < |a.chain| && a.chain[i] == x;
      assert f[i].0 == x;
    }
  }
}
