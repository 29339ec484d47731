/** Every step of a thread keeps what holds of its arena, of itself, and of all other threads. */
module ArenaProof {
  import opened Options
  import opened ArenaModel
  import opened ArenaThread

  // ------------------------------------------------------------------ what a step may do to others

  /** How thread `t` may change an arena: it adds blocks and moves positions of its own only, and
      touches only its own entries of the cleanup list. */
  ghost predicate Evolves<X>(a: Arena<X>, a': Arena<X>, t: Thread) {
    && a'.lifecycle == a.lifecycle && a'.start == a.start && a'.max == a.max && a'.user == a.user
    && a.regions <= a'.regions
    && (a'.chain == a.chain || (a'.chain != [] && a'.chain[0] !in a.body && a'.chain[1..] == a.chain))
    && (forall x :: x in a.body ==>
          x in a'.body && a'.body[x].owner == a.body[x].owner && (a.body[x].owner != Some(t) ==> a'.body[x] == a.body[x]))
    && (forall x :: x in a'.body && x !in a.body ==> a'.body[x].owner == None || a'.body[x].owner == Some(t))
    && (a'.hint == a.hint || (a'.hint.Some? && a'.hint.value in a'.body && a'.body[a'.hint.value].owner == Some(t)))
    && EvolvesCleanup(a.cleanup, a'.cleanup, t)
  }

  ghost predicate EvolvesCleanup<X>(c: Cleanup<X>, c': Cleanup<X>, t: Thread) {
    && c.pushed <= c'.pushed
    && (forall p :: p in c.loose && c.loose[p] != t ==> p in c'.loose && c'.loose[p] == c.loose[p])
    && (forall p :: p in c.pending && c.pending[p] != t ==> p in c'.pending && c'.pending[p] == c.pending[p])
    && (forall p :: p in c'.pending && c'.pending[p] != t ==> p in c.pending && c'.pending[p] == c.pending[p])
  }

  lemma FindOthers<X>(a: Arena<X>, a': Arena<X>, t: Thread, u: Thread)
    requires ListOk(a) && ListOk(a') && Evolves(a, a', t) && u != t
    ensures Find(a', u) == Find(a, u)
  {
    FindBlockSame(a.chain, a.body, a'.body, u);
  }

  lemma PhaseStable<X>(a: Arena<X>, a': Arena<X>, t: Thread, u: Thread, p: Phase<X>)
    requires ListOk(a) && ListOk(a') && Evolves(a, a', t) && u != t && PhaseOk(a, u, p)
    requires p.Linking? ==> p.block !in a'.body
    ensures PhaseOk(a', u, p)
  {
    FindOthers(a, a', t, u);
    if p.Storing? {
      StoringStable(a, a', t, u, p);
    }
  }

  lemma StoringStable<X>(a: Arena<X>, a': Arena<X>, t: Thread, u: Thread, p: Phase<X>)
    requires ListOk(a) && ListOk(a') && Evolves(a, a', t) && u != t && PhaseOk(a, u, p) && p.Storing?
    ensures PhaseOk(a', u, p)
  {
    if p.Storing? {
      var i :| 0 <= i < |a.cleanup.pushed| && a.cleanup.pushed[i] == p.node && p.next == Previous(a.cleanup.pushed, i);
      assert a'.cleanup.pushed[i] == p.node && p.next == Previous(a'.cleanup.pushed, i);
    }
  }

  /** A step of one thread does not disturb what holds between the arena and another thread. */
  lemma OtherThread<X>(id: ArenaId, a: Arena<X>, a': Arena<X>, t: Thread, u: Thread, l: Local<X>)
    requires ListOk(a) && ListOk(a') && Evolves(a, a', t) && u != t && Compatible(id, a, u, l)
    requires Busy(l, id) && l.phase.Linking? ==> l.phase.block !in a'.body
    ensures Compatible(id, a', u, l)
  {
    FindOthers(a, a', t, u);
    if Busy(l, id) { PhaseStable(a, a', t, u, l.phase); }
  }

  // ------------------------------------------------------------------ steps that change the thread only

  lemma CheckKeeps<X>(id: ArenaId, a: Arena<X>, t: Thread, l: Local<X>, x: X)
    requires Ready(id, a, t, l) && l.phase.Asking?
    ensures StepArena(id, a, t, l) == a && Compatible(id, a, t, StepLocal(id, a, t, l, x))
  {
  }

  lemma SearchKeeps<X>(id: ArenaId, a: Arena<X>, t: Thread, l: Local<X>, x: X)
    requires Ready(id, a, t, l) && l.phase.Searching? && x !in a.body
    ensures StepArena(id, a, t, l) == a && Compatible(id, a, t, StepLocal(id, a, t, l, x))
  {
  }

  lemma ReadKeeps<X>(id: ArenaId, a: Arena<X>, t: Thread, l: Local<X>, x: X)
    requires Ready(id, a, t, l) && (l.phase.Reading? || l.phase.Adopting?)
    ensures StepArena(id, a, t, l) == a && Compatible(id, a, t, StepLocal(id, a, t, l, x))
  {
  }

  // ------------------------------------------------------------------ steps that store hint_

  lemma NewHintOk<X>(a: Arena<X>, x: X, t: Thread)
    requires ArenaOk(a) && x in a.body && a.body[x].owner == Some(t)
    ensures ArenaOk(a.(hint := Some(x))) && Evolves(a, a.(hint := Some(x)), t)
  {
  }

  /** `hint_` may be pointed at the block that a search by the thread finds. */
  lemma HintKeeps<X>(id: ArenaId, a: Arena<X>, t: Thread, l: Local<X>, x: X)
    requires Ready(id, a, t, l) && l.phase.Hinting?
    ensures var a' := StepArena(id, a, t, l);
      ArenaOk(a') && Evolves(a, a', t) && Compatible(id, a', t, StepLocal(id, a, t, l, x))
  {
    NewHintOk(a, l.phase.block, t);
  }

  lemma PublishArena<X>(id: ArenaId, a: Arena<X>, t: Thread, l: Local<X>)
    requires Ready(id, a, t, l) && l.phase.Publishing?
    ensures ArenaOk(StepArena(id, a, t, l)) && Evolves(a, StepArena(id, a, t, l), t)
  {
    if a.body[l.phase.block].Avail() != 0 { NewHintOk(a, l.phase.block, t); }
  }

  lemma PublishKeeps<X>(id: ArenaId, a: Arena<X>, t: Thread, l: Local<X>, x: X)
    requires Ready(id, a, t, l) && l.phase.Publishing?
    ensures var a' := StepArena(id, a, t, l);
      ArenaOk(a') && Evolves(a, a', t) && Compatible(id, a', t, StepLocal(id, a, t, l, x))
  {
    PublishArena(id, a, t, l);
  }

  // ------------------------------------------------------------------ steps that hand out memory

  lemma GrownRegions<X>(rs: seq<Region<X>>, body: map<X, Block>, body': map<X, Block>, r: Region<X>)
    requires RegionsOk(rs, body) && Inside(body', r)
    requires forall x :: x in body ==> x in body' && body'[x].pos >= body[x].pos
    requires r.block in body ==> body[r.block].pos <= r.lo
    ensures RegionsOk(rs + [r], body')
  {
  }

  /** Memory just handed out cannot already hold a node of the cleanup list. */
  lemma NewAddress<X>(a: Arena<X>, x: X, lo: nat)
    requires ArenaOk(a) && (x in a.body ==> a.body[x].pos <= lo)
    ensures Addr(x, lo) !in a.cleanup.pushed && Addr(x, lo) !in a.cleanup.loose
  {
    assert !IsNode(a.regions, Addr(x, lo));
  }

  lemma CleanupStays<X>(c: Cleanup<X>, rs: seq<Region<X>>, r: Region<X>)
    requires CleanupOk(c, rs)
    ensures CleanupOk(c, rs + [r])
  {
    NodesStay(rs, rs + [r]);
  }

  lemma ChainBumped<X>(chain: seq<X>, body: map<X, Block>, x: X, n: nat)
    requires ChainOk(chain, body) && x in body && n % 8 == 0 && body[x].Avail() >= n
    ensures ChainOk(chain, Moved(body, x, body[x].pos + n))
  {
  }

  lemma ChainLinked<X>(chain: seq<X>, body: map<X, Block>, x: X, b: Block)
    requires ChainOk(chain, body) && x !in body && b.Ok() && (b.owner == None ==> b.Avail() == 0)
    ensures ChainOk([x] + chain, body[x := b])
  {
    assert forall i :: 0 <= i < |chain| ==> ([x] + chain)[i + 1] == chain[i];
  }

  lemma TightMoved<X>(chain: seq<X>, body: map<X, Block>, x: X, n: nat)
    requires ChainOk(chain, body) && Tight(chain, body) && x in body
    ensures Tight(chain, Moved(body, x, body[x].pos + n))
    ensures SumUsed(chain, Moved(body, x, body[x].pos + n)) == SumUsed(chain, body) + n
  {
    TightSame(chain, body, Moved(body, x, body[x].pos + n));
    SumUsedBump(chain, body, x, Moved(body, x, body[x].pos + n)[x]);
  }

  lemma RegionsMoved<X>(rs: seq<Region<X>>, body: map<X, Block>, x: X, n: nat, asked: nat)
    requires RegionsOk(rs, body) && x in body && body[x].Ok() && Rounded(n, asked)
    ensures RegionsOk(rs + [Region(x, body[x].pos, n, asked)], Moved(body, x, body[x].pos + n))
  {
    GrownRegions(rs, body, Moved(body, x, body[x].pos + n), Region(x, body[x].pos, n, asked));
  }

  lemma SpaceMoved<X>(chain: seq<X>, body: map<X, Block>, rs: seq<Region<X>>, x: X, n: nat, asked: nat)
    requires ChainOk(chain, body) && Tight(chain, body) && x in body && SumUsed(chain, body) == SumRegions(rs)
    ensures Tight(chain, Moved(body, x, body[x].pos + n))
    ensures SumUsed(chain, Moved(body, x, body[x].pos + n)) == SumRegions(rs + [Region(x, body[x].pos, n, asked)])
  {
    TightMoved(chain, body, x, n);
    assert (rs + [Region(x, body[x].pos, n, asked)])[..|rs|] == rs;
  }

  lemma BumpedLists<X>(a: Arena<X>, x: X, n: nat, asked: nat)
    requires ListOk(a) && x in a.body && a.body[x].Avail() >= n && Rounded(n, asked)
    ensures ListOk(Bumped(a, x, a.body[x].pos, n, asked))
  {
    ChainBumped(a.chain, a.body, x, n);
  }

  lemma BumpedRegions<X>(a: Arena<X>, x: X, n: nat, asked: nat)
    requires ArenaOk(a) && x in a.body && a.body[x].Avail() >= n && Rounded(n, asked)
    ensures var a' := Bumped(a, x, a.body[x].pos, n, asked);
      RegionsOk(a'.regions, a'.body) && CleanupOk(a'.cleanup, a'.regions)
  {
    RegionsMoved(a.regions, a.body, x, n, asked);
    CleanupStays(a.cleanup, a.regions, Region(x, a.body[x].pos, n, asked));
  }

  lemma BumpedSpace<X>(a: Arena<X>, a': Arena<X>, x: X, n: nat, asked: nat)
    requires ChainOk(a.chain, a.body) && Tight(a.chain, a.body) && SumUsed(a.chain, a.body) == SumRegions(a.regions)
    requires x in a.body && a' == Bumped(a, x, a.body[x].pos, n, asked)
    ensures Tight(a'.chain, a'.body) && SumUsed(a'.chain, a'.body) == SumRegions(a'.regions)
  {
    SpaceMoved(a.chain, a.body, a.regions, x, n, asked);
  }

  lemma BumpedOk<X>(a: Arena<X>, x: X, n: nat, asked: nat)
    requires ArenaOk(a) && x in a.body && a.body[x].Avail() >= n && Rounded(n, asked)
    ensures ArenaOk(Bumped(a, x, a.body[x].pos, n, asked))
  {
    BumpedRegions(a, x, n, asked);
    BumpedLists(a, x, n, asked);
    BumpedSpace(a, Bumped(a, x, a.body[x].pos, n, asked), x, n, asked);
    DoublingSame(a.chain, a.body, Moved(a.body, x, a.body[x].pos + n), a.start, a.max, a.user);
  }

  /** A block made for a request that did not fit may supersede the thread's newest block. */
  lemma TightLinked<X>(chain: seq<X>, body: map<X, Block>, x: X, b: Block)
    requires ChainOk(chain, body) && Tight(chain, body) && x !in body
    requires b.owner.None? ==> b.Capacity() <= b.Used()
    requires b.owner.Some? && FindBlock(chain, body, b.owner.value).Some? ==>
               body[FindBlock(chain, body, b.owner.value).value].Avail() < b.first
    ensures Tight([x] + chain, body[x := b])
    ensures SumUsed([x] + chain, body[x := b]) == b.Used() + SumUsed(chain, body)
  {
    assert ([x] + chain)[1..] == chain;
    TightSame(chain, body, body[x := b]);
    SumUsedSame(chain, body, body[x := b]);
    if b.owner.Some? { FindBlockSame(chain, body, body[x := b], b.owner.value); }
  }

  lemma LinkedLists<X>(a: Arena<X>, x: X, b: Block, asked: nat)
    requires ListOk(a) && x !in a.body && b.Ok() && (b.owner == None ==> b.Avail() == 0)
    ensures ListOk(Linked(a, x, b, asked))
  {
    ChainLinked(a.chain, a.body, x, b);
  }

  lemma LinkedRegions<X>(a: Arena<X>, x: X, b: Block, asked: nat)
    requires ArenaOk(a) && x !in a.body && b.pos == HEADER + b.first && Rounded(b.first, asked)
    ensures var a' := Linked(a, x, b, asked);
      RegionsOk(a'.regions, a'.body) && CleanupOk(a'.cleanup, a'.regions)
  {
    var r := Region(x, HEADER, b.first, asked);
    GrownRegions(a.regions, a.body, a.body[x := b], r);
    CleanupStays(a.cleanup, a.regions, r);
  }

  lemma LinkedSpace<X>(a: Arena<X>, x: X, b: Block, t: Thread, asked: nat)
    requires ListOk(a) && ListOk(Linked(a, x, b, asked))
    requires Tight(a.chain, a.body) && SumUsed(a.chain, a.body) == SumRegions(a.regions)
    requires x !in a.body && b.pos == HEADER + b.first
    requires b.owner == if b.Avail() == 0 then None else Some(t)
    requires Find(a, t).Some? ==> a.body[Find(a, t).value].Avail() < b.first
    ensures var a' := Linked(a, x, b, asked);
      Tight(a'.chain, a'.body) && SumUsed(a'.chain, a'.body) == SumRegions(a'.regions)
  {
    TightLinked(a.chain, a.body, x, b);
    RegionsGrow(a, Region(x, HEADER, b.first, asked));
  }

  /** A block of the right size may be linked in. */
  lemma DoublingLinked<X>(chain: seq<X>, body: map<X, Block>, x: X, b: Block, start: nat, max: nat, user: Option<X>)
    requires ChainOk(chain, body) && x !in body && Doubling(chain, body, start, max, user)
    requires Grown(chain, body, b, start, max)
    ensures Doubling([x] + chain, body[x := b], start, max, user)
  {
    assert ([x] + chain)[1..] == chain;
    DoublingSame(chain, body, body[x := b], start, max, user);
    if b.owner.Some? { FindBlockSame(chain, body, body[x := b], b.owner.value); }
  }

  lemma LinkedOk<X>(a: Arena<X>, x: X, b: Block, t: Thread, asked: nat)
    requires ArenaOk(a) && x !in a.body && b.Ok() && b.pos == HEADER + b.first && Rounded(b.first, asked)
    requires b.owner == if b.Avail() == 0 then None else Some(t)
    requires Find(a, t).Some? ==> a.body[Find(a, t).value].Avail() < b.first
    requires Grown(a.chain, a.body, b, a.start, a.max)
    ensures ArenaOk(Linked(a, x, b, asked))
  {
    DoublingLinked(a.chain, a.body, x, b, a.start, a.max, a.user);
    LinkedLists(a, x, b, asked);
    LinkedRegions(a, x, b, asked);
    LinkedSpace(a, x, b, t, asked);
  }

  /** Turning the last region into a node of thread `t`. */
  lemma LoosenedOk<X>(c: Cleanup<X>, rs: seq<Region<X>>, r: Request, p: Addr<X>, t: Thread)
    requires CleanupOk(c, rs) && r.Ok() && p !in c.pushed
    requires rs != [] && var g := rs[|rs| - 1]; g.block == p.block && g.lo == p.lo && g.len == r.n
    ensures CleanupOk(Loosened(c, r, p, t), rs)
  {
  }

  lemma NewCleanup<X>(a: Arena<X>, c: Cleanup<X>)
    requires ArenaOk(a) && CleanupOk(c, a.regions)
    ensures ArenaOk(a.(cleanup := c))
  {
  }

  lemma WriteArena<X>(id: ArenaId, a: Arena<X>, t: Thread, l: Local<X>)
    requires Ready(id, a, t, l) && l.phase.Writing?
    ensures ArenaOk(StepArena(id, a, t, l))
    ensures Addr(l.phase.block, l.phase.p) !in a.cleanup.pushed && Addr(l.phase.block, l.phase.p) !in a.cleanup.loose
  {
    var r := l.phase.req;
    BumpedOk(a, l.phase.block, r.n, r.asked);
    NewAddress(a, l.phase.block, l.phase.p);
    var a' := Bumped(a, l.phase.block, l.phase.p, r.n, r.asked);
    LoosenedOk(a.cleanup, a'.regions, r, Addr(l.phase.block, l.phase.p), t);
    NewCleanup(a', Loosened(a.cleanup, r, Addr(l.phase.block, l.phase.p), t));
  }

  lemma LinkArena<X>(id: ArenaId, a: Arena<X>, t: Thread, l: Local<X>)
    requires Ready(id, a, t, l) && l.phase.Linking?
    ensures ArenaOk(StepArena(id, a, t, l))
    ensures Addr(l.phase.block, HEADER) !in a.cleanup.pushed && Addr(l.phase.block, HEADER) !in a.cleanup.loose
  {
    var r := l.phase.req;
    LinkedOk(a, l.phase.block, l.phase.made, t, r.asked);
    NewAddress(a, l.phase.block, HEADER);
    var a' := Linked(a, l.phase.block, l.phase.made, r.asked);
    LoosenedOk(a.cleanup, a'.regions, r, Addr(l.phase.block, HEADER), t);
    NewCleanup(a', Loosened(a.cleanup, r, Addr(l.phase.block, HEADER), t));
  }

  lemma LoosenedEvolves<X>(c: Cleanup<X>, r: Request, p: Addr<X>, t: Thread)
    requires p !in c.loose
    ensures EvolvesCleanup(c, Loosened(c, r, p, t), t)
  {
  }

  lemma BumpedEvolves<X>(a: Arena<X>, x: X, p: nat, n: nat, asked: nat, c: Cleanup<X>, t: Thread)
    requires x in a.body && a.body[x].owner == Some(t) && EvolvesCleanup(a.cleanup, c, t)
    ensures Evolves(a, Bumped(a, x, p, n, asked).(cleanup := c), t)
  {
  }

  lemma LinkedEvolves<X>(a: Arena<X>, x: X, b: Block, asked: nat, c: Cleanup<X>, t: Thread)
    requires x !in a.body && (b.owner == None || b.owner == Some(t)) && EvolvesCleanup(a.cleanup, c, t)
    ensures Evolves(a, Linked(a, x, b, asked).(cleanup := c), t)
  {
    assert ([x] + a.chain)[1..] == a.chain;
  }

  lemma WriteEvolves<X>(id: ArenaId, a: Arena<X>, t: Thread, l: Local<X>)
    requires Ready(id, a, t, l) && l.phase.Writing?
    ensures ArenaOk(StepArena(id, a, t, l)) && Evolves(a, StepArena(id, a, t, l), t)
  {
    WriteArena(id, a, t, l);
    var r, p := l.phase.req, Addr(l.phase.block, l.phase.p);
    LoosenedEvolves(a.cleanup, r, p, t);
    BumpedEvolves(a, p.block, p.lo, r.n, r.asked, Loosened(a.cleanup, r, p, t), t);
  }

  lemma WriteKeeps<X>(id: ArenaId, a: Arena<X>, t: Thread, l: Local<X>, x: X)
    requires Ready(id, a, t, l) && l.phase.Writing?
    ensures var a' := StepArena(id, a, t, l);
      ArenaOk(a') && Evolves(a, a', t) && Compatible(id, a', t, StepLocal(id, a, t, l, x))
  {
    WriteEvolves(id, a, t, l);
    FindBlockSame(a.chain, a.body, StepArena(id, a, t, l).body, t);
  }

  lemma LinkFind<X>(chain: seq<X>, body: map<X, Block>, x: X, b: Block, t: Thread)
    requires ChainOk(chain, body) && x !in body
    ensures FindBlock([x] + chain, body[x := b], t) == if b.owner == Some(t) then Some(x) else FindBlock(chain, body, t)
  {
    assert ([x] + chain)[1..] == chain;
    FindBlockSame(chain, body, body[x := b], t);
  }

  lemma LinkKeeps<X>(id: ArenaId, a: Arena<X>, t: Thread, l: Local<X>, x: X)
    requires Ready(id, a, t, l) && l.phase.Linking?
    ensures var a' := StepArena(id, a, t, l);
      ArenaOk(a') && Evolves(a, a', t) && Compatible(id, a', t, StepLocal(id, a, t, l, x))
  {
    LinkArena(id, a, t, l);
    var r, p := l.phase.req, Addr(l.phase.block, HEADER);
    LoosenedEvolves(a.cleanup, r, p, t);
    LinkedEvolves(a, p.block, l.phase.made, r.asked, Loosened(a.cleanup, r, p, t), t);
    LinkFind(a.chain, a.body, l.phase.block, l.phase.made, t);
  }

  // ------------------------------------------------------------------ the two steps of AddListNode

  lemma ExchangedEvolves<X>(c: Cleanup<X>, node: Addr<X>, t: Thread, elem: nat)
    requires node in c.loose && c.loose[node] == t && node !in c.pending
    ensures EvolvesCleanup(c, Exchanged(c, node, t, elem), t)
  {
  }

  lemma LaterPrevious<X>(pushed: seq<Addr<X>>, node: Addr<X>)
    ensures forall i :: 0 <= i < |pushed| ==> Previous(pushed + [node], i) == Previous(pushed, i)
  {
  }

  lemma ExchangedOk<X>(c: Cleanup<X>, rs: seq<Region<X>>, node: Addr<X>, t: Thread, elem: nat)
    requires CleanupOk(c, rs) && node in c.loose
    ensures CleanupOk(Exchanged(c, node, t, elem), rs)
  {
    LaterPrevious(c.pushed, node);
  }

  lemma StoredOk<X>(c: Cleanup<X>, rs: seq<Region<X>>, i: nat)
    requires CleanupOk(c, rs) && i < |c.pushed| && c.pushed[i] in c.pending
    ensures CleanupOk(Stored(c, c.pushed[i], Previous(c.pushed, i)), rs)
  {
    var c' := Stored(c, c.pushed[i], Previous(c.pushed, i));
    forall j | 0 <= j < |c.pushed| && c.pushed[j] !in c'.pending
      ensures c'.links[c.pushed[j]].next == Previous(c.pushed, j)
    {
      if j != i { assert c.pushed[j] != c.pushed[i]; }
    }
  }

  lemma StoredEvolves<X>(c: Cleanup<X>, node: Addr<X>, next: Option<Addr<X>>, t: Thread)
    requires node in c.links && node in c.pending && c.pending[node] == t
    ensures EvolvesCleanup(c, Stored(c, node, next), t)
  {
  }

  lemma CleanupKeeps<X>(a: Arena<X>, c: Cleanup<X>, t: Thread)
    requires ArenaOk(a) && CleanupOk(c, a.regions) && EvolvesCleanup(a.cleanup, c, t)
    ensures ArenaOk(a.(cleanup := c)) && Evolves(a, a.(cleanup := c), t)
  {
  }

  lemma ExchangeArena<X>(id: ArenaId, a: Arena<X>, t: Thread, l: Local<X>)
    requires Ready(id, a, t, l) && l.phase.Exchanging?
    ensures ArenaOk(StepArena(id, a, t, l)) && Evolves(a, StepArena(id, a, t, l), t)
  {
    var c, node := a.cleanup, l.phase.node;
    ExchangedOk(c, a.regions, node, t, l.phase.req.purpose.elem);
    ExchangedEvolves(c, node, t, l.phase.req.purpose.elem);
    CleanupKeeps(a, Exchanged(c, node, t, l.phase.req.purpose.elem), t);
  }

  lemma ExchangeKeeps<X>(id: ArenaId, a: Arena<X>, t: Thread, l: Local<X>, x: X)
    requires Ready(id, a, t, l) && l.phase.Exchanging?
    ensures var a' := StepArena(id, a, t, l);
      ArenaOk(a') && Evolves(a, a', t) && Compatible(id, a', t, StepLocal(id, a, t, l, x))
  {
    ExchangeArena(id, a, t, l);
    var c, c' := a.cleanup, StepArena(id, a, t, l).cleanup;
    assert c'.pushed[|c.pushed|] == l.phase.node && Previous(c'.pushed, |c.pushed|) == c.head;
  }

  lemma StoreArena<X>(id: ArenaId, a: Arena<X>, t: Thread, l: Local<X>)
    requires Ready(id, a, t, l) && l.phase.Storing?
    ensures ArenaOk(StepArena(id, a, t, l)) && Evolves(a, StepArena(id, a, t, l), t)
  {
    var i :| 0 <= i < |a.cleanup.pushed| && a.cleanup.pushed[i] == l.phase.node && l.phase.next == Previous(a.cleanup.pushed, i);
    StoredOk(a.cleanup, a.regions, i);
    StoredEvolves(a.cleanup, l.phase.node, l.phase.next, t);
    CleanupKeeps(a, Stored(a.cleanup, l.phase.node, l.phase.next), t);
  }

  lemma StoreKeeps<X>(id: ArenaId, a: Arena<X>, t: Thread, l: Local<X>, x: X)
    requires Ready(id, a, t, l) && l.phase.Storing?
    ensures var a' := StepArena(id, a, t, l);
      ArenaOk(a') && Evolves(a, a', t) && Compatible(id, a', t, StepLocal(id, a, t, l, x))
  {
    StoreArena(id, a, t, l);
  }

  // ------------------------------------------------------------------ any step

  lemma Unchanged<X>(a: Arena<X>, t: Thread)
    ensures Evolves(a, a, t)
  {
  }

  /** Any step of a thread keeps its arena sound and the thread in agreement with it, and changes the
      arena only as `Evolves` allows. */
  lemma StepKeeps<X>(id: ArenaId, a: Arena<X>, t: Thread, l: Local<X>, x: X)
    requires Ready(id, a, t, l)
    requires l.phase.Searching? ==> x !in a.body
    ensures var a' := StepArena(id, a, t, l);
      ArenaOk(a') && Evolves(a, a', t) && Compatible(id, a', t, StepLocal(id, a, t, l, x))
  {
    Unchanged(a, t);
    match l.phase
    case Asking(_) => CheckKeeps(id, a, t, l, x);
    case Searching(_) => SearchKeeps(id, a, t, l, x);
    case Hinting(_, _) => HintKeeps(id, a, t, l, x);
    case Reading(_, _) => ReadKeeps(id, a, t, l, x);
    case Writing(_, _, _) => WriteKeeps(id, a, t, l, x);
    case Linking(_, _, _) => LinkKeeps(id, a, t, l, x);
    case Publishing(_, _) => PublishKeeps(id, a, t, l, x);
    case Adopting(_, _) => ReadKeeps(id, a, t, l, x);
    case Exchanging(_, _) => ExchangeKeeps(id, a, t, l, x);
    case Storing(_, _, _) => StoreKeeps(id, a, t, l, x);
    case Idle => assert false;
  }

  ghost predicate AddsAtMost<X>(body: map<X, Block>, body': map<X, Block>, x: Option<X>) {
    forall y :: y in body' ==> y in body || Some(y) == x
  }

  /** A step adds at most the block that the thread was about to link in. */
  lemma StepBlocks<X>(id: ArenaId, a: Arena<X>, t: Thread, l: Local<X>)
    requires Ready(id, a, t, l)
    ensures AddsAtMost(a.body, StepArena(id, a, t, l).body, if l.phase.Linking? then Some(l.phase.block) else None)
  {
    var a' := StepArena(id, a, t, l);
    if l.phase.Linking? {
      assert a'.body == a.body[l.phase.block := l.phase.made];
    } else if l.phase.Writing? {
      assert a'.body == Moved(a.body, l.phase.block, l.phase.p + l.phase.req.n);
    } else {
      assert a'.body == a.body;
    }
  }

  /** A step goes on with the same request, takes hold of no block but `x`, and fills the cache for this
      lifecycle only. */
  lemma StepScope<X>(id: ArenaId, a: Arena<X>, t: Thread, l: Local<X>, x: X)
    requires Ready(id, a, t, l)
    ensures var l' := StepLocal(id, a, t, l, x);
      && (l'.phase.Idle? || l'.phase.req == l.phase.req)
      && (l'.phase.Linking? ==> l'.phase.block == x)
      && ((l'.seen == l.seen && l'.last == l.last) || l'.seen == a.lifecycle)
  {
    match l.phase
    case Asking(_) =>
    case Searching(_) =>
    case _ =>
  }

  /** What a thread does elsewhere keeps its agreement with this arena. */
  lemma Elsewhere<X>(id: ArenaId, a: Arena<X>, t: Thread, l: Local<X>, l': Local<X>)
    requires ListOk(a) && Compatible(id, a, t, l) && !Busy(l, id) && !Busy(l', id)
    requires (l'.seen == l.seen && l'.last == l.last) || l'.seen != a.lifecycle
    ensures Compatible(id, a, t, l')
  {
  }
}
