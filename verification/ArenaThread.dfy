/** What one thread does in one arena, split at every access to shared memory. */
module ArenaThread {
  import opened Options
  import opened ArenaModel

  type ArenaId = nat

  /** What a thread does with the memory it asked for: nothing more, or AddListNode. */
  datatype Purpose = Plain | Register(elem: nat)

  datatype Request = Request(arena: ArenaId, n: nat, asked: nat, purpose: Purpose) {
    predicate Ok() { Rounded(n, asked) && (purpose.Register? ==> asked == NODE) }
  }

  /** Where a thread stands between two steps. */
  datatype Phase<X> =
    | Idle
    | Asking(req: Request)                                  // AllocateAligned, before its checks
    | Searching(req: Request)                               // SlowAlloc, before FindBlock
    | Hinting(req: Request, block: X)                       // SlowAlloc, before storing hint_
    | Reading(req: Request, block: X)                       // AllocFromBlock, before reading pos
    | Writing(req: Request, block: X, p: nat)               // AllocFromBlock, before writing pos
    | Linking(req: Request, block: X, made: Block)          // AddBlock, before linking the block in
    | Publishing(req: Request, block: X)                    // AddBlock, before storing hint_
    | Adopting(req: Request, block: X)                      // SlowAlloc, before SetThreadCacheBlock
    | Exchanging(req: Request, node: Addr<X>)               // AddListNode, before the exchange
    | Storing(req: Request, node: Addr<X>, next: Option<Addr<X>>) // AddListNode, before storing next

  /** A thread with its ThreadCache. */
  datatype Local<X> = Local(seen: int, last: Option<X>, phase: Phase<X>)

  predicate Busy<X>(l: Local<X>, id: ArenaId) { !l.phase.Idle? && l.phase.req.arena == id }

  // ------------------------------------------------------------------ what holds between thread and arena

  /** The thread has just linked in a block of its own that its cache does not name yet. */
  ghost predicate CacheLags<X>(id: ArenaId, a: Arena<X>, t: Thread, l: Local<X>) {
    && Busy(l, id) && (l.phase.Publishing? || l.phase.Adopting?)
    && l.phase.block in a.body && a.body[l.phase.block].owner == Some(t)
  }

  ghost predicate HintLags<X>(id: ArenaId, a: Arena<X>, t: Thread, l: Local<X>) {
    && Busy(l, id) && l.phase.Publishing?
    && l.phase.block in a.body && a.body[l.phase.block].owner == Some(t)
  }

  /** A cache entry for this lifecycle names the block that a search would find. */
  ghost predicate CacheOk<X>(id: ArenaId, a: Arena<X>, t: Thread, l: Local<X>)
    requires ListOk(a)
  {
    l.seen == a.lifecycle && l.last.Some? ==>
      l.last.value in a.body && (!CacheLags(id, a, t, l) ==> Find(a, t) == l.last)
  }

  /** So does the hint, if its block belongs to the thread. */
  ghost predicate HintOk<X>(id: ArenaId, a: Arena<X>, t: Thread, l: Local<X>)
    requires ListOk(a)
  {
    a.hint.Some? && a.body[a.hint.value].owner == Some(t) && !HintLags(id, a, t, l) ==> Find(a, t) == a.hint
  }

  ghost predicate PhaseOk<X>(a: Arena<X>, t: Thread, p: Phase<X>)
    requires ListOk(a)
  {
    && (!p.Idle? ==> p.req.Ok())
    && match p
       case Idle => true
       case Asking(_) => true
       case Searching(_) => true
       case Hinting(r, x) => Find(a, t) == Some(x) && a.body[x].Avail() >= r.n
       case Reading(r, x) => Find(a, t) == Some(x) && a.body[x].Avail() >= r.n
       case Writing(r, x, q) => Find(a, t) == Some(x) && a.body[x].Avail() >= r.n && q == a.body[x].pos
       case Linking(r, x, b) =>
         && x !in a.body && b.Ok() && b.first == r.n && b.pos == HEADER + r.n
         && b.owner == (if b.Avail() == 0 then None else Some(t))
         && (Find(a, t).Some? ==> a.body[Find(a, t).value].Avail() < r.n)
         && Grown(a.chain, a.body, b, a.start, a.max)
       case Publishing(r, x) =>
         && x in a.body && (a.body[x].owner == Some(t) ==> Find(a, t) == Some(x))
         && a.body[x].owner == (if a.body[x].Avail() == 0 then None else Some(t))
         && Region(x, HEADER, r.n, r.asked) in a.regions
         && (r.purpose.Register? ==> Addr(x, HEADER) in a.cleanup.loose && a.cleanup.loose[Addr(x, HEADER)] == t)
       case Adopting(r, x) =>
         && x in a.body && (a.body[x].owner == Some(t) ==> Find(a, t) == Some(x))
         && (a.body[x].owner == None || a.body[x].owner == Some(t))
         && Region(x, HEADER, r.n, r.asked) in a.regions
         && (r.purpose.Register? ==> Addr(x, HEADER) in a.cleanup.loose && a.cleanup.loose[Addr(x, HEADER)] == t)
       case Exchanging(r, node) => r.purpose.Register? && node in a.cleanup.loose && a.cleanup.loose[node] == t
       case Storing(_, node, next) =>
         && node in a.cleanup.pending && a.cleanup.pending[node] == t
         && exists i :: 0 <= i < |a.cleanup.pushed| && a.cleanup.pushed[i] == node && next == Previous(a.cleanup.pushed, i)
  }

  /** A node waits for its `next` only while the thread that exchanged it is about to store it. */
  ghost predicate OwesOk<X>(id: ArenaId, a: Arena<X>, t: Thread, l: Local<X>) {
    forall p :: p in a.cleanup.pending && a.cleanup.pending[p] == t ==>
      Busy(l, id) && l.phase.Storing? && l.phase.node == p
  }

  ghost predicate Compatible<X>(id: ArenaId, a: Arena<X>, t: Thread, l: Local<X>)
    requires ListOk(a)
  {
    && CacheOk(id, a, t, l) && HintOk(id, a, t, l) && OwesOk(id, a, t, l)
    && (Busy(l, id) ==> PhaseOk(a, t, l.phase))
  }

  ghost predicate Ready<X>(id: ArenaId, a: Arena<X>, t: Thread, l: Local<X>) {
    ArenaOk(a) && Busy(l, id) && Compatible(id, a, t, l)
  }

  // ------------------------------------------------------------------ the steps

  /** Where the memory starts that the next step returns to the caller or to AddListNode. */
  function Returned<X>(l: Local<X>): Option<Addr<X>> {
    match l.phase
    case Writing(_, x, p) => Some(Addr(x, p))
    case Adopting(_, x) => Some(Addr(x, HEADER))
    case _ => None
  }

  /** After memory has been obtained. */
  function Obtained<X>(l: Local<X>): Local<X>
    requires Returned(l).Some?
  {
    l.(phase := if l.phase.req.purpose.Plain? then Idle else Exchanging(l.phase.req, Returned(l).value))
  }

  /** A region handed out for AddListNode becomes a node that belongs to the thread. */
  function Loosened<X(==)>(c: Cleanup<X>, r: Request, p: Addr<X>, t: Thread): Cleanup<X> {
    if r.purpose.Register? then c.(loose := c.loose[p := t]) else c
  }

  /** The exchange on `cleanup_list_`. */
  function Exchanged<X(==)>(c: Cleanup<X>, node: Addr<X>, t: Thread, elem: nat): Cleanup<X> {
    c.(head := Some(node), pushed := c.pushed + [node], elems := c.elems + [elem], links := c.links[node := Link(elem, None)],
       pending := c.pending[node := t], loose := c.loose - {node})
  }

  /** The store of the old head into the node. */
  function Stored<X(==)>(c: Cleanup<X>, node: Addr<X>, next: Option<Addr<X>>): Cleanup<X>
    requires node in c.links
  {
    c.(links := c.links[node := c.links[node].(next := next)], pending := c.pending - {node})
  }

  /** The checks of AllocateAligned on the thread cache and on `hint_`. */
  function Check<X(==)>(a: Arena<X>, t: Thread, l: Local<X>): Local<X>
    requires l.phase.Asking? && ListOk(a)
    requires l.seen == a.lifecycle && l.last.Some? ==> l.last.value in a.body
  {
    var r := l.phase.req;
    if l.seen == a.lifecycle && l.last.Some? then
      l.(phase := if a.body[l.last.value].Avail() < r.n then Searching(r) else Reading(r, l.last.value))
    else if a.hint.None? || a.body[a.hint.value].owner != Some(t) || a.body[a.hint.value].Avail() < r.n then
      l.(phase := Searching(r))
    else
      l.(phase := Reading(r, a.hint.value))
  }

  /** FindBlock in SlowAlloc, with the thread's own work up to the next shared access; `x` is the
      address that a new block would get. */
  function Search<X(==)>(a: Arena<X>, t: Thread, l: Local<X>, x: X): Local<X>
    requires l.phase.Searching? && ListOk(a) && l.phase.req.Ok()
  {
    var r := l.phase.req;
    var b := Find(a, t);
    if b.Some? && a.body[b.value].Avail() >= r.n then
      l.(seen := a.lifecycle, last := b, phase := Hinting(r, b.value))
    else
      var last := if b.Some? then Some(a.body[b.value]) else None;
      l.(phase := Linking(r, x, NewBlock(t, last, r.n, a.start, a.max)))
  }

  /** One step of thread `t` in the arena of its request. `x` is used by Search only. */
  function StepArena<X(==)>(id: ArenaId, a: Arena<X>, t: Thread, l: Local<X>): Arena<X>
    requires Ready(id, a, t, l)
  {
    var c := a.cleanup;
    match l.phase
    case Hinting(_, x) => a.(hint := Some(x))
    case Writing(r, x, p) => Bumped(a, x, p, r.n, r.asked).(cleanup := Loosened(c, r, Addr(x, p), t))
    case Linking(r, x, b) => Linked(a, x, b, r.asked).(cleanup := Loosened(c, r, Addr(x, HEADER), t))
    case Publishing(_, x) => if a.body[x].Avail() != 0 then a.(hint := Some(x)) else a
    case Exchanging(r, node) => a.(cleanup := Exchanged(c, node, t, r.purpose.elem))
    case Storing(_, node, next) => a.(cleanup := Stored(c, node, next))
    case _ => a
  }

  function StepLocal<X(==)>(id: ArenaId, a: Arena<X>, t: Thread, l: Local<X>, x: X): Local<X>
    requires Ready(id, a, t, l)
  {
    match l.phase
    case Idle => l
    case Asking(_) => Check(a, t, l)
    case Searching(_) => Search(a, t, l, x)
    case Hinting(r, b) => l.(phase := Reading(r, b))
    case Reading(r, b) => l.(phase := Writing(r, b, a.body[b].pos))
    case Writing(_, _, _) => Obtained(l)
    case Linking(r, b, _) => l.(phase := Publishing(r, b))
    case Publishing(r, b) => l.(phase := Adopting(r, b))
    case Adopting(r, b) =>
      Obtained(if a.body[b].owner == Some(t) then l.(seen := a.lifecycle, last := Some(b)) else l)
    case Exchanging(r, node) => l.(phase := Storing(r, node, a.cleanup.head))
    case Storing(_, _, _) => l.(phase := Idle)
  }
}
