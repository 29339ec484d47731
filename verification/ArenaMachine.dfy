/** Any number of threads using any number of arenas, in interleaved steps. */
module ArenaMachine {
  import opened Options
  import opened ArenaModel
  import opened ArenaThread
  import opened ArenaProof

  /** The address of a block. The allocator may reuse the address of a block that was freed. */
  type Base = nat

  /** `next` is what the lifecycle id generator returns next. */
  datatype World = World(next: nat, arenas: map<ArenaId, Arena<Base>>, locals: map<Thread, Local<Base>>)

  datatype Event =
    | Init(t: Thread, id: ArenaId, start: nat, max: nat, user: Option<(Base, nat)>)
    | Begin(t: Thread, req: Request)
    | Step(t: Thread, x: Base)
    | Reset(t: Thread, id: ArenaId)
    | Destroy(t: Thread, id: ArenaId)
    | Restart(t: Thread)

  // ------------------------------------------------------------------ what always holds

  ghost predicate ArenasOk(w: World) {
    forall id :: id in w.arenas ==> ArenaOk(w.arenas[id]) && 0 <= w.arenas[id].lifecycle < w.next
  }

  /** Arenas have different lifecycle ids and no block in common. */
  ghost predicate Apart(w: World) {
    forall i, j :: i in w.arenas && j in w.arenas && i != j ==>
      w.arenas[i].lifecycle != w.arenas[j].lifecycle && w.arenas[i].body.Keys !! w.arenas[j].body.Keys
  }

  ghost predicate LocalsOk(w: World) {
    forall t :: t in w.locals ==>
      w.locals[t].seen < w.next && (!w.locals[t].phase.Idle? ==> w.locals[t].phase.req.arena in w.arenas)
  }

  /** Only threads of this world owe a `next`. */
  ghost predicate DebtsKnown(w: World) {
    forall id, p :: id in w.arenas && p in w.arenas[id].cleanup.pending ==> w.arenas[id].cleanup.pending[p] in w.locals
  }

  ghost predicate Agree(w: World)
    requires ArenasOk(w)
  {
    forall id, t :: id in w.arenas && t in w.locals ==> Compatible(id, w.arenas[id], t, w.locals[t])
  }

  predicate Holds(l: Local<Base>, x: Base) { l.phase.Linking? && l.phase.block == x }

  /** No arena has block `x`, and no thread but `t` holds it. */
  ghost predicate FreeFor(w: World, x: Base, t: Thread) {
    && (forall id :: id in w.arenas ==> x !in w.arenas[id].body)
    && (forall u :: u in w.locals && u != t ==> !Holds(w.locals[u], x))
  }

  ghost predicate Free(w: World, x: Base) {
    && (forall id :: id in w.arenas ==> x !in w.arenas[id].body)
    && (forall u :: u in w.locals ==> !Holds(w.locals[u], x))
  }

  /** A block on its way into an arena belongs to one thread alone. */
  ghost predicate MadeOk(w: World) {
    forall t :: t in w.locals && w.locals[t].phase.Linking? ==> FreeFor(w, w.locals[t].phase.block, t)
  }

  ghost predicate Inv(w: World) {
    ArenasOk(w) && Apart(w) && LocalsOk(w) && DebtsKnown(w) && Agree(w) && MadeOk(w)
  }

  // ------------------------------------------------------------------ events

  ghost predicate IdleIn(w: World, t: Thread) { t in w.locals && w.locals[t].phase.Idle? }

  /** Init by an idle thread with options that pass its checks; AllocateAligned or AddListNode called
      by an idle thread; the next step of a busy one, with `x` a block the allocator may return; Reset
      or the destructor, while no thread is at work in the arena; the end of a thread, and the start of
      another that gets the address of its cache. */
  ghost predicate Enabled(w: World, e: Event) {
    match e
    case Init(t, id, start, max, user) =>
      && IdleIn(w, t) && id !in w.arenas && HEADER <= start && HEADER <= max
      && (user.Some? ==> HEADER <= user.value.1 && Free(w, user.value.0))
    case Begin(t, req) => IdleIn(w, t) && req.arena in w.arenas && req.Ok()
    case Step(t, x) => t in w.locals && !w.locals[t].phase.Idle? && Free(w, x)
    case Reset(t, id) => IdleIn(w, t) && id in w.arenas && forall u :: u in w.locals ==> !Busy(w.locals[u], id)
    case Destroy(t, id) => IdleIn(w, t) && id in w.arenas && forall u :: u in w.locals ==> !Busy(w.locals[u], id)
    case Restart(t) => IdleIn(w, t)
  }

  /** A thread whose cache holds `{ -1, NULL }`. */
  const UNUSED: Local<Base> := Local(-1, None, Idle)

  /** SetThreadCacheBlock for the caller's own block, if there is one. */
  function Took(l: Local<Base>, lifecycle: int, user: Option<(Base, nat)>): Local<Base> {
    if user.None? then l else l.(seen := lifecycle, last := Some(user.value.0))
  }

  function Apply(w: World, e: Event): World
    requires Inv(w) && Enabled(w, e)
  {
    var l := w.locals[e.t];
    match e
    case Init(t, id, start, max, user) =>
      World(w.next + 1, w.arenas[id := Started(w.next, start, max, user, t)], w.locals[t := Took(l, w.next, user)])
    case Begin(t, req) =>
      w.(locals := w.locals[t := l.(phase := Asking(req))])
    case Step(t, x) =>
      var id := l.phase.req.arena;
      w.(arenas := w.arenas[id := StepArena(id, w.arenas[id], t, l)],
         locals := w.locals[t := StepLocal(id, w.arenas[id], t, l, x)])
    case Reset(t, id) =>
      var a := w.arenas[id];
      World(w.next + 1, w.arenas[id := WasReset(a, w.next, t)], w.locals[t := Took(l, w.next, UserBlock(a))])
    case Destroy(t, id) =>
      var a := w.arenas[id];
      w.(arenas := w.arenas - {id}, locals := w.locals[t := Took(l, a.lifecycle, UserBlock(a))])
    case Restart(t) => w.(locals := w.locals[t := UNUSED])
  }

  // ------------------------------------------------------------------ one arena and one thread change

  function Changed(w: World, next: nat, here: ArenaId, a: Arena<Base>, t: Thread, l: Local<Base>): World {
    World(next, w.arenas[here := a], w.locals[t := l])
  }

  /** What a new state of arena `here` must keep apart from the other arenas and threads. */
  ghost predicate FitsIn(w: World, next: nat, here: ArenaId, a: Arena<Base>, t: Thread) {
    && w.next <= next && 0 <= a.lifecycle < next
    && (forall i :: i in w.arenas && i != here ==>
          w.arenas[i].lifecycle != a.lifecycle && w.arenas[i].body.Keys !! a.body.Keys)
    && (forall p :: p in a.cleanup.pending ==> a.cleanup.pending[p] in w.locals)
    && (forall u :: u in w.locals && u != t && w.locals[u].phase.Linking? ==> w.locals[u].phase.block !in a.body)
  }

  ghost predicate FitsAs(w: World, next: nat, here: ArenaId, a: Arena<Base>, t: Thread, l: Local<Base>) {
    && t in w.locals && l.seen < next && (l.phase.Idle? || l.phase.req.arena == here)
    && (l.phase.Linking? ==> FreeFor(w, l.phase.block, t) && l.phase.block !in a.body)
  }

  lemma ChangedArenas(w: World, next: nat, here: ArenaId, a: Arena<Base>, t: Thread, l: Local<Base>)
    requires ArenasOk(w) && ArenaOk(a) && FitsIn(w, next, here, a, t)
    ensures ArenasOk(Changed(w, next, here, a, t, l))
  {
  }

  lemma ChangedApart(w: World, next: nat, here: ArenaId, a: Arena<Base>, t: Thread, l: Local<Base>)
    requires Apart(w) && DebtsKnown(w) && FitsIn(w, next, here, a, t)
    ensures Apart(Changed(w, next, here, a, t, l)) && DebtsKnown(Changed(w, next, here, a, t, l))
  {
  }

  lemma ChangedLocals(w: World, next: nat, here: ArenaId, a: Arena<Base>, t: Thread, l: Local<Base>)
    requires LocalsOk(w) && w.next <= next && FitsAs(w, next, here, a, t, l)
    ensures LocalsOk(Changed(w, next, here, a, t, l))
  {
  }

  lemma ChangedMade(w: World, next: nat, here: ArenaId, a: Arena<Base>, t: Thread, l: Local<Base>)
    requires MadeOk(w) && FitsAs(w, next, here, a, t, l)
    requires forall u :: u in w.locals && u != t && w.locals[u].phase.Linking? ==> w.locals[u].phase.block !in a.body
    ensures MadeOk(Changed(w, next, here, a, t, l))
  {
    var w' := Changed(w, next, here, a, t, l);
    forall u | u in w'.locals && w'.locals[u].phase.Linking? ensures FreeFor(w', w'.locals[u].phase.block, u) {
      if u != t {
        assert FreeFor(w, w.locals[u].phase.block, u);
        assert Holds(w.locals[u], w.locals[u].phase.block);
      }
    }
  }

  lemma ChangedAgree(w: World, next: nat, here: ArenaId, a: Arena<Base>, t: Thread, l: Local<Base>)
    requires ArenasOk(w) && Agree(w) && ArenasOk(Changed(w, next, here, a, t, l))
    requires ListOk(a) && Compatible(here, a, t, l)
    requires forall u :: u in w.locals && u != t ==> Compatible(here, a, u, w.locals[u])
    requires forall i :: i in w.arenas && i != here ==> Compatible(i, w.arenas[i], t, l)
    ensures Agree(Changed(w, next, here, a, t, l))
  {
    var w' := Changed(w, next, here, a, t, l);
    forall i, u | i in w'.arenas && u in w'.locals ensures Compatible(i, w'.arenas[i], u, w'.locals[u]) {
      if i != here && u != t { assert Compatible(i, w.arenas[i], u, w.locals[u]); }
    }
  }

  lemma ChangedKeeps(w: World, next: nat, here: ArenaId, a: Arena<Base>, t: Thread, l: Local<Base>)
    requires Inv(w) && ArenaOk(a) && FitsIn(w, next, here, a, t) && FitsAs(w, next, here, a, t, l)
    requires Compatible(here, a, t, l)
    requires forall u :: u in w.locals && u != t ==> Compatible(here, a, u, w.locals[u])
    requires forall i :: i in w.arenas && i != here ==> Compatible(i, w.arenas[i], t, l)
    ensures Inv(Changed(w, next, here, a, t, l))
  {
    ChangedArenas(w, next, here, a, t, l);
    ChangedApart(w, next, here, a, t, l);
    ChangedLocals(w, next, here, a, t, l);
    ChangedMade(w, next, here, a, t, l);
    ChangedAgree(w, next, here, a, t, l);
  }

  // ------------------------------------------------------------------ Step

  lemma StepReady(w: World, t: Thread, x: Base)
    requires Inv(w) && Enabled(w, Step(t, x))
    ensures var l := w.locals[t]; var id := l.phase.req.arena; id in w.arenas && Ready(id, w.arenas[id], t, l)
  {
    assert Compatible(w.locals[t].phase.req.arena, w.arenas[w.locals[t].phase.req.arena], t, w.locals[t]);
  }

  lemma EvolvedFits(w: World, here: ArenaId, a: Arena<Base>, t: Thread)
    requires Apart(w) && DebtsKnown(w) && MadeOk(w) && here in w.arenas && t in w.locals
    requires Evolves(w.arenas[here], a, t) && 0 <= a.lifecycle < w.next
    requires forall y :: y in a.body ==> y in w.arenas[here].body || Holds(w.locals[t], y)
    ensures FitsIn(w, w.next, here, a, t)
  {
    forall i | i in w.arenas && i != here ensures w.arenas[i].body.Keys !! a.body.Keys {
      assert w.locals[t].phase.Linking? ==> FreeFor(w, w.locals[t].phase.block, t);
    }
    forall u | u in w.locals && u != t && w.locals[u].phase.Linking? ensures w.locals[u].phase.block !in a.body {
      assert FreeFor(w, w.locals[u].phase.block, u);
    }
  }

  lemma StepFits(w: World, t: Thread, x: Base)
    requires Inv(w) && Enabled(w, Step(t, x))
    ensures var l := w.locals[t]; var here := l.phase.req.arena;
      here in w.arenas && Ready(here, w.arenas[here], t, l) && FitsIn(w, w.next, here, StepArena(here, w.arenas[here], t, l), t)
  {
    StepReady(w, t, x);
    var l := w.locals[t];
    var here := l.phase.req.arena;
    StepKeeps(here, w.arenas[here], t, l, x);
    StepBlocks(here, w.arenas[here], t, l);
    assert forall y :: y in StepArena(here, w.arenas[here], t, l).body ==> y in w.arenas[here].body || Holds(l, y);
    EvolvedFits(w, here, StepArena(here, w.arenas[here], t, l), t);
  }

  lemma StepKeepsInv(w: World, t: Thread, x: Base)
    requires Inv(w) && Enabled(w, Step(t, x))
    ensures Inv(Apply(w, Step(t, x)))
  {
    var l := w.locals[t];
    var here := l.phase.req.arena;
    var a := w.arenas[here];
    StepFits(w, t, x);
    StepScope(here, a, t, l, x);
    StepKeeps(here, a, t, l, x);
    var a', l' := StepArena(here, a, t, l), StepLocal(here, a, t, l, x);
    forall u | u in w.locals && u != t ensures Compatible(here, a', u, w.locals[u]) {
      OtherThread(here, a, a', t, u, w.locals[u]);
    }
    forall i | i in w.arenas && i != here ensures Compatible(i, w.arenas[i], t, l') {
      Elsewhere(i, w.arenas[i], t, l, l');
    }
    ChangedKeeps(w, w.next, here, a', t, l');
  }

  // ------------------------------------------------------------------ the other events

  lemma BeginFits(w: World, t: Thread, here: ArenaId)
    requires ArenasOk(w) && Apart(w) && DebtsKnown(w) && MadeOk(w) && here in w.arenas
    ensures FitsIn(w, w.next, here, w.arenas[here], t)
  {
    forall u | u in w.locals && u != t && w.locals[u].phase.Linking? ensures w.locals[u].phase.block !in w.arenas[here].body {
      assert FreeFor(w, w.locals[u].phase.block, u);
    }
  }

  lemma BeginAgrees(i: ArenaId, a: Arena<Base>, t: Thread, l: Local<Base>, req: Request)
    requires ListOk(a) && Compatible(i, a, t, l) && l.phase.Idle? && req.Ok()
    ensures Compatible(i, a, t, l.(phase := Asking(req)))
  {
  }

  lemma BeginChanges(w: World, t: Thread, here: ArenaId, l: Local<Base>)
    requires here in w.arenas
    ensures Changed(w, w.next, here, w.arenas[here], t, l) == w.(locals := w.locals[t := l])
  {
    assert w.arenas[here := w.arenas[here]] == w.arenas;
  }

  lemma BeginAllAgree(w: World, t: Thread, req: Request)
    requires Inv(w) && Enabled(w, Begin(t, req))
    ensures forall i :: i in w.arenas ==> Compatible(i, w.arenas[i], t, w.locals[t].(phase := Asking(req)))
  {
    forall i | i in w.arenas ensures Compatible(i, w.arenas[i], t, w.locals[t].(phase := Asking(req))) {
      BeginAgrees(i, w.arenas[i], t, w.locals[t], req);
    }
  }

  lemma BeginKeepsInv(w: World, t: Thread, req: Request)
    requires Inv(w) && Enabled(w, Begin(t, req))
    ensures Inv(Apply(w, Begin(t, req)))
  {
    var l' := w.locals[t].(phase := Asking(req));
    BeginAllAgree(w, t, req);
    BeginFits(w, t, req.arena);
    ChangedKeeps(w, w.next, req.arena, w.arenas[req.arena], t, l');
    BeginChanges(w, t, req.arena, l');
  }

  /** What holds when Init or Reset sets up arena `id`. */
  ghost predicate CanStart(w: World, t: Thread, id: ArenaId, start: nat, max: nat, user: Option<(Base, nat)>) {
    && IdleIn(w, t) && (forall u :: u in w.locals ==> !Busy(w.locals[u], id))
    && HEADER <= start && HEADER <= max
    && (user.Some? ==> HEADER <= user.value.1 && forall i :: i in w.arenas && i != id ==> user.value.0 !in w.arenas[i].body)
    && (user.Some? ==> forall u :: u in w.locals ==> !Holds(w.locals[u], user.value.0))
  }

  lemma StartFits(w: World, t: Thread, id: ArenaId, start: nat, max: nat, user: Option<(Base, nat)>)
    requires ArenasOk(w) && CanStart(w, t, id, start, max, user)
    ensures FitsIn(w, w.next + 1, id, Started(w.next, start, max, user, t), t)
  {
    var a := Started(w.next, start, max, user, t);
    forall u | u in w.locals && u != t && w.locals[u].phase.Linking? ensures w.locals[u].phase.block !in a.body {
      assert user.Some? ==> !Holds(w.locals[u], user.value.0);
    }
  }

  lemma StartAgrees(w: World, t: Thread, id: ArenaId, start: nat, max: nat, user: Option<(Base, nat)>, u: Thread)
    requires LocalsOk(w) && CanStart(w, t, id, start, max, user) && u in w.locals
    ensures var a := Started(w.next, start, max, user, t);
      ListOk(a) && Compatible(id, a, u, if u == t then Took(w.locals[t], w.next, user) else w.locals[u])
  {
  }

  lemma StartKeepsInv(w: World, t: Thread, id: ArenaId, start: nat, max: nat, user: Option<(Base, nat)>)
    requires Inv(w) && CanStart(w, t, id, start, max, user)
    ensures Inv(Changed(w, w.next + 1, id, Started(w.next, start, max, user, t), t, Took(w.locals[t], w.next, user)))
  {
    var a, l' := Started(w.next, start, max, user, t), Took(w.locals[t], w.next, user);
    StartedOk(w.next, start, max, user, t);
    StartFits(w, t, id, start, max, user);
    StartAgrees(w, t, id, start, max, user, t);
    forall u | u in w.locals && u != t ensures Compatible(id, a, u, w.locals[u]) {
      StartAgrees(w, t, id, start, max, user, u);
    }
    forall i | i in w.arenas && i != id ensures Compatible(i, w.arenas[i], t, l') {
      Elsewhere(i, w.arenas[i], t, w.locals[t], l');
    }
    ChangedKeeps(w, w.next + 1, id, a, t, l');
  }

  lemma ResetCanStart(w: World, t: Thread, id: ArenaId)
    requires Inv(w) && Enabled(w, Reset(t, id))
    ensures ListOk(w.arenas[id]) && CanStart(w, t, id, w.arenas[id].start, w.arenas[id].max, UserBlock(w.arenas[id]))
  {
    var a := w.arenas[id];
    assert ArenaOk(a);
    if a.user.Some? {
      assert a.user.value in a.body;
      forall u | u in w.locals ensures !Holds(w.locals[u], a.user.value) {
        if w.locals[u].phase.Linking? { assert FreeFor(w, w.locals[u].phase.block, u); }
      }
    }
  }

  lemma InitCanStart(w: World, e: Event)
    requires LocalsOk(w) && Enabled(w, e) && e.Init?
    ensures CanStart(w, e.t, e.id, e.start, e.max, e.user)
  {
  }

  lemma InitKeepsInv(w: World, e: Event)
    requires Inv(w) && Enabled(w, e) && e.Init?
    ensures Inv(Apply(w, e))
  {
    InitCanStart(w, e);
    StartKeepsInv(w, e.t, e.id, e.start, e.max, e.user);
  }

  lemma ResetKeepsInv(w: World, t: Thread, id: ArenaId)
    requires Inv(w) && Enabled(w, Reset(t, id))
    ensures Inv(Apply(w, Reset(t, id)))
  {
    ResetCanStart(w, t, id);
    StartKeepsInv(w, t, id, w.arenas[id].start, w.arenas[id].max, UserBlock(w.arenas[id]));
  }

  lemma DestroyAgreeSelf(w: World, l: Local<Base>, t: Thread, id: ArenaId, i: ArenaId)
    requires ArenasOk(w) && Agree(w) && Apart(w) && IdleIn(w, t) && id in w.arenas && l.phase.Idle?
    requires (l.seen == w.locals[t].seen && l.last == w.locals[t].last) || l.seen == w.arenas[id].lifecycle
    requires i in w.arenas && i != id
    ensures Compatible(i, w.arenas[i], t, l)
  {
    Elsewhere(i, w.arenas[i], t, w.locals[t], l);
  }

  lemma DestroyAgree(w: World, l: Local<Base>, t: Thread, id: ArenaId)
    requires ArenasOk(w) && Agree(w)
    requires forall i :: i in w.arenas && i != id ==> Compatible(i, w.arenas[i], t, l)
    ensures Agree(World(w.next, w.arenas - {id}, w.locals[t := l]))
  {
    var w' := World(w.next, w.arenas - {id}, w.locals[t := l]);
    forall i, u | i in w'.arenas && u in w'.locals ensures Compatible(i, w'.arenas[i], u, w'.locals[u]) {
      assert u != t ==> w'.locals[u] == w.locals[u];
    }
  }

  lemma DestroyMade(w: World, l: Local<Base>, t: Thread, id: ArenaId)
    requires MadeOk(w) && IdleIn(w, t) && l.phase.Idle?
    ensures MadeOk(World(w.next, w.arenas - {id}, w.locals[t := l]))
  {
    var w' := World(w.next, w.arenas - {id}, w.locals[t := l]);
    forall u | u in w'.locals && w'.locals[u].phase.Linking? ensures FreeFor(w', w'.locals[u].phase.block, u) {
      assert FreeFor(w, w.locals[u].phase.block, u);
    }
  }

  lemma DestroyRest(w: World, l: Local<Base>, t: Thread, id: ArenaId)
    requires Apart(w) && LocalsOk(w) && DebtsKnown(w) && id in w.arenas && t in w.locals && l.phase.Idle? && l.seen < w.next
    requires forall u :: u in w.locals ==> !Busy(w.locals[u], id)
    ensures var w' := World(w.next, w.arenas - {id}, w.locals[t := l]); Apart(w') && LocalsOk(w') && DebtsKnown(w')
  {
  }

  lemma DestroyKeepsInv(w: World, t: Thread, id: ArenaId)
    requires Inv(w) && Enabled(w, Destroy(t, id))
    ensures Inv(Apply(w, Destroy(t, id)))
  {
    var l' := Took(w.locals[t], w.arenas[id].lifecycle, UserBlock(w.arenas[id]));
    DestroyMade(w, l', t, id);
    DestroyRest(w, l', t, id);
    forall i | i in w.arenas && i != id ensures Compatible(i, w.arenas[i], t, l') {
      DestroyAgreeSelf(w, l', t, id, i);
    }
    DestroyAgree(w, l', t, id);
  }

  lemma RestartMade(w: World, t: Thread)
    requires MadeOk(w) && IdleIn(w, t)
    ensures MadeOk(w.(locals := w.locals[t := UNUSED]))
  {
    var w' := w.(locals := w.locals[t := UNUSED]);
    forall u | u in w'.locals && w'.locals[u].phase.Linking? ensures FreeFor(w', w'.locals[u].phase.block, u) {
      assert FreeFor(w, w.locals[u].phase.block, u);
    }
  }

  lemma RestartAgreeSelf(w: World, t: Thread, i: ArenaId)
    requires ArenasOk(w) && Agree(w) && IdleIn(w, t) && i in w.arenas
    ensures Compatible(i, w.arenas[i], t, UNUSED)
  {
    Elsewhere(i, w.arenas[i], t, w.locals[t], UNUSED);
  }

  lemma RestartAgree(w: World, t: Thread)
    requires ArenasOk(w) && Agree(w)
    requires forall i :: i in w.arenas ==> Compatible(i, w.arenas[i], t, UNUSED)
    ensures Agree(w.(locals := w.locals[t := UNUSED]))
  {
    var w' := w.(locals := w.locals[t := UNUSED]);
    forall i, u | i in w'.arenas && u in w'.locals ensures Compatible(i, w'.arenas[i], u, w'.locals[u]) {
      assert u != t ==> w'.locals[u] == w.locals[u];
    }
  }

  /** A thread that inherits the cache address of another owns that one's blocks, and a search finds them. */
  lemma RestartKeepsInv(w: World, t: Thread)
    requires Inv(w) && Enabled(w, Restart(t))
    ensures Inv(Apply(w, Restart(t)))
  {
    RestartMade(w, t);
    forall i | i in w.arenas ensures Compatible(i, w.arenas[i], t, UNUSED) {
      RestartAgreeSelf(w, t, i);
    }
    RestartAgree(w, t);
  }

  /** Every event keeps the invariant. */
  lemma EventKeepsInv(w: World, e: Event)
    requires Inv(w) && Enabled(w, e)
    ensures Inv(Apply(w, e))
  {
    match e
    case Init(_, _, _, _, _) => InitKeepsInv(w, e);
    case Begin(t, req) => BeginKeepsInv(w, t, req);
    case Step(t, x) => StepKeepsInv(w, t, x);
    case Reset(t, id) => ResetKeepsInv(w, t, id);
    case Destroy(t, id) => DestroyKeepsInv(w, t, id);
    case Restart(t) => RestartKeepsInv(w, t);
  }

  // ------------------------------------------------------------------ runs

  /** Before the first arena. */
  ghost predicate Initial(w: World) {
    w.next == 0 && w.arenas == map[] && forall t :: t in w.locals ==> w.locals[t] == UNUSED
  }

  lemma InitialInv(w: World)
    requires Initial(w)
    ensures Inv(w)
  {
  }

  ghost predicate Runs(w: World, es: seq<Event>, w': World)
    requires Inv(w)
    decreases |es|
  {
    if es == [] then w' == w
    else Enabled(w, es[0]) && (EventKeepsInv(w, es[0]); Runs(Apply(w, es[0]), es[1..], w'))
  }

  ghost predicate Reachable(w: World) {
    exists w0, es :: Initial(w0) && (InitialInv(w0); Runs(w0, es, w))
  }

  lemma {:induction false} RunKeepsInv(w: World, es: seq<Event>, w': World)
    requires Inv(w) && Runs(w, es, w')
    ensures Inv(w')
    decreases |es|
  {
    if es == [] {
    } else {
      EventKeepsInv(w, es[0]);
      RunKeepsInv(Apply(w, es[0]), es[1..], w');
    }
  }

  lemma ReachableInv(w: World)
    requires Reachable(w)
    ensures Inv(w)
  {
    var w0, es :| Initial(w0) && (InitialInv(w0); Runs(w0, es, w));
    InitialInv(w0);
    RunKeepsInv(w0, es, w);
  }

  lemma ReachableArena(w: World, id: ArenaId)
    requires Reachable(w) && id in w.arenas
    ensures ArenaOk(w.arenas[id])
  {
    ReachableInv(w);
  }

  lemma ReachableThread(w: World, id: ArenaId, t: Thread)
    requires Reachable(w) && id in w.arenas && t in w.locals
    ensures ListOk(w.arenas[id]) && Compatible(id, w.arenas[id], t, w.locals[t])
  {
    ReachableInv(w);
  }

  lemma BusyArena(w: World, t: Thread)
    requires Reachable(w) && t in w.locals && !w.locals[t].phase.Idle?
    ensures w.locals[t].phase.req.arena in w.arenas
  {
    ReachableInv(w);
  }

  lemma DebtorsAreStoring(w: World, id: ArenaId)
    requires Reachable(w) && id in w.arenas
    ensures var d := w.arenas[id].cleanup.pending;
      forall p :: p in d ==> d[p] in w.locals && Busy(w.locals[d[p]], id) && w.locals[d[p]].phase.Storing?
  {
    ReachableInv(w);
    var d := w.arenas[id].cleanup.pending;
    forall p | p in d ensures d[p] in w.locals && Busy(w.locals[d[p]], id) && w.locals[d[p]].phase.Storing? {
      ReachableThread(w, id, d[p]);
    }
  }

  // ------------------------------------------------------------------ what holds in every reachable state

  /** Memory handed out in one arena since its last Reset: pieces of live blocks behind the block
      header, 8-aligned, as long as asked for, and no two of them overlap. */
  lemma RegionsAreSafe(w: World, id: ArenaId)
    requires Reachable(w) && id in w.arenas
    ensures var a := w.arenas[id]; var rs := a.regions;
      && (forall i :: 0 <= i < |rs| ==>
            && rs[i].block in a.chain && rs[i].block in a.body && HEADER <= rs[i].lo && rs[i].lo + rs[i].len <= a.body[rs[i].block].size
            && rs[i].lo % 8 == 0 && rs[i].asked <= rs[i].len)
      && (forall i, j :: 0 <= i < j < |rs| && rs[i].block == rs[j].block ==> rs[i].lo + rs[i].len <= rs[j].lo)
  {
    ReachableArena(w, id);
  }

  /** No block is in two arenas. */
  lemma ArenasShareNothing(w: World, i: ArenaId, j: ArenaId, x: Base)
    requires Reachable(w) && i in w.arenas && j in w.arenas && i != j && x in w.arenas[i].chain
    ensures x !in w.arenas[j].chain && w.arenas[i].lifecycle != w.arenas[j].lifecycle
  {
    ReachableInv(w);
    assert ArenaOk(w.arenas[i]) && ArenaOk(w.arenas[j]);
    assert x in w.arenas[i].body.Keys;
  }

  /** The fast paths refine the search. In every reachable state a block cached under the arena's
      lifecycle id and a block in `hint_` are in its list, though addresses of freed blocks come back.
      Each is the one that FindBlock would return, except while the thread is about to name there the
      block of its own that it has just linked in, when it has passed its checks of both. */
  lemma FastPathsFind(w: World, id: ArenaId, t: Thread)
    requires Reachable(w) && id in w.arenas && t in w.locals
    ensures var a, l := w.arenas[id], w.locals[t];
      && ListOk(a)
      && (l.seen == a.lifecycle && l.last.Some? ==> l.last.value in a.chain)
      && (l.seen == a.lifecycle && l.last.Some? && !CacheLags(id, a, t, l) ==> Find(a, t) == l.last)
      && (a.hint.Some? ==> a.hint.value in a.chain)
      && (a.hint.Some? && a.body[a.hint.value].owner == Some(t) && !(Busy(l, id) && l.phase.Publishing?) ==>
            Find(a, t) == a.hint)
  {
    ReachableThread(w, id, t);
  }

  /** A block that a thread is about to bump is in the arena's list, belongs to it, has room, and its
      `pos` is still what the thread has read. */
  lemma OnlyTheOwnerBumps(w: World, t: Thread)
    requires Reachable(w) && t in w.locals && w.locals[t].phase.Writing?
    ensures w.locals[t].phase.req.arena in w.arenas
    ensures var l := w.locals[t]; var a := w.arenas[l.phase.req.arena];
      && l.phase.block in a.chain && l.phase.block in a.body && a.body[l.phase.block].owner == Some(t)
      && a.body[l.phase.block].pos == l.phase.p && l.phase.p + l.phase.req.n <= a.body[l.phase.block].size
  {
    BusyArena(w, t);
    ReachableThread(w, w.locals[t].phase.req.arena, t);
  }

  /** What a call returns is memory recorded as handed out, for its own request. */
  lemma CallsReturnTheirMemory(w: World, t: Thread)
    requires Reachable(w) && t in w.locals && Returned(w.locals[t]).Some?
    ensures var l := w.locals[t]; var id := l.phase.req.arena;
      && id in w.arenas && Ready(id, w.arenas[id], t, l)
      && Region(Returned(l).value.block, Returned(l).value.lo, l.phase.req.n, l.phase.req.asked)
           in StepArena(id, w.arenas[id], t, l).regions
  {
    BusyArena(w, t);
    ReachableThread(w, w.locals[t].phase.req.arena, t);
    ReachableArena(w, w.locals[t].phase.req.arena);
  }

  /** While no call is between its exchange and its store, CleanupList reaches every registered object
      exactly once, the last registered first, and all its nodes are in memory still handed out. */
  lemma CleanupRunsAll(w: World, id: ArenaId, fuel: nat)
    requires Reachable(w) && id in w.arenas && fuel >= |w.arenas[id].cleanup.pushed|
    requires forall t :: t in w.locals && Busy(w.locals[t], id) ==> !w.locals[t].phase.Storing?
    ensures var c := w.arenas[id].cleanup;
      && Walk(c.links, c.head, fuel) == Reversed(c.pushed) && NoDuplicates(c.pushed)
      && Cleaned(c.links, c.head, fuel) == Reversed(c.elems)
      && (forall i :: 0 <= i < |c.pushed| ==> c.pushed[i].block in w.arenas[id].chain && IsNode(w.arenas[id].regions, c.pushed[i]))
  {
    var a := w.arenas[id];
    DebtorsAreStoring(w, id);
    ReachableArena(w, id);
    CleanupChain(a.cleanup, a.regions, fuel);
    forall i | 0 <= i < |a.cleanup.pushed| ensures a.cleanup.pushed[i].block in a.chain {
      assert IsNode(a.regions, a.cleanup.pushed[i]);
    }
  }

  /** SpaceUsed is the sum of the rounded requests; blocks superseded or full at birth are at most
      half empty. */
  lemma SpaceIsAccounted(w: World, id: ArenaId)
    requires Reachable(w) && id in w.arenas
    ensures var a := w.arenas[id];
      && ListOk(a)
      && SpaceUsed(a) == SumRegions(a.regions)
      && (forall i :: 0 <= i < |a.regions| ==> Rounded(a.regions[i].len, a.regions[i].asked))
      && Superseded(a.chain, a.body, {}) <= 2 * SpaceUsed(a)
  {
    ReachableArena(w, id);
    SpaceBound(w.arenas[id]);
  }

  /** A thread's blocks in an arena double in size up to the limit, in every reachable state: the first has
      the start size, or is the caller's, and the one after `k` others has 2^k times that size or, if
      less, the maximum. Blocks made larger for a large request are nobody's. */
  lemma BlocksDouble(w: World, id: ArenaId, t: Thread, k: nat)
    requires Reachable(w) && id in w.arenas
    ensures ListOk(w.arenas[id])
    ensures var a := w.arenas[id]; var s := SizesOf(a.chain, a.body, t);
      var first := if a.user.Some? && a.body[a.user.value].owner == Some(t) then a.body[a.user.value].size else a.start;
      k < |s| ==> s[k] == if k == 0 then first else if Power2(k) * first > a.max then a.max else Power2(k) * first
  {
    ReachableArena(w, id);
    var a := w.arenas[id];
    SizesDouble(a.chain, a.body, a.start, a.max, a.user, t);
  }

  /** A thread links in a new block only if its newest has no room for the request, whatever other threads
      did since it looked; the block has room for it, and belongs to the thread unless that fills it. */
  lemma NewBlockOnlyIfNeeded(w: World, t: Thread)
    requires Reachable(w) && t in w.locals && w.locals[t].phase.Linking?
    ensures w.locals[t].phase.req.arena in w.arenas && ListOk(w.arenas[w.locals[t].phase.req.arena])
    ensures var l := w.locals[t]; var a, b := w.arenas[l.phase.req.arena], l.phase.made;
      && (Find(a, t).Some? ==> a.body[Find(a, t).value].size < a.body[Find(a, t).value].pos + l.phase.req.n)
      && b.pos == HEADER + l.phase.req.n <= b.size && b.owner == (if b.pos == b.size then None else Some(t))
  {
    BusyArena(w, t);
    ReachableThread(w, w.locals[t].phase.req.arena, t);
  }

  /** Once a search has found a block, cache and hint name it; a block linked in becomes the hint and then
      the cached one, unless it is full. */
  lemma BlocksAreNamed(w: World, t: Thread, x: Base)
    requires Reachable(w) && Enabled(w, Step(t, x))
    ensures var l := w.locals[t]; var id := l.phase.req.arena; id in w.arenas && Ready(id, w.arenas[id], t, l)
    ensures var l := w.locals[t]; var id := l.phase.req.arena;
      var a, a', l' := w.arenas[id], StepArena(id, w.arenas[id], t, l), StepLocal(id, w.arenas[id], t, l, x);
      match l.phase
      case Searching(_) => l'.phase.Hinting? ==> l'.last == Find(a, t) == Some(l'.phase.block) && l'.seen == a.lifecycle
      case Hinting(_, b) => a'.hint == Some(b)
      case Publishing(_, b) => a'.hint == if a.body[b].pos < a.body[b].size then Some(b) else a.hint
      case Adopting(_, b) => a.body[b].owner == Some(t) ==> l'.last == Some(b) && l'.seen == a.lifecycle
      case _ => a'.hint == a.hint && l'.last == l.last && l'.seen == l.seen
  {
    BusyArena(w, t);
    ReachableThread(w, w.locals[t].phase.req.arena, t);
    ReachableArena(w, w.locals[t].phase.req.arena);
  }

  /** A step touches only the arena of its request. */
  lemma StepsStayInTheirArena(w: World, t: Thread, x: Base, id: ArenaId)
    requires Reachable(w) && Enabled(w, Step(t, x)) && id in w.arenas && !Busy(w.locals[t], id)
    ensures Inv(w) && id in Apply(w, Step(t, x)).arenas && Apply(w, Step(t, x)).arenas[id] == w.arenas[id]
  {
    ReachableInv(w);
  }

  /** The exchange of AddListNode registers the object of its request, with the node at the address that
      its allocation returned; no other step registers anything. */
  lemma OnlyExchangesRegister(w: World, t: Thread, x: Base)
    requires Reachable(w) && Enabled(w, Step(t, x))
    ensures var l := w.locals[t]; var id := l.phase.req.arena;
      && id in w.arenas && Ready(id, w.arenas[id], t, l)
      && var c, c' := w.arenas[id].cleanup, StepArena(id, w.arenas[id], t, l).cleanup;
         if l.phase.Exchanging? then
           c'.pushed == c.pushed + [l.phase.node] && c'.elems == c.elems + [l.phase.req.purpose.elem]
         else c'.pushed == c.pushed && c'.elems == c.elems
    ensures var l := w.locals[t]; var id := l.phase.req.arena;
      Returned(l).Some? ==>
        var p := StepLocal(id, w.arenas[id], t, l, x).phase;
        if l.phase.req.purpose.Plain? then p == Idle else p == Exchanging(l.phase.req, Returned(l).value)
  {
    BusyArena(w, t);
    ReachableThread(w, w.locals[t].phase.req.arena, t);
    ReachableArena(w, w.locals[t].phase.req.arena);
  }

  /** There it keeps all memory handed out, and moves only positions of the thread's own blocks. */
  lemma StepsKeepMemory(w: World, t: Thread, x: Base, id: ArenaId)
    requires Reachable(w) && Enabled(w, Step(t, x)) && id in w.arenas && Busy(w.locals[t], id)
    ensures Ready(id, w.arenas[id], t, w.locals[t])
    ensures var a, a' := w.arenas[id], StepArena(id, w.arenas[id], t, w.locals[t]);
      && a.regions <= a'.regions
      && (forall y :: y in a.body ==> y in a'.body && (a.body[y].owner != Some(t) ==> a'.body[y] == a.body[y]))
  {
    ReachableThread(w, id, t);
    ReachableArena(w, id);
    StepKeeps(id, w.arenas[id], t, w.locals[t], x);
  }

  /** `a'` is `a` without its blocks but the caller's, which `t` owns, and with nothing handed out. */
  ghost predicate StartsOver(a: Arena<Base>, a': Arena<Base>, t: Thread)
    requires ListOk(a)
  {
    && ListOk(a') && SpaceUsed(a') == 0 && a'.regions == [] && a'.cleanup.pushed == [] && a'.cleanup.head == None
    && a'.chain == (if a.user.None? then [] else [a.user.value])
    && (a.user.Some? ==> a'.body[a.user.value].size == a.body[a.user.value].size && Find(a', t) == a.user)
    && a'.user == a.user && a'.start == a.start && a'.max == a.max
  }

  lemma ResetArena(a: Arena<Base>, lifecycle: int, t: Thread)
    requires ListOk(a)
    ensures StartsOver(a, WasReset(a, lifecycle, t), t)
  {
    StartedOk(lifecycle, a.start, a.max, UserBlock(a), t);
  }

  /** Reset leaves the caller's block alone or nothing, with no space used; its new lifecycle id is in no
      other thread's cache, and no other arena has it. */
  lemma ResetStartsOver(w: World, t: Thread, id: ArenaId)
    requires Reachable(w) && Enabled(w, Reset(t, id))
    ensures Inv(w) && ListOk(w.arenas[id]) && id in Apply(w, Reset(t, id)).arenas
    ensures StartsOver(w.arenas[id], Apply(w, Reset(t, id)).arenas[id], t)
  {
    ReachableInv(w);
    ReachableArena(w, id);
    ResetArena(w.arenas[id], w.next, t);
  }

  lemma ResetInvalidatesCaches(w: World, t: Thread, id: ArenaId, u: Thread)
    requires Reachable(w) && Enabled(w, Reset(t, id)) && u in w.locals && u != t
    ensures Inv(w) && u in Apply(w, Reset(t, id)).locals && id in Apply(w, Reset(t, id)).arenas
    ensures var w' := Apply(w, Reset(t, id)); w'.locals[u].seen != w'.arenas[id].lifecycle
  {
    ReachableInv(w);
  }

  lemma ResetTakesFreshId(w: World, t: Thread, id: ArenaId, i: ArenaId)
    requires Reachable(w) && Enabled(w, Reset(t, id)) && i in w.arenas && i != id
    ensures Inv(w) && i in Apply(w, Reset(t, id)).arenas && id in Apply(w, Reset(t, id)).arenas
    ensures var w' := Apply(w, Reset(t, id)); w'.arenas[i] == w.arenas[i] && w'.arenas[i].lifecycle != w'.arenas[id].lifecycle
  {
    ReachableInv(w);
  }
}
