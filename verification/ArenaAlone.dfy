/** A thread that allocates without being interrupted: its steps come to what AllocateAligned does as
    one call. */
module ArenaAlone {
  import opened Options
  import opened ArenaModel
  import opened ArenaThread
  import opened ArenaProof

  /** Between the call of AllocateAligned and its return. */
  predicate Allocating<X>(p: Phase<X>) { !p.Idle? && !p.Exchanging? && !p.Storing? }

  /** No more than this many steps to the return. */
  function StepsLeft<X>(p: Phase<X>): nat {
    match p
    case Asking(_) => 5
    case Searching(_) => 4
    case Hinting(_, _) => 3
    case Reading(_, _) => 2
    case Linking(_, _, _) => 3
    case Publishing(_, _) => 2
    case _ => 1
  }

  ghost predicate CanRun<X>(id: ArenaId, a: Arena<X>, t: Thread, l: Local<X>, x: X) {
    && Ready(id, a, t, l) && Allocating(l.phase)
    && (l.phase.Asking? || l.phase.Searching? ==> x !in a.body)
  }

  lemma NextPhase<X>(id: ArenaId, a: Arena<X>, t: Thread, l: Local<X>, x: X)
    requires CanRun(id, a, t, l, x) && Returned(l).None?
    ensures var p := StepLocal(id, a, t, l, x).phase;
      && Allocating(p) && p.req == l.phase.req && StepsLeft(p) < StepsLeft(l.phase) && !p.Asking?
      && (p.Searching? ==> l.phase.Asking?)
  {
    match l.phase
    case Asking(_) =>
    case Searching(_) =>
    case _ =>
  }

  lemma RunsOn<X>(id: ArenaId, a: Arena<X>, t: Thread, l: Local<X>, x: X)
    requires CanRun(id, a, t, l, x) && Returned(l).None?
    ensures var l' := StepLocal(id, a, t, l, x);
      && CanRun(id, StepArena(id, a, t, l), t, l', x)
      && StepsLeft(l'.phase) < StepsLeft(l.phase) && l'.phase.req == l.phase.req
  {
    NextPhase(id, a, t, l, x);
    StepKeeps(id, a, t, l, x);
  }

  /** The arena when the call returns, and the address returned; `x` is what the allocator gives if it is
      asked. */
  ghost function Alone<X>(id: ArenaId, a: Arena<X>, t: Thread, l: Local<X>, x: X): (Arena<X>, Addr<X>)
    requires CanRun(id, a, t, l, x)
    decreases StepsLeft(l.phase)
  {
    if Returned(l).Some? then (StepArena(id, a, t, l), Returned(l).value)
    else
      RunsOn(id, a, t, l, x);
      Alone(id, StepArena(id, a, t, l), t, StepLocal(id, a, t, l, x), x)
  }

  /** Block list, headers and address, in the order of Outcome. */
  ghost function Visible<X>(r: (Arena<X>, Addr<X>)): (seq<X>, map<X, Block>, X, nat) {
    (r.0.chain, r.0.body, r.1.block, r.1.lo)
  }

  lemma AdoptingAlone<X>(id: ArenaId, a: Arena<X>, t: Thread, l: Local<X>, x: X)
    requires CanRun(id, a, t, l, x) && (l.phase.Publishing? || l.phase.Adopting?)
    ensures Visible(Alone(id, a, t, l, x)) == (a.chain, a.body, l.phase.block, HEADER)
    decreases StepsLeft(l.phase)
  {
    if l.phase.Adopting? {
    } else {
      RunsOn(id, a, t, l, x);
      AdoptingAlone(id, StepArena(id, a, t, l), t, StepLocal(id, a, t, l, x), x);
    }
  }

  lemma LinkingAlone<X>(id: ArenaId, a: Arena<X>, t: Thread, l: Local<X>, x: X)
    requires CanRun(id, a, t, l, x) && l.phase.Linking?
    ensures Visible(Alone(id, a, t, l, x)) ==
      ([l.phase.block] + a.chain, a.body[l.phase.block := l.phase.made], l.phase.block, HEADER)
  {
    RunsOn(id, a, t, l, x);
    AdoptingAlone(id, StepArena(id, a, t, l), t, StepLocal(id, a, t, l, x), x);
  }

  lemma WritingAlone<X>(id: ArenaId, a: Arena<X>, t: Thread, l: Local<X>, x: X)
    requires CanRun(id, a, t, l, x) && l.phase.Writing?
    ensures Visible(Alone(id, a, t, l, x)) == Outcome(a.chain, a.body, t, l.phase.req.n, a.start, a.max, x)
  {
    OutcomeFits(a.chain, a.body, t, l.phase.req.n, a.start, a.max, l.phase.block, l.phase.p);
  }

  /** Where the search leads: a block that has room, or a new one. */
  lemma SearchedAlone<X>(id: ArenaId, a: Arena<X>, t: Thread, l: Local<X>, x: X)
    requires CanRun(id, a, t, l, x) && l.phase.Searching? && StepLocal(id, a, t, l, x).phase.Linking?
    ensures Visible(Alone(id, a, t, l, x)) == Outcome(a.chain, a.body, t, l.phase.req.n, a.start, a.max, x)
  {
    RunsOn(id, a, t, l, x);
    LinkingAlone(id, a, t, StepLocal(id, a, t, l, x), x);
  }

  /** Steps before the one that writes `pos` or links a block leave list and headers alone. */
  lemma StillSame<X>(id: ArenaId, a: Arena<X>, t: Thread, l: Local<X>)
    requires Ready(id, a, t, l) && (l.phase.Asking? || l.phase.Searching? || l.phase.Hinting? || l.phase.Reading?)
    ensures var a' := StepArena(id, a, t, l);
      a'.chain == a.chain && a'.body == a.body && a'.start == a.start && a'.max == a.max
  {
  }

  /** The steps of an allocation, run without interruption, come to the outcome of the search, whatever
      cache and `hint_` hold: exactly what ArenaBlocks.Arena.AllocateAligned ensures. */
  lemma {:induction false} AloneIsOutcome<X>(id: ArenaId, a: Arena<X>, t: Thread, l: Local<X>, x: X)
    requires CanRun(id, a, t, l, x)
    requires !l.phase.Linking? && !l.phase.Publishing? && !l.phase.Adopting?
    ensures Visible(Alone(id, a, t, l, x)) == Outcome(a.chain, a.body, t, l.phase.req.n, a.start, a.max, x)
    decreases StepsLeft(l.phase)
  {
    if l.phase.Writing? {
      WritingAlone(id, a, t, l, x);
    } else if StepLocal(id, a, t, l, x).phase.Linking? {
      SearchedAlone(id, a, t, l, x);
    } else {
      RunsOn(id, a, t, l, x);
      StillSame(id, a, t, l);
      AloneIsOutcome(id, StepArena(id, a, t, l), t, StepLocal(id, a, t, l, x), x);
    }
  }
}
