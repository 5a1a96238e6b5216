/** Preemptive threads as a whole: example/ex11-threads-preemptive.c on the machine of
    ContextSwitch, with the ring of RunQueue kept in the thread structures in memory. This file
    has the state, the steps and what memory looks like; the invariant's proof follows in
    ThreadSwitch and ThreadCreate, and the theorems about runs in Preempt. */
module ThreadSystem {
  import opened Common
  import opened Rv32
  import opened ContextSwitch
  import R = RunQueue
  import XosTrap

  const MEMORY_TOP := 0x4200_0000
  const HEAP_START := 0x4010_0000
  const STACK := 4096
  const ALLOC := 96  // what alloc(sizeof(thread_t)) takes

  /** `tops` gives the stack top of every thread ever created, by the address of its thread
      structure; `ring` the live ones in the order they are to run, the current one first;
      `parked` what each was doing when it was last switched out. */
  datatype Sys = Sys(x: Regs, mem: Mem, pc: Word, st: R.Status, heap: Word, nextStack: Word,
                     tops: map<Word, Word>, ring: seq<Word>, parked: map<Word, Snap>)

  // ---- Memory ----

  function Fill(m: Mem, lo: Word, words: nat, v: Word): Mem
    requires lo + 4 * words <= TWO32
  {
    if words == 0 then m else Put(Fill(m, lo, words - 1, v), lo + 4 * (words - 1), v)
  }

  lemma {:induction false} FillAt(m: Mem, lo: Word, words: nat, v: Word)
    requires lo + 4 * words <= TWO32
    ensures forall a: Word :: Load(Fill(m, lo, words, v), a) == if lo <= a < lo + 4 * words && (a - lo) % 4 == 0
        then v else Load(m, a)
  {
    if words > 0 {
      FillAt(m, lo, words - 1, v);
    }
  }

  lemma Cleared(m: Mem, lo: Word, words: nat)
    requires lo + 4 * words <= TWO32
    ensures forall i | 0 <= i < words :: Load(Fill(m, lo, words, 0), lo + 4 * i) == 0
    ensures forall a: Word | !(lo <= a < lo + 4 * words) :: Load(Fill(m, lo, words, 0), a) == Load(m, a)
  {
    FillAt(m, lo, words, 0);
    forall i | 0 <= i < words
      ensures Load(Fill(m, lo, words, 0), lo + 4 * i) == 0
    {
      assert (lo + 4 * i - lo) % 4 == 0;
    }
  }

  /** The `next` or `prev` field of each thread structure. */
  function LinkMap(m: Mem, keys: set<Word>, off: Word): map<R.Ptr, R.Ptr> {
    map t: Word | t in keys :: Load(m, Addr(t, off))
  }

  // ---- Where things are ----

  predicate Mine(t: Word, top: Word, a: Word) { t <= a < t + SIZE || top - STACK <= a < top }

  predicate Aligned(n: nat, a: int)
    requires n > 0
  {
    a % n == 0
  }

  ghost predicate Layout(s: Sys) {
    && Aligned(32, s.heap) && Aligned(STACK, s.nextStack) && 0 < s.heap <= s.nextStack <= MEMORY_TOP
    && (forall t | t in s.tops :: 0 < t && Aligned(4, t) && t + SIZE <= s.heap)
    && (forall t | t in s.tops :: s.nextStack + STACK <= s.tops[t] <= MEMORY_TOP && Aligned(STACK, s.tops[t]))
    && (forall t, u | t in s.tops && u in s.tops && t < u :: t + SIZE <= u)
    && (forall t, u | t in s.tops && u in s.tops && t != u :: s.tops[t] != s.tops[u])
  }

  predicate SpOk(c: Code, sp: Word, top: Word) { sp % 4 == 0 && top - STACK + Room(c) <= sp <= top }

  ghost predicate Linked(s: Sys) {
    && R.NextLinks(LinkMap(s.mem, s.tops.Keys, NEXT), s.ring)
    && R.PrevLinks(LinkMap(s.mem, s.tops.Keys, PREV), s.ring)
  }

  ghost predicate Ready(c: Code, m: Mem, t: Word, top: Word, s: Snap) {
    Saved(c, m, t, s) && s.x[TP] == t && SpOk(c, s.x[SP], top)
  }

  ghost predicate InRing(s: Sys) {
    s.ring != [] && R.Distinct(s.ring) && forall t | t in s.ring :: t in s.tops
  }

  ghost predicate AllReady(c: Code, s: Sys)
    requires InRing(s)
  {
    forall t | t in s.ring && t != s.ring[0] :: t in s.parked && Ready(c, s.mem, t, s.tops[t], s.parked[t])
  }

  /** What holds while a thread runs. */
  ghost predicate Inv(c: Code, s: Sys) {
    && Layout(s) && InRing(s) && Linked(s)
    && s.x[TP] == s.ring[0] && SpOk(c, s.x[SP], s.tops[s.ring[0]]) && s.st.supervisor
    && AllReady(c, s)
  }

  lemma Apart(s: Sys, t: Word, u: Word, a: Word)
    requires Layout(s) && t in s.tops && u in s.tops && t != u
    ensures !(Mine(t, s.tops[t], a) && Mine(u, s.tops[u], a))
  {
    Multiples(s.tops[t], s.tops[u]);
    hide Aligned;
  }

  /** Stack tops are whole stacks apart. */
  lemma Multiples(a: int, b: int)
    requires Aligned(STACK, a) && Aligned(STACK, b) && a != b
    ensures a + STACK <= b || b + STACK <= a
  {
  }

  lemma NewAlignment(heap: int, nextStack: int)
    requires Aligned(32, heap) && Aligned(STACK, nextStack)
    ensures Aligned(4, heap) && Aligned(32, heap + ALLOC) && Aligned(STACK, nextStack - STACK)
  {
  }

  lemma TouchedIsMine(c: Code, t: Word, top: Word, sp: Word, a: Word)
    requires SpOk(c, sp, top) && Touched(c, t, sp, a)
    ensures Mine(t, top, a)
  {
  }

  lemma PlacedThread(c: Code, s: Sys, t: Word, sp: Word)
    requires Layout(s) && t in s.tops && SpOk(c, sp, s.tops[t])
    ensures Placed(c, t, sp)
  {
  }

  // ---- Steps ----

  datatype Event =
    | Runs(x: Regs, mem: Mem, pc: Word, size: nat)  // thread code; it may alloc(size)
    | Timer(scause: Word, junk: Regs)
    | Spurious(scause: Word, junk: Regs, framed: bool)  // an interrupt, but no timer pending
    | Create(id: Word, fn: Word, arg: Word)
    | Exit(junk: Regs)

  /** Addresses that thread code keeps away from: thread structures, and other live threads'
      stacks. */
  ghost predicate Guarded(s: Sys, a: Word)
    requires InRing(s)
  {
    (exists t | t in s.tops :: t <= a < t + SIZE) ||
      (exists t | t in s.ring && t != s.ring[0] :: s.tops[t] - STACK <= a < s.tops[t])
  }

  function RoundUp(size: nat): nat { (size + 31) / 32 * 32 }

  ghost predicate Enabled(c: Code, s: Sys, e: Event)
    requires InRing(s)
  {
    match e
    case Runs(x, mem, pc, size) =>
      && x[TP] == s.x[TP] && SpOk(c, x[SP], s.tops[s.ring[0]]) && s.heap + RoundUp(size) <= s.nextStack
      && forall a: Word | Guarded(s, a) :: Load(mem, a) == Load(s.mem, a)
    case Timer(_, _) => s.st.sie
    case Spurious(_, _, _) => s.st.sie
    case Create(_, _, _) => s.heap + ALLOC + STACK <= s.nextStack
    case Exit(_) => |s.ring| > 1
  }

  // ---- thread_create and thread_exit, in memory ----

  /** The thread structure's links, and those of its neighbours to it. */
  function LinkIn(m: Mem, cur: Word, t: Word): Mem {
    var m1 := Put(m, Addr(t, NEXT), cur);
    var m2 := Put(m1, Addr(t, PREV), Load(m1, Addr(cur, PREV)));
    var m3 := Put(m2, Addr(Load(m2, Addr(t, PREV)), NEXT), t);
    Put(m3, Addr(Load(m3, Addr(t, NEXT)), PREV), t)
  }

  function LinkOut(m: Mem, cur: Word): Mem {
    var n, p := Load(m, Addr(cur, NEXT)), Load(m, Addr(cur, PREV));
    Put(Put(Put(Put(m, Addr(n, PREV), p), Addr(p, NEXT), n), Addr(cur, PREV), 0), Addr(cur, NEXT), 0)
  }

  const MAGIC: Word := 0x5c95bec3
  const STACK_FILL: Word := 0xeeee_eeee
  const STACK_WORDS := 1024
  const TFRAME_WORDS := 20
  const ALLOC_WORDS := 24

  const CTXT_PC := 16 + 0x00
  const CTXT_SP := 16 + 0x04
  const CTXT_TP := 16 + 0x0C

  /** The stack and pc of a new thread's context: it is to "return" into trap_exit. */
  function NewContext(c: Code, m: Mem, t: Word, top: Word): Mem {
    var m1 := Put(m, Addr(t, CTXT_SP), top);
    var m2 := Put(m1, Addr(t, CTXT_PC), c.trapExit);
    Put(m2, Addr(t, CTXT_SP), Addr(top, TWO32 - XosTrap.FRAME))
  }

  /** The trap frame of a new thread: fn(arg), and then thread_exit. */
  function NewFrame(c: Code, m: Mem, sp: Word, fn: Word, arg: Word): Mem
    requires sp + XosTrap.FRAME <= TWO32
  {
    var m1 := Fill(m, sp, TFRAME_WORDS, 0);
    Put(Put(Put(m1, Addr(sp, 0x00), c.threadExit), Addr(sp, 0x20), arg), Addr(sp, XosTrap.PC_OFF), fn)
  }

  /** alloc, and the first two fields. */
  function NewStruct(m: Mem, t: Word, id: Word): Mem
    requires t + ALLOC <= TWO32
  {
    Put(Put(Fill(m, t, ALLOC_WORDS, 0), t, MAGIC), Addr(t, 4), id)
  }

  /** The context, alloc_stack and the trap frame. */
  function NewStack(c: Code, m: Mem, t: Word, top: Word, fn: Word, arg: Word): Mem
    requires STACK <= top
  {
    var m1 := Fill(Put(m, Addr(t, CTXT_TP), t), top - STACK, STACK_WORDS, STACK_FILL);
    NewFrame(c, NewContext(c, m1, t, top), top - XosTrap.FRAME, fn, arg)
  }

  function Created(c: Code, m: Mem, cur: Word, t: Word, id: Word, top: Word, fn: Word, arg: Word): Mem
    requires t + ALLOC <= top - STACK && top >= STACK
  {
    NewStack(c, LinkIn(NewStruct(m, t, id), cur, t), t, top, fn, arg)
  }

  /** What a new thread starts with: fn as its pc, its argument, its stack, thread_exit to
      return to, and zeros. */
  function Fresh(c: Code, t: Word, top: Word, fn: Word, arg: Word): Snap {
    var zeros: Regs := seq(32, _ => 0);
    Snap(Set(Set(Set(Set(zeros, RA, c.threadExit), SP, top), TP, t), A0, arg), fn,
         Set(Set(Set(zeros, RA, c.trapExit), SP, Addr(top, TWO32 - XosTrap.FRAME)), TP, t))
  }

  // ---- Steps of the whole system ----

  /** The second half of context_switch, and on to the sret of the thread switched to. */
  function SwitchTo(c: Code, s: Sys, x: Regs): Option<Sys>
    requires Compiled(c)
  {
    match Resume(c, LoadContext(Point(x, s.mem)))
    case Stuck => None
    case User(y, pc) => Some(s.(x := y, pc := pc, st := R.Sret(s.st)))
  }

  /** Between the two halves of context_switch, on a timer interrupt. */
  function Interrupted(c: Code, s: Sys, scause: Word, junk: Regs): Sys
    requires s.ring != []
  {
    var p, cur := Point(s.x, s.mem), s.ring[0];
    s.(mem := Away(c, p, s.pc, scause, junk).mem, st := R.TakeTrap(s.st), ring := s.ring[1..] + [cur],
       parked := s.parked[cur := Taken(c, p, s.pc, scause, junk)])
  }

  function OnTimer(c: Code, s: Sys, scause: Word, junk: Regs): Option<Sys>
    requires Compiled(c) && s.ring != []
  {
    SwitchTo(c, Interrupted(c, s, scause, junk), Away(c, Point(s.x, s.mem), s.pc, scause, junk).x)
  }

  function OnSpurious(c: Code, s: Sys, scause: Word, junk: Regs, framed: bool): Option<Sys>
    requires Compiled(c)
  {
    var (u, m) := Ignored(c, Point(s.x, s.mem), s.pc, scause, junk, framed);
    if u == Stuck then None else Some(s.(x := u.x, pc := u.pc, mem := m, st := R.Sret(R.TakeTrap(s.st))))
  }

  function OnCreate(c: Code, s: Sys, id: Word, fn: Word, arg: Word): Sys
    requires s.heap + ALLOC + STACK <= s.nextStack
  {
    var t, top := s.heap, s.nextStack;
    s.(mem := Created(c, s.mem, s.x[TP], t, id, top, fn, arg), x := Set(s.x, A0, t), st := s.st.(sie := true),
       heap := t + ALLOC, nextStack := top - STACK, tops := s.tops[t := top], ring := s.ring + [t],
       parked := s.parked[t := Fresh(c, t, top, fn, arg)])
  }

  /** Between the two halves of context_switch, in thread_exit. */
  function Departed(c: Code, s: Sys, junk: Regs): Sys
    requires s.ring != []
  {
    s.(mem := SaveContext(Point(ExitCall(s.mem, s.x[TP], junk), LinkOut(s.mem, s.x[TP]))).mem, ring := s.ring[1..],
       st := s.st.(sie := false, spp := true, spie := true))
  }

  /** The registers with which thread_exit calls context_switch. */
  function ExitCall(m: Mem, tp: Word, junk: Regs): Regs {
    Set(Set(Set(junk, TP, tp), A0, Addr(tp, CTXT)), A1, Addr(Load(m, Addr(tp, NEXT)), CTXT))
  }

  function OnExit(c: Code, s: Sys, junk: Regs): Option<Sys>
    requires Compiled(c) && s.ring != []
  {
    SwitchTo(c, Departed(c, s, junk), ExitCall(s.mem, s.x[TP], junk))
  }

  function Step(c: Code, s: Sys, e: Event): Option<Sys>
    requires Compiled(c) && s.ring != [] && (e.Create? ==> s.heap + ALLOC + STACK <= s.nextStack)
  {
    match e
    case Runs(x, mem, pc, size) =>
      if s.heap + RoundUp(size) < TWO32 then Some(s.(x := x, mem := mem, pc := pc, heap := s.heap + RoundUp(size)))
          else None
    case Timer(scause, junk) => OnTimer(c, s, scause, junk)
    case Spurious(scause, junk, framed) => OnSpurious(c, s, scause, junk, framed)
    case Create(id, fn, arg) => Some(OnCreate(c, s, id, fn, arg))
    case Exit(junk) => OnExit(c, s, junk)
  }

  // ---- Links in memory ----

  /** Thread structures apart from each other and from the end of memory. */
  ghost predicate Spaced(keys: set<Word>) {
    && (forall t | t in keys :: t + SIZE <= TWO32)
    && (forall t, u | t in keys && u in keys && t < u :: t + SIZE <= u)
  }

  predicate IsLink(off: Word) { off == NEXT || off == PREV }

  lemma LinkMapPut(m: Mem, keys: set<Word>, off: Word, off': Word, t: Word, v: Word)
    requires Spaced(keys) && t in keys && IsLink(off) && IsLink(off')
    ensures var m' := Put(m, Addr(t, off), v);
            LinkMap(m', keys, off') == if off' == off then LinkMap(m, keys, off')[t := v] else LinkMap(m, keys, off')
  {
    var m' := Put(m, Addr(t, off), v);
    forall u | u in keys
      ensures Load(m', Addr(u, off')) == if off' == off && u == t then v else Load(m, Addr(u, off'))
    {
      NoWrap(u, off');
      NoWrap(t, off);
    }
  }

  /** A link field of some thread structure. */
  ghost predicate IsCell(keys: set<Word>, a: Word) {
    exists t | t in keys :: a == Addr(t, NEXT) || a == Addr(t, PREV)
  }

  lemma LinksAgree(m: Mem, m': Mem, keys: set<Word>, ring: seq<Word>, off: Word)
    requires IsLink(off) && forall t | t in ring :: t in keys
    requires forall t | t in ring :: Load(m', Addr(t, off)) == Load(m, Addr(t, off))
    ensures R.NextLinks(LinkMap(m, keys, off), ring) ==> forall keys' | keys <= keys' ::
        R.NextLinks(LinkMap(m', keys', off), ring)
    ensures R.PrevLinks(LinkMap(m, keys, off), ring) ==> forall keys' | keys <= keys' ::
        R.PrevLinks(LinkMap(m', keys', off), ring)
  {
    forall keys' | keys <= keys'
      ensures R.NextLinks(LinkMap(m, keys, off), ring) ==> R.NextLinks(LinkMap(m', keys', off), ring)
      ensures R.PrevLinks(LinkMap(m, keys, off), ring) ==> R.PrevLinks(LinkMap(m', keys', off), ring)
    {
      assert forall t | t in ring :: R.Get(LinkMap(m', keys', off), t) == R.Get(LinkMap(m, keys, off), t);
    }
  }

  function FourPuts(m: Mem, a0: Word, v0: Word, a1: Word, v1: Word, a2: Word, v2: Word, a3: Word, v3: Word): Mem {
    Put(Put(Put(Put(m, a0, v0), a1, v1), a2, v2), a3, v3)
  }

  /** The four writes of thread_create, by where they go. */
  lemma LinkInWrites(m: Mem, keys: set<Word>, cur: Word, last: Word, t: Word)
    requires Spaced(keys) && cur in keys && last in keys && t in keys && t != cur && t != last
    requires Load(m, Addr(cur, PREV)) == last
    ensures LinkIn(m, cur, t) ==
        FourPuts(m, Addr(t, NEXT), cur, Addr(t, PREV), last, Addr(last, NEXT), t, Addr(cur, PREV), t)
  {
    NoWrap(t, NEXT);
    NoWrap(t, PREV);
    NoWrap(cur, PREV);
    NoWrap(last, NEXT);
    hide Addr;
  }

  /** The same writes, seen as updates of the link maps. */
  lemma LinkInMaps(m: Mem, keys: set<Word>, cur: Word, last: Word, t: Word)
    requires Spaced(keys) && cur in keys && last in keys && t in keys
    ensures var m' := FourPuts(m, Addr(t, NEXT), cur, Addr(t, PREV), last, Addr(last, NEXT), t, Addr(cur, PREV), t);
            && LinkMap(m', keys, NEXT) == LinkMap(m, keys, NEXT)[t := cur][last := t]
            && LinkMap(m', keys, PREV) == LinkMap(m, keys, PREV)[t := last][cur := t]
  {
    var m1 := Put(m, Addr(t, NEXT), cur);
    var m2 := Put(m1, Addr(t, PREV), last);
    var m3 := Put(m2, Addr(last, NEXT), t);
    LinkMapPut(m, keys, NEXT, NEXT, t, cur);
    LinkMapPut(m, keys, NEXT, PREV, t, cur);
    LinkMapPut(m1, keys, PREV, NEXT, t, last);
    LinkMapPut(m1, keys, PREV, PREV, t, last);
    LinkMapPut(m2, keys, NEXT, NEXT, last, t);
    LinkMapPut(m2, keys, NEXT, PREV, last, t);
    LinkMapPut(m3, keys, PREV, NEXT, cur, t);
    LinkMapPut(m3, keys, PREV, PREV, cur, t);
    hide Addr, Put, Load, LinkMap, Spaced;
  }

  lemma LinkValue(m: Mem, keys: set<Word>, off: Word, t: Word)
    requires t in keys
    ensures t in LinkMap(m, keys, off) && LinkMap(m, keys, off)[t] == Load(m, Addr(t, off))
  {
  }

  lemma LinkOutMaps(m: Mem, keys: set<Word>, cur: Word, n: Word, last: Word)
    requires Spaced(keys) && cur in keys && last in keys && n in keys
    requires LinkMap(m, keys, PREV)[cur] == last && LinkMap(m, keys, NEXT)[cur] == n
    ensures var m' := LinkOut(m, cur);
            && LinkMap(m', keys, NEXT) == LinkMap(m, keys, NEXT)[last := n][cur := 0]
            && LinkMap(m', keys, PREV) == LinkMap(m, keys, PREV)[n := last][cur := 0]
            && m' == FourPuts(m, Addr(n, PREV), last, Addr(last, NEXT), n, Addr(cur, PREV), 0, Addr(cur, NEXT), 0)
  {
    var m1 := Put(m, Addr(n, PREV), last);
    var m2 := Put(m1, Addr(last, NEXT), n);
    var m3 := Put(m2, Addr(cur, PREV), 0);
    LinkMapPut(m, keys, PREV, NEXT, n, last);
    LinkMapPut(m, keys, PREV, PREV, n, last);
    LinkMapPut(m1, keys, NEXT, NEXT, last, n);
    LinkMapPut(m1, keys, NEXT, PREV, last, n);
    LinkMapPut(m2, keys, PREV, NEXT, cur, 0);
    LinkMapPut(m2, keys, PREV, PREV, cur, 0);
    LinkMapPut(m3, keys, NEXT, NEXT, cur, 0);
    LinkMapPut(m3, keys, NEXT, PREV, cur, 0);
    LinkValue(m, keys, PREV, cur);
    LinkValue(m, keys, NEXT, cur);
    hide Addr, Put, Load, LinkMap, Spaced;
  }

  lemma FourPutsKeep(m: Mem, keys: set<Word>, a0: Word, v0: Word, a1: Word, v1: Word, a2: Word, v2: Word, a3: Word,
      v3: Word)
    requires IsCell(keys, a0) && IsCell(keys, a1) && IsCell(keys, a2) && IsCell(keys, a3)
    ensures forall a: Word | !IsCell(keys, a) :: Load(FourPuts(m, a0, v0, a1, v1, a2, v2, a3, v3), a) == Load(m, a)
  {
    hide IsCell, Addr;
  }

  /** thread_create links the new thread in behind the current one. */
  lemma LinkInMemory(m: Mem, keys: set<Word>, ring: seq<Word>, t: Word)
    requires Spaced(keys) && ring != [] && R.Distinct(ring) && t in keys && t !in ring && forall u | u in ring ::
        u in keys
    requires R.NextLinks(LinkMap(m, keys, NEXT), ring) && R.PrevLinks(LinkMap(m, keys, PREV), ring)
    ensures var m' := LinkIn(m, ring[0], t);
            && R.NextLinks(LinkMap(m', keys, NEXT), ring + [t]) && R.PrevLinks(LinkMap(m', keys, PREV), ring + [t])
            && forall a: Word | !IsCell(keys, a) :: Load(m', a) == Load(m, a)
  {
    var cur, last := ring[0], R.Last(ring);
    var next, prev := LinkMap(m, keys, NEXT), LinkMap(m, keys, PREV);
    assert last in ring && cur in ring;
    R.LastPrev(prev, ring);
    LinkValue(m, keys, PREV, cur);
    LinkInWrites(m, keys, cur, last, t);
    LinkInMaps(m, keys, cur, last, t);
    R.WriteOutside(next, prev, ring, t, cur);
    R.WriteOutside(next, prev, ring, t, last);
    R.LinkNext(next[t := cur], ring, t);
    R.LinkPrev(prev[t := last], ring, t);
    FourPutsKeep(m, keys, Addr(t, NEXT), cur, Addr(t, PREV), last, Addr(last, NEXT), t, Addr(cur, PREV), t);
    hide R.NextLinks, R.PrevLinks, R.Distinct, Addr, LinkMap, LinkIn, Spaced, Put, Load;
  }

  /** thread_exit closes the ring over the current thread. */
  lemma LinkOutMemory(m: Mem, keys: set<Word>, ring: seq<Word>)
    requires Spaced(keys) && |ring| >= 2 && R.Distinct(ring) && forall u | u in ring :: u in keys
    requires R.NextLinks(LinkMap(m, keys, NEXT), ring) && R.PrevLinks(LinkMap(m, keys, PREV), ring)
    ensures Load(m, Addr(ring[0], NEXT)) == ring[1]
    ensures var m' := LinkOut(m, ring[0]);
            && R.NextLinks(LinkMap(m', keys, NEXT), ring[1..]) && R.PrevLinks(LinkMap(m', keys, PREV), ring[1..])
            && forall a: Word | !IsCell(keys, a) :: Load(m', a) == Load(m, a)
  {
    var cur, n, last := ring[0], ring[1], R.Last(ring);
    var next, prev := LinkMap(m, keys, NEXT), LinkMap(m, keys, PREV);
    assert last in ring && cur in ring && n in ring;
    R.Unlinked(next, prev, ring);
    LinkValue(m, keys, NEXT, cur);
    LinkOutMaps(m, keys, cur, n, last);
    FourPutsKeep(m, keys, Addr(n, PREV), last, Addr(last, NEXT), n, Addr(cur, PREV), 0, Addr(cur, NEXT), 0);
    hide R.NextLinks, R.PrevLinks, R.Distinct, Addr, LinkMap, LinkOut, Spaced, Put, Load;
  }
}
