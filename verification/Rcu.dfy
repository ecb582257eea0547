/**
 * The read-copy-update domain that protects VMA snapshots (src/rcu.c) with its
 * publisher and readers (src/mapping.c, src/space.c), step by step: every load,
 * compare-and-swap, lock operation and list operation of any number of threads
 * may interleave with those of the others.
 */
module Rcu {
  import opened Base

  /** SIZE_MAX */
  const COUNTER_MAX: nat := 0xffff_ffff_ffff_ffff

  /** Where a thread is.  `loaded`, `snapshot`, `extra` and `todo` are the snapshots it holds. */
  datatype Pc =
    | Idle
    | Entering(seen: nat)                       // read_lock has loaded the counter
    | Inside(loaded: Option<nat>)               // counted; Some once the pointer has been loaded
    | Leaving(loaded: Option<nat>, seen: nat)   // read_unlock has loaded the counter; still counted
    | Signalling                                // the last reader out, about to broadcast
    | Holding(snapshot: nat)                    // exchanged the pointer, has the old snapshot
    | Retiring(snapshot: nat)                   // has a list node, wants the lock
    | Appending(snapshot: nat)                  // has the lock
    | Asking(extra: Option<nat>, wait: bool)    // poll or synchronize wants the lock
    | Checking(extra: Option<nat>, wait: bool)  // has the lock, about to load the counter
    | Blocking(extra: Option<nat>)              // has the lock, saw readers, about to wait
    | Waiting(extra: Option<nat>)               // in the condition wait
    | Quiet(extra: Option<nat>)                 // has the lock, saw no readers
    | Reclaiming(todo: seq<nat>)                // took the retired list, lock released
    | Aborted                                   // the abort() of read_unlock

  datatype State = State(
    readers: nat, published: Option<nat>, lock: Option<nat>, retired: seq<nat>, threads: seq<Pc>,
    destroyed: seq<nat>, next: nat)

  datatype Action =
    | LoadCounter | TryEnter(spurious: bool) | LoadPointer | StartLeave | TryLeave(spurious: bool) | Broadcast
    | Publish | Close | AllocateNode(ok: bool) | TakeLock | Append | Poll | Synchronize
    | CheckCounter | Block | WakeUp | TakeList | Reclaim

  function Now(s: State, t: nat, pc: Pc): State
    requires t < |s.threads|
  {
    s.(threads := s.threads[t := pc])
  }

  function Woken(pc: Pc): Pc {
    if pc.Waiting? then Asking(pc.extra, true) else pc
  }

  function AllWoken(threads: seq<Pc>): (r: seq<Pc>)
    ensures |r| == |threads| && forall i :: 0 <= i < |r| ==> r[i] == Woken(threads[i])
  {
    seq(|threads|, i requires 0 <= i < |threads| => Woken(threads[i]))
  }

  function Maybe(o: Option<nat>): seq<nat> {
    if o.Some? then [o.value] else []
  }

  /** What action `a` of thread `t` does, where it is possible. */
  function Do(s: State, t: nat, a: Action): Option<State>
    requires t < |s.threads|
  {
    match (s.threads[t], a)
    case (Idle, LoadCounter) => Some(Now(s, t, Entering(s.readers)))
    case (Entering(seen), TryEnter(spurious)) =>
      if seen == COUNTER_MAX then None
      else if !spurious && s.readers == seen then Some(Now(s, t, Inside(None)).(readers := seen + 1))
      else Some(Now(s, t, Entering(s.readers)))
    case (Inside(o), LoadPointer) => if o.None? then Some(Now(s, t, Inside(s.published))) else None
    case (Inside(o), StartLeave) => Some(Now(s, t, Leaving(o, s.readers)))
    case (Leaving(o, seen), TryLeave(spurious)) =>
      if seen == 0 then Some(Now(s, t, Aborted))
      else if !spurious && s.readers == seen then
        Some(Now(s, t, if seen == 1 then Signalling else Idle).(readers := seen - 1))
      else Some(Now(s, t, Leaving(o, s.readers)))
    case (Signalling, Broadcast) =>
      if s.lock.Some? then None else Some(s.(threads := AllWoken(s.threads)[t := Idle]))
    case (Idle, Publish) =>
      Some(Now(s, t, if s.published.Some? then Holding(s.published.value) else Idle)
             .(published := Some(s.next), next := s.next + 1))
    case (Idle, Close) => Some(Now(s, t, Asking(s.published, true)).(published := None))
    case (Holding(o), AllocateNode(ok)) => Some(Now(s, t, if ok then Retiring(o) else Asking(Some(o), true)))
    case (Retiring(o), TakeLock) => if s.lock.Some? then None else Some(Now(s, t, Appending(o)).(lock := Some(t)))
    case (Asking(e, w), TakeLock) => if s.lock.Some? then None else Some(Now(s, t, Checking(e, w)).(lock := Some(t)))
    case (Appending(o), Append) =>
      Some(Now(s, t, Asking(None, false)).(retired := s.retired + [o], lock := None))
    case (Idle, Poll) => Some(Now(s, t, Asking(None, false)))
    case (Idle, Synchronize) => Some(Now(s, t, Asking(None, true)))
    case (Checking(e, w), CheckCounter) =>
      if s.readers == 0 then Some(Now(s, t, Quiet(e)))
      else if w then Some(Now(s, t, Blocking(e)))
      else Some(Now(s, t, Idle).(lock := None))
    case (Blocking(e), Block) => Some(Now(s, t, Waiting(e)).(lock := None))
    case (Waiting(e), WakeUp) => Some(Now(s, t, Asking(e, true)))
    case (Quiet(e), TakeList) =>
      Some(Now(s, t, Reclaiming(s.retired + Maybe(e))).(retired := [], lock := None))
    case (Reclaiming(todo), Reclaim) =>
      if todo == [] then Some(Now(s, t, Idle))
      else Some(Now(s, t, Reclaiming(todo[1..])).(destroyed := s.destroyed + [todo[0]]))
    case _ => None
  }

  ghost predicate Step(s: State, s': State) {
    exists t: nat, a :: t < |s.threads| && Do(s, t, a) == Some(s')
  }

  ghost predicate Initial(s: State) {
    && s.readers == 0 && s.published.None? && s.lock.None? && s.retired == [] && s.destroyed == [] && s.next == 0
    && forall t :: 0 <= t < |s.threads| ==> s.threads[t] == Idle
  }

  ghost predicate Trace(tr: seq<State>) {
    && tr != [] && Initial(tr[0])
    && forall i :: 0 <= i < |tr| - 1 ==> Step(tr[i], tr[i + 1])
  }

  // ------------------------------------------------------------------
  // What holds in every reachable state
  // ------------------------------------------------------------------

  predicate Counted(pc: Pc) {
    pc.Inside? || pc.Leaving?
  }

  predicate HasLock(pc: Pc) {
    pc.Appending? || pc.Checking? || pc.Blocking? || pc.Quiet?
  }

  /** Snapshots that this thread is responsible for. */
  function Owned(pc: Pc): seq<nat> {
    match pc
    case Holding(o) => [o]
    case Retiring(o) => [o]
    case Appending(o) => [o]
    case Asking(e, _) => Maybe(e)
    case Checking(e, _) => Maybe(e)
    case Blocking(e) => Maybe(e)
    case Waiting(e) => Maybe(e)
    case Quiet(e) => Maybe(e)
    case Reclaiming(todo) => todo
    case _ => []
  }

  function Loaded(pc: Pc): Option<nat> {
    if Counted(pc) then pc.loaded else None
  }

  ghost function ReaderCount(threads: seq<Pc>): nat {
    if threads == [] then 0
    else ReaderCount(threads[..|threads| - 1]) + (if Counted(threads[|threads| - 1]) then 1 else 0)
  }

  function Occurrences(list: seq<nat>, o: nat): nat {
    multiset(list)[o]
  }

  /** How often threads are responsible for `o`. */
  ghost function OwnedCount(threads: seq<Pc>, o: nat): nat {
    if threads == [] then 0 else OwnedCount(threads[..|threads| - 1], o) + Occurrences(Owned(threads[|threads| - 1]), o)
  }

  /** In how many places snapshot `o` is. */
  ghost function Places(s: State, o: nat): nat {
    Shared(s, o) + OwnedCount(s.threads, o)
  }

  function Shared(s: State, o: nat): nat {
    Occurrences(Maybe(s.published), o) + Occurrences(s.retired, o) + Occurrences(s.destroyed, o)
  }

  /** Every snapshot ever made is in exactly one place. */
  ghost predicate Conserved(s: State) {
    forall o: nat :: Places(s, o) == if o < s.next then 1 else 0
  }

  /** Thread `u` has decided to destroy snapshot `o`. */
  predicate DoomedBy(s: State, pc: Pc, o: nat) {
    || (pc.Reclaiming? && o in pc.todo)
    || (pc.Quiet? && (o in s.retired || pc.extra == Some(o)))
  }

  ghost predicate Doomed(s: State, o: nat) {
    o in s.destroyed || exists u :: 0 <= u < |s.threads| && DoomedBy(s, s.threads[u], o)
  }

  ghost predicate SomeSignaller(threads: seq<Pc>) {
    exists i :: 0 <= i < |threads| && threads[i].Signalling?
  }

  ghost predicate LockOk(s: State, t: nat)
    requires t < |s.threads|
  {
    && !s.threads[t].Aborted?
    && (HasLock(s.threads[t]) <==> s.lock == Some(t))
    && (s.threads[t].Leaving? ==> s.threads[t].seen > 0)
    && ((s.threads[t].Asking? || s.threads[t].Checking?) && s.threads[t].extra.Some? ==> s.threads[t].wait)
  }

  /** Whatever a reader has loaded, nobody has destroyed or decided to destroy. */
  ghost predicate LoadOk(s: State, t: nat)
    requires t < |s.threads|
  {
    Loaded(s.threads[t]).Some? ==> !Doomed(s, Loaded(s.threads[t]).value)
  }

  /** A waiting thread has somebody left who will wake it. */
  ghost predicate WaitOk(s: State, t: nat)
    requires t < |s.threads|
  {
    s.threads[t].Waiting? || s.threads[t].Blocking? ==> s.readers > 0 || SomeSignaller(s.threads)
  }

  ghost predicate Inv(s: State) {
    && s.readers == ReaderCount(s.threads)
    && Conserved(s)
    && (forall t {:trigger LockOk(s, t)} :: 0 <= t < |s.threads| ==> LockOk(s, t))
    && (forall t {:trigger LoadOk(s, t)} :: 0 <= t < |s.threads| ==> LoadOk(s, t))
    && (forall t {:trigger WaitOk(s, t)} :: 0 <= t < |s.threads| ==> WaitOk(s, t))
  }

  // ------------------------------------------------------------------
  // Sums over threads
  // ------------------------------------------------------------------

  lemma {:induction false} CountUpdate(threads: seq<Pc>, t: nat, pc: Pc)
    requires t < |threads|
    ensures ReaderCount(threads[t := pc]) + (if Counted(threads[t]) then 1 else 0) ==
              ReaderCount(threads) + (if Counted(pc) then 1 else 0)
  {
    var n := |threads| - 1;
    if t == n {
      assert threads[t := pc][..n] == threads[..n];
    } else {
      assert threads[t := pc][..n] == threads[..n][t := pc];
      CountUpdate(threads[..n], t, pc);
    }
  }

  lemma {:induction false} CountZero(threads: seq<Pc>, t: nat)
    requires t < |threads|
    ensures ReaderCount(threads) == 0 ==> !Counted(threads[t])
    ensures Counted(threads[t]) ==> ReaderCount(threads) > 0
  {
    if t < |threads| - 1 {
      CountZero(threads[..|threads| - 1], t);
    }
  }

  lemma {:induction false} OwnedUpdate(threads: seq<Pc>, t: nat, pc: Pc, o: nat)
    requires t < |threads|
    ensures OwnedCount(threads[t := pc], o) + Occurrences(Owned(threads[t]), o) ==
              OwnedCount(threads, o) + Occurrences(Owned(pc), o)
  {
    hide Occurrences, Owned;
    var n := |threads| - 1;
    if t == n {
      assert threads[t := pc][..n] == threads[..n];
    } else {
      assert threads[t := pc][..n] == threads[..n][t := pc];
      OwnedUpdate(threads[..n], t, pc, o);
    }
  }

  lemma {:induction false} OwnedAtMost(threads: seq<Pc>, t: nat, o: nat)
    requires t < |threads|
    ensures Occurrences(Owned(threads[t]), o) <= OwnedCount(threads, o)
  {
    hide Occurrences, Owned;
    if t < |threads| - 1 {
      OwnedAtMost(threads[..|threads| - 1], t, o);
    }
  }

  /** Waking threads moves no reader and no snapshot. */
  lemma {:induction false} WakingKeeps(threads: seq<Pc>, o: nat)
    ensures ReaderCount(AllWoken(threads)) == ReaderCount(threads)
    ensures OwnedCount(AllWoken(threads), o) == OwnedCount(threads, o)
  {
    hide Occurrences;
    if threads != [] {
      var n := |threads| - 1;
      assert AllWoken(threads)[..n] == AllWoken(threads[..n]);
      WakingKeeps(threads[..n], o);
    }
  }

  lemma Joined(l: seq<nat>, r: seq<nat>, o: nat)
    ensures Occurrences(l + r, o) == Occurrences(l, o) + Occurrences(r, o)
    ensures Occurrences([], o) == 0
    ensures o in l <==> Occurrences(l, o) > 0
  {
  }

  lemma Single(x: nat, o: nat)
    ensures Occurrences([x], o) == if x == o then 1 else 0
  {
  }

  // ------------------------------------------------------------------
  // One step
  // ------------------------------------------------------------------

  /** The threads after a step, apart from the one that moved. */
  function Others(s: State, a: Action): seq<Pc> {
    if a.Broadcast? then AllWoken(s.threads) else s.threads
  }

  lemma OneMoves(s: State, t: nat, a: Action, s': State)
    requires t < |s.threads| && Do(s, t, a) == Some(s')
    ensures |s'.threads| == |s.threads| && s'.threads == Others(s, a)[t := s'.threads[t]]
    ensures Others(s, a)[t] == s.threads[t]
  {
    hide AllWoken;
  }

  lemma CountsKept(s: State, t: nat, a: Action, s': State)
    requires Inv(s) && t < |s.threads| && Do(s, t, a) == Some(s')
    ensures s'.readers == ReaderCount(s'.threads)
  {
    hide Conserved, LoadOk, WaitOk, ReaderCount, OwnedCount;
    assert LockOk(s, t);
    OneMoves(s, t, a, s');
    WakingKeeps(s.threads, 0);
    CountUpdate(Others(s, a), t, s'.threads[t]);
    assert ReaderCount(Others(s, a)) == ReaderCount(s.threads);
    hide AllWoken, Others;
  }

  /** Snapshots only change hands between the shared fields and the thread that moves. */
  lemma HandsKept(s: State, t: nat, a: Action, s': State, o: nat)
    requires t < |s.threads| && Do(s, t, a) == Some(s') && LockOk(s, t)
    ensures Shared(s', o) + Occurrences(Owned(s'.threads[t]), o) ==
            Shared(s, o) + Occurrences(Owned(s.threads[t]), o) + if s.next <= o < s'.next then 1 else 0
  {
    hide Occurrences, AllWoken;
    Joined(s.retired, Owned(s.threads[t]), o);
    Single(s.next, o);
    if s.threads[t].Reclaiming? && s.threads[t].todo != [] {
      var todo := s.threads[t].todo;
      assert todo == [todo[0]] + todo[1..];
      Joined([todo[0]], todo[1..], o);
      Joined(s.destroyed, [todo[0]], o);
    }
  }

  lemma PlacesKept(s: State, t: nat, a: Action, s': State, o: nat)
    requires t < |s.threads| && Do(s, t, a) == Some(s') && LockOk(s, t)
    ensures Places(s', o) == Places(s, o) + if s.next <= o < s'.next then 1 else 0
  {
    OneMoves(s, t, a, s');
    HandsKept(s, t, a, s', o);
    WakingKeeps(s.threads, o);
    hide Do, OwnedCount, Occurrences, Shared, AllWoken, Owned;
    OwnedUpdate(Others(s, a), t, s'.threads[t], o);
  }

  lemma NextGrows(s: State, t: nat, a: Action, s': State)
    requires t < |s.threads| && Do(s, t, a) == Some(s')
    ensures s.next <= s'.next
  {
  }

  lemma ConservedKept(s: State, t: nat, a: Action, s': State)
    requires Inv(s) && t < |s.threads| && Do(s, t, a) == Some(s')
    ensures Conserved(s')
  {
    assert LockOk(s, t);
    NextGrows(s, t, a, s');
    hide LoadOk, WaitOk, LockOk, Places, Do;
    forall o: nat ensures Places(s', o) == if o < s'.next then 1 else 0 {
      PlacesKept(s, t, a, s', o);
    }
  }

  lemma LockKept(s: State, t: nat, a: Action, s': State, u: nat)
    requires Inv(s) && t < |s.threads| && Do(s, t, a) == Some(s') && u < |s'.threads|
    ensures LockOk(s', u)
  {
    hide Conserved, LoadOk, WaitOk;
    assert LockOk(s, t) && LockOk(s, u);
    CountZero(s.threads, t);
  }

  lemma WaitKept(s: State, t: nat, a: Action, s': State, u: nat)
    requires Inv(s) && t < |s.threads| && Do(s, t, a) == Some(s') && u < |s'.threads|
    ensures WaitOk(s', u)
  {
    hide Conserved, LoadOk;
    assert LockOk(s, t) && LockOk(s, u) && WaitOk(s, u);
    if SomeSignaller(s.threads) && !a.Broadcast? {
      var i :| 0 <= i < |s.threads| && s.threads[i].Signalling?;
      assert s'.threads[i].Signalling?;
    }
    if s'.threads[t].Signalling? {
      assert SomeSignaller(s'.threads);
    }
  }

  /** What the published pointer names is in nobody else's hands. */
  lemma PublishedIsSafe(s: State, o: nat)
    requires Conserved(s) && s.published == Some(o)
    ensures !Doomed(s, o)
  {
    hide Occurrences, OwnedCount;
    assert Places(s, o) <= 1;
    Single(o, o);
    Joined(s.retired, [], o);
    Joined(s.destroyed, [], o);
    forall u | 0 <= u < |s.threads| ensures !DoomedBy(s, s.threads[u], o) {
      OwnedAtMost(s.threads, u, o);
      Joined(Owned(s.threads[u]), [], o);
    }
  }

  lemma LoadKept(s: State, t: nat, a: Action, s': State, u: nat)
    requires Inv(s) && t < |s.threads| && Do(s, t, a) == Some(s') && u < |s'.threads|
    ensures LoadOk(s', u)
  {
    hide WaitOk;
    if Loaded(s'.threads[u]).Some? {
      var o := Loaded(s'.threads[u]).value;
      assert !Doomed(s, o) by {
        if u == t && a.LoadPointer? {
          PublishedIsSafe(s, o);
        } else {
          assert LoadOk(s, u);
        }
      }
      CountZero(s.threads, u);
      NotDoomedLater(s, t, a, s', o);
    }
  }

  /** Destruction is decided only when no reader is inside, and only of what is already unpublished. */
  lemma NotDoomedLater(s: State, t: nat, a: Action, s': State, o: nat)
    requires Inv(s) && t < |s.threads| && Do(s, t, a) == Some(s') && !Doomed(s, o) && s.readers > 0
    ensures !Doomed(s', o)
  {
    hide Conserved, LoadOk, WaitOk;
    assert LockOk(s, t);
    assert !DoomedBy(s, s.threads[t], o);
    forall v | 0 <= v < |s'.threads| ensures !DoomedBy(s', s'.threads[v], o) {
      assert LockOk(s, v);
      assert !DoomedBy(s, s.threads[v], o);
    }
  }

  lemma StepKeepsInv(s: State, s': State)
    requires Inv(s) && Step(s, s')
    ensures Inv(s')
  {
    var t: nat, a :| t < |s.threads| && Do(s, t, a) == Some(s');
    CountsKept(s, t, a, s');
    ConservedKept(s, t, a, s');
    forall u | 0 <= u < |s'.threads| ensures LockOk(s', u) && LoadOk(s', u) && WaitOk(s', u) {
      LockKept(s, t, a, s', u);
      LoadKept(s, t, a, s', u);
      WaitKept(s, t, a, s', u);
    }
  }

  lemma {:induction false} InitialInv(s: State)
    requires Initial(s)
    ensures Inv(s)
  {
    forall o: nat ensures Places(s, o) == 0 {
      NobodyYet(s.threads, o);
    }
    NobodyYet(s.threads, 0);
  }

  lemma {:induction false} NobodyYet(threads: seq<Pc>, o: nat)
    requires forall t :: 0 <= t < |threads| ==> threads[t] == Idle
    ensures ReaderCount(threads) == 0 && OwnedCount(threads, o) == 0
  {
    if threads != [] {
      NobodyYet(threads[..|threads| - 1], o);
    }
  }

  lemma {:induction false} TraceInv(tr: seq<State>, i: nat)
    requires Trace(tr) && i < |tr|
    ensures Inv(tr[i])
  {
    if i == 0 {
      InitialInv(tr[0]);
    } else {
      TraceInv(tr, i - 1);
      assert Step(tr[i - 1], tr[i - 1 + 1]);
      StepKeepsInv(tr[i - 1], tr[i]);
    }
  }

  // ------------------------------------------------------------------
  // The theorems, over every interleaving
  // ------------------------------------------------------------------

  /** No snapshot is destroyed while a reader that loaded it is in its critical section. */
  lemma ReadersAreSafe(tr: seq<State>, i: nat, t: nat)
    requires Trace(tr) && i < |tr| && t < |tr[i].threads| && Loaded(tr[i].threads[t]).Some?
    ensures Loaded(tr[i].threads[t]).value !in tr[i].destroyed
  {
    TraceInv(tr, i);
    assert LoadOk(tr[i], t);
  }

  /** No snapshot is destroyed twice, nor while it is published or still on its way to be destroyed. */
  lemma DestroyedOnce(tr: seq<State>, i: nat, o: nat)
    requires Trace(tr) && i < |tr|
    ensures Occurrences(tr[i].destroyed, o) <= 1
    ensures o in tr[i].destroyed ==>
              && o < tr[i].next && tr[i].published != Some(o) && o !in tr[i].retired
              && forall t :: 0 <= t < |tr[i].threads| ==> o !in Owned(tr[i].threads[t])
  {
    TraceInv(tr, i);
    var s := tr[i];
    assert Places(s, o) <= 1;
    Joined(s.destroyed, [], o);
    Joined(s.retired, [], o);
    Single(o, o);
    forall t | 0 <= t < |s.threads| && o in s.destroyed ensures o !in Owned(s.threads[t]) {
      OwnedAtMost(s.threads, t, o);
      Joined(Owned(s.threads[t]), [], o);
    }
  }

  /** When all threads have finished and the list is empty, everything but the published snapshot is destroyed. */
  lemma NothingLeaks(tr: seq<State>, i: nat, o: nat)
    requires Trace(tr) && i < |tr| && o < tr[i].next && tr[i].retired == []
    requires forall t :: 0 <= t < |tr[i].threads| ==> tr[i].threads[t] == Idle
    ensures o in tr[i].destroyed <==> tr[i].published != Some(o)
  {
    TraceInv(tr, i);
    NobodyYet(tr[i].threads, o);
    assert Places(tr[i], o) == 1;
  }

  /** The abort() of read_unlock is never reached. */
  lemma NeverAborts(tr: seq<State>, i: nat, t: nat)
    requires Trace(tr) && i < |tr| && t < |tr[i].threads|
    ensures !tr[i].threads[t].Aborted?
  {
    TraceInv(tr, i);
    assert LockOk(tr[i], t);
  }

  /** A synchronizer that waits is never forgotten: a reader is inside, or the last one out is about to broadcast. */
  lemma NoLostWakeUp(tr: seq<State>, i: nat, t: nat)
    requires Trace(tr) && i < |tr| && t < |tr[i].threads| && tr[i].threads[t].Waiting?
    ensures tr[i].readers > 0 || exists u :: 0 <= u < |tr[i].threads| && tr[i].threads[u].Signalling?
  {
    TraceInv(tr, i);
    assert WaitOk(tr[i], t);
  }
}
