/**
 * Locked pages stay resident: where the locked entries of the page tables
 * (src/page_table.c, src/memory_api.c) meet the pins of the frame store (src/frame.c).
 */
module Locking {
  import opened Base
  import opened Sharing
  import opened Tables
  import F = Frames

  /** All page tables with the counts that frames carry for them */
  datatype Table = Table(ptes: map<Key, Pte>, counts: map<nat, Counts>)

  /** An entry that is locked pins its frame. */
  lemma LockedIsPinned(t: Table, k: Key)
    requires Counted(t.ptes, t.counts) && k in t.ptes && t.ptes[k].locked
    ensures t.ptes[k].frame in t.counts && t.counts[t.ptes[k].frame].pins > 0 && t.counts[t.ptes[k].frame].maps > 0
  {
    assert k in Lockers(t.ptes, t.ptes[k].frame) && k in Namers(t.ptes, t.ptes[k].frame);
  }

  ghost predicate LockedBy(t: Table, f: nat, k: Key) {
    k in t.ptes && t.ptes[k].locked && t.ptes[k].frame == f
  }

  /**
   * The store has a pin for every locked entry of the frame and a reference for every
   * entry; an operation under way and other users may have more of either.
   */
  ghost predicate Backs(tally: F.Tally, t: Table, f: nat) {
    Counted(t.ptes, t.counts) && f in t.counts && tally.pins >= t.counts[f].pins && tally.refs >= t.counts[f].maps
  }

  /** Before every section and after the last one some entry of some table locks the frame, not always the same. */
  ghost predicate LockedDuring(tables: seq<Table>, tally: F.Tally, ops: seq<F.Section>, f: nat) {
    && |tables| == |ops| + 1
    && forall i {:trigger tables[i]} :: 0 <= i <= |ops| ==>
         && Backs(F.TallyAfter(tally, ops[..i], f), tables[i], f)
         && exists k :: LockedBy(tables[i], f, k)
  }

  /** A frame is freed with its last reference only. */
  lemma {:induction false} FreedWithoutReferences(tally: F.Tally, ops: seq<F.Section>, f: nat)
    requires !tally.freed
    ensures F.TallyAfter(tally, ops, f).freed ==> F.TallyAfter(tally, ops, f).refs == 0
  {
    if ops != [] {
      FreedWithoutReferences(tally, ops[..|ops| - 1], f);
    }
  }

  /** A frame that entries lock is held, and none of its releases is the last. */
  lemma LockedIsHeld(tables: seq<Table>, tally: F.Tally, ops: seq<F.Section>, f: nat)
    requires LockedDuring(tables, tally, ops, f) && !tally.freed
    ensures F.HeldDuring(tally, ops, f) && F.Holding(F.TallyAfter(tally, ops, f))
  {
    hide F.TallyAfter, Counted;
    forall i | 0 <= i <= |ops|
      ensures F.Holding(F.TallyAfter(tally, ops[..i], f))
    {
      var k :| LockedBy(tables[i], f, k);
      LockedIsPinned(tables[i], k);
      FreedWithoutReferences(tally, ops[..i], f);
    }
    assert ops[..|ops|] == ops;
  }

  /**
   * No run of the store, with any accesses, reclaims, unlocks and unmaps through other
   * entries in it, moves a resident frame that some entry locks throughout.
   */
  method RunWhileLocked(store: F.FrameStore, ops: seq<F.Section>, f: nat, ghost tables: seq<Table>)
    returns (rs: seq<F.Reply>)
    requires store.Valid() && f in store.mem.frames && store.mem.frames[f].slot.Some?
    requires LockedDuring(tables, F.TallyOf(store.mem.frames[f]), ops, f)
    modifies store
    ensures store.Valid() && |rs| == |ops|
    ensures f in store.mem.frames && store.mem.frames[f].slot == old(store.mem).frames[f].slot
    ensures F.Contents(store.mem) == F.ContentRun(F.Contents(old(store.mem)), ops, rs)
  {
    hide F.Sound, F.SwapConserved, F.SlotsConserved, F.Booked, F.Contents, F.TallyAfter, F.HeldDuring;
    ghost var from, tally := store.mem.frames, F.TallyOf(store.mem.frames[f]);
    LockedIsHeld(tables, tally, ops, f);
    LockedAtFirst(tables, tally, ops, f);
    rs := store.Run(ops);
    assert F.HeldOver(from, store.mem.frames, ops, f);
  }

  lemma LockedAtFirst(tables: seq<Table>, tally: F.Tally, ops: seq<F.Section>, f: nat)
    requires LockedDuring(tables, tally, ops, f)
    ensures tally.pins > 0
  {
    var t := tables[0];
    assert ops[..0] == [] && Backs(F.TallyAfter(tally, ops[..0], f), t, f);
    var k :| LockedBy(t, f, k);
    LockedIsPinned(t, k);
  }

  /**
   * One page of minimm_mlock, seen from the store: the pin comes before the last check
   * for residency, so that success means resident, and by `RunWhileLocked` resident it
   * stays.  `between` are the sections that others run before that check.
   */
  method LockResident(store: F.FrameStore, f: nat, between: seq<F.Section>, ghost tables: seq<Table>)
    returns (out: F.Outcome)
    requires store.Valid() && f in store.mem.frames
    requires LockedDuring(tables, F.TallyNext(F.TallyOf(store.mem.frames[f]), F.Section.Mark(f, F.Pin), f), between, f)
    modifies store
    ensures store.Valid()
    ensures out.Done? && out.status == Ok ==>
              f in store.mem.frames && store.mem.frames[f].slot.Some? && store.mem.frames[f].pins > 0
  {
    hide F.Sound, F.SwapConserved, F.SlotsConserved, F.Booked, F.Contents, F.TallyAfter, F.HeldDuring;
    ghost var start, pin := store.mem.frames, F.Section.Mark(f, F.Pin);
    ghost var tally := F.TallyNext(F.TallyOf(start[f]), pin, f);
    LockedAtLast(tables, tally, between, f);
    var _ := store.Step(F.Section.Mark(f, F.Pin));
    ghost var locked := store.mem.frames;
    assert F.Remains(start, locked, f, tally);
    var _ := store.Run(between);
    assert F.HeldOver(locked, store.mem.frames, between, f);
    ghost var loaded := store.mem.frames;
    SameTallies(tally, F.TallyOf(locked[f]), between, f);
    out := store.Attempt(f);
    assert F.StaysHeld(loaded, store.mem.frames, f);
  }

  lemma LockedAtLast(tables: seq<Table>, tally: F.Tally, ops: seq<F.Section>, f: nat)
    requires LockedDuring(tables, tally, ops, f) && !tally.freed
    ensures var last := F.TallyAfter(tally, ops, f); last.pins > 0 && !last.freed
  {
    hide F.TallyAfter;
    var t := tables[|ops|];
    assert ops[..|ops|] == ops && Backs(F.TallyAfter(tally, ops[..|ops|], f), t, f);
    var k :| LockedBy(t, f, k);
    LockedIsPinned(t, k);
    FreedWithoutReferences(tally, ops, f);
  }

  lemma {:induction false} SameTallies(t: F.Tally, u: F.Tally, ops: seq<F.Section>, f: nat)
    requires t == u.(transient := t.transient)
    ensures var t', u' := F.TallyAfter(t, ops, f), F.TallyAfter(u, ops, f); t' == u'.(transient := t'.transient)
  {
    if ops != [] {
      var n := |ops| - 1;
      SameTallies(t, u, ops[..n], f);
      F.TransientAside(F.TallyAfter(t, ops[..n], f), F.TallyAfter(u, ops[..n], f), ops[n], f);
    }
  }
}
