/**
 * The frame store (src/frame.c): a bounded arena of resident pages over swap
 * slots and files.
 *
 * Every section under the store lock is one method.  A page-in that has to wait
 * for a transient pin gives up the lock in the middle; it keeps nothing across
 * the wait and starts over, so it is a sequence of attempts with other sections
 * in between (`BlockingPageIn`).
 */
module Frames {
  import opened Base

  datatype Source = Zero | File(backing: nat, offset: nat, shared: bool)

  /** struct minimm_frame; `slot` stands for both data and resident_slot. */
  datatype Frame = Frame(
    source: Source, slot: Option<nat>, swapSlot: Option<nat>,
    pins: nat, transient: nat, mappings: nat, refs: nat,
    lastAccess: nat, dirty: bool, cold: bool, pending: bool)

  type FrameMap = map<nat, Frame>

  /** The swap file and the files behind shared frames; absent pages read as zeros. */
  datatype Disk = Disk(swap: map<nat, Page>, files: map<(nat, nat), Page>)

  /** Everything the content of a frame depends on, and which frame each slot in use belongs to. */
  datatype State = State(
    frames: FrameMap, arena: seq<Page>, disk: Disk,
    owner: map<nat, nat>, swapOwner: map<nat, nat>)

  function Backed(fr: Frame, disk: Disk): Page {
    if fr.swapSlot.Some? then
      if fr.swapSlot.value in disk.swap then disk.swap[fr.swapSlot.value] else ZERO
    else if fr.source.File? then
      if (fr.source.backing, fr.source.offset) in disk.files then disk.files[(fr.source.backing, fr.source.offset)]
      else ZERO
    else ZERO
  }

  /** The logical content of a frame, wherever its bytes are. */
  function Content(fr: Frame, arena: seq<Page>, disk: Disk): Page {
    if fr.slot.Some? && fr.slot.value < |arena| then arena[fr.slot.value] else Backed(fr, disk)
  }

  ghost function Contents(st: State): (c: map<nat, Page>)
    ensures c.Keys == st.frames.Keys
  {
    map f | f in st.frames :: Content(st.frames[f], st.arena, st.disk)
  }

  predicate IsSharedFile(s: Source) {
    s.File? && s.shared
  }

  /** A frame written back to a file never shares its place in the file with another frame. */
  predicate FilesApart(s: Source, t: Source) {
    IsSharedFile(s) && t.File? ==> (s.backing, s.offset) != (t.backing, t.offset)
  }

  ghost predicate FrameSound(st: State, f: nat)
    requires f in st.frames
  {
    && (st.frames[f].slot.Some? ==>
          && st.frames[f].slot.value < |st.arena|
          && st.frames[f].slot.value in st.owner
          && st.owner[st.frames[f].slot.value] == f
          && !st.frames[f].pending
          && (!st.frames[f].dirty ==> st.arena[st.frames[f].slot.value] == Backed(st.frames[f], st.disk)))
    && (st.frames[f].slot.None? ==> !st.frames[f].dirty && !st.frames[f].cold)
    && (st.frames[f].swapSlot.Some? ==>
          && st.frames[f].swapSlot.value in st.swapOwner
          && st.swapOwner[st.frames[f].swapSlot.value] == f)
    && (IsSharedFile(st.frames[f].source) ==> st.frames[f].swapSlot.None?)
  }

  ghost predicate Apart(frames: FrameMap) {
    forall f, g {:trigger FilesApart(frames[f].source, frames[g].source)} ::
      f in frames && g in frames && f != g ==> FilesApart(frames[f].source, frames[g].source)
  }

  ghost predicate Owns(frames: FrameMap, owner: map<nat, nat>, s: nat)
    requires s in owner
  {
    owner[s] in frames && frames[owner[s]].slot == Some(s)
  }

  ghost predicate OwnsSwap(frames: FrameMap, owner: map<nat, nat>, o: nat)
    requires o in owner
  {
    owner[o] in frames && frames[owner[o]].swapSlot == Some(o)
  }

  /** A clean resident frame equals its backing, a nonresident one is clean, and nothing is owned twice. */
  ghost predicate Sound(st: State) {
    && (forall f {:trigger FrameSound(st, f)} :: f in st.frames ==> FrameSound(st, f))
    && Apart(st.frames)
    && (forall s {:trigger Owns(st.frames, st.owner, s)} :: s in st.owner ==> Owns(st.frames, st.owner, s))
    && (forall o {:trigger OwnsSwap(st.frames, st.swapOwner, o)} ::
          o in st.swapOwner ==> OwnsSwap(st.frames, st.swapOwner, o))
  }

  /** What has to be shown about a new state, frame by frame and slot by slot. */
  lemma SoundAfter(st: State, to: State)
    requires Sound(st) && to.frames.Keys == st.frames.Keys
    requires forall f :: f in to.frames ==> to.frames[f].source == st.frames[f].source
    requires forall f {:trigger FrameSound(to, f)} :: f in to.frames ==> FrameSound(to, f)
    requires forall s {:trigger Owns(to.frames, to.owner, s)} :: s in to.owner ==> Owns(to.frames, to.owner, s)
    requires forall o {:trigger OwnsSwap(to.frames, to.swapOwner, o)} :: o in to.swapOwner ==>
               OwnsSwap(to.frames, to.swapOwner, o)
    ensures Sound(to)
  {
    forall f, g | f in to.frames && g in to.frames && f != g
      ensures FilesApart(to.frames[f].source, to.frames[g].source)
    {
      assert FilesApart(st.frames[f].source, st.frames[g].source);
    }
  }

  // ------------------------------------------------------------------
  // The ways in which a section may change the state
  // ------------------------------------------------------------------

  /** The bytes `x` at the place the frame is written back to. */
  function WriteTo(disk: Disk, fr: Frame, x: Page): Disk {
    if IsSharedFile(fr.source) then disk.(files := disk.files[(fr.source.backing, fr.source.offset) := x])
    else if fr.swapSlot.Some? then disk.(swap := disk.swap[fr.swapSlot.value := x])
    else disk
  }

  function WithFrame(st: State, f: nat, fr: Frame): State {
    st.(frames := st.frames[f := fr])
  }

  /** Two frames never share a resident slot, nor a place on disk that one of them is written to. */
  lemma ApartFrom(st: State, f: nat, g: nat, x: Page)
    requires Sound(st) && f in st.frames && g in st.frames && f != g
    ensures st.frames[f].slot.Some? ==> st.frames[g].slot != st.frames[f].slot
    ensures Backed(st.frames[g], WriteTo(st.disk, st.frames[f], x)) == Backed(st.frames[g], st.disk)
  {
    assert FrameSound(st, f) && FrameSound(st, g);
    assert FilesApart(st.frames[f].source, st.frames[g].source);
  }

  /** Writing a dirty frame back, completely or with a failure that leaves anything on disk. */
  function WrittenBack(st: State, f: nat, x: Page, ok: bool): State
    requires f in st.frames
  {
    WithFrame(st, f, st.frames[f].(dirty := !ok)).(disk := WriteTo(st.disk, st.frames[f], x))
  }

  lemma WriteBackFrame(st: State, f: nat, x: Page, ok: bool, g: nat)
    requires Sound(st) && f in st.frames && g in st.frames && st.frames[f].slot.Some?
    requires IsSharedFile(st.frames[f].source) || st.frames[f].swapSlot.Some?
    requires ok ==> x == Content(st.frames[f], st.arena, st.disk)
    ensures var to := WrittenBack(st, f, x, ok);
            FrameSound(to, g) && Content(to.frames[g], to.arena, to.disk) == Content(st.frames[g], st.arena, st.disk)
  {
    assert FrameSound(st, f) && FrameSound(st, g);
    if g != f {
      ApartFrom(st, f, g, x);
    }
  }

  lemma WriteBackIsInvisible(st: State, f: nat, x: Page, ok: bool)
    requires Sound(st) && f in st.frames && st.frames[f].slot.Some?
    requires IsSharedFile(st.frames[f].source) || st.frames[f].swapSlot.Some?
    requires ok ==> x == Content(st.frames[f], st.arena, st.disk)
    ensures Sound(WrittenBack(st, f, x, ok)) && Contents(WrittenBack(st, f, x, ok)) == Contents(st)
  {
    hide FrameSound, Content, FilesApart;
    var to := WrittenBack(st, f, x, ok);
    forall g | g in st.frames
      ensures FrameSound(to, g) && Content(to.frames[g], to.arena, to.disk) == Content(st.frames[g], st.arena, st.disk)
    {
      WriteBackFrame(st, f, x, ok, g);
    }
    forall s | s in to.owner ensures Owns(to.frames, to.owner, s) {
      assert Owns(st.frames, st.owner, s);
    }
    forall o | o in to.swapOwner ensures OwnsSwap(to.frames, to.swapOwner, o) {
      assert OwnsSwap(st.frames, st.swapOwner, o);
    }
    SoundAfter(st, to);
  }

  function SwapClaimed(st: State, f: nat, o: nat): State
    requires f in st.frames
  {
    WithFrame(st, f, st.frames[f].(swapSlot := Some(o))).(swapOwner := st.swapOwner[o := f])
  }

  lemma SwapFrame(st: State, f: nat, o: nat, g: nat)
    requires Sound(st) && f in st.frames && st.frames[f].slot.Some? && st.frames[f].dirty && g in st.frames
    requires !IsSharedFile(st.frames[f].source) && st.frames[f].swapSlot.None? && o !in st.swapOwner
    ensures var to := SwapClaimed(st, f, o);
            FrameSound(to, g) && Content(to.frames[g], to.arena, to.disk) == Content(st.frames[g], st.arena, st.disk)
  {
    assert FrameSound(st, f) && FrameSound(st, g);
  }

  lemma SwapSlotIsInvisible(st: State, f: nat, o: nat)
    requires Sound(st) && f in st.frames && st.frames[f].slot.Some? && st.frames[f].dirty
    requires !IsSharedFile(st.frames[f].source) && st.frames[f].swapSlot.None? && o !in st.swapOwner
    ensures Sound(SwapClaimed(st, f, o)) && Contents(SwapClaimed(st, f, o)) == Contents(st)
  {
    hide FrameSound, Content, FilesApart;
    var to := SwapClaimed(st, f, o);
    forall g | g in st.frames
      ensures FrameSound(to, g) && Content(to.frames[g], to.arena, to.disk) == Content(st.frames[g], st.arena, st.disk)
    {
      SwapFrame(st, f, o, g);
    }
    forall s | s in to.owner ensures Owns(to.frames, to.owner, s) {
      if s in st.owner {
        assert Owns(st.frames, st.owner, s);
      }
    }
    forall o | o in to.swapOwner ensures OwnsSwap(to.frames, to.swapOwner, o) {
      if o in st.swapOwner {
        assert OwnsSwap(st.frames, st.swapOwner, o);
      }
    }
    SoundAfter(st, to);
  }

  function Evicted(fr: Frame): Frame {
    fr.(slot := None, cold := false)
  }

  function EvictedState(st: State, f: nat, s: nat): State
    requires f in st.frames
  {
    WithFrame(st, f, Evicted(st.frames[f])).(owner := st.owner - {s})
  }

  lemma EvictionIsInvisible(st: State, f: nat, s: nat)
    requires Sound(st) && f in st.frames && st.frames[f].slot == Some(s) && !st.frames[f].dirty
    ensures s in st.owner
    ensures Sound(EvictedState(st, f, s)) && Contents(EvictedState(st, f, s)) == Contents(st)
  {
    var to := EvictedState(st, f, s);
    assert FrameSound(st, f);
    forall g | g in st.frames
      ensures FrameSound(to, g) && Content(to.frames[g], to.arena, to.disk) == Content(st.frames[g], st.arena, st.disk)
    {
      assert FrameSound(st, f) && FrameSound(st, g);
    }
    forall s | s in to.owner ensures Owns(to.frames, to.owner, s) {
      if s in st.owner {
        assert Owns(st.frames, st.owner, s);
      }
    }
    forall o | o in to.swapOwner ensures OwnsSwap(to.frames, to.swapOwner, o) {
      if o in st.swapOwner {
        assert OwnsSwap(st.frames, st.swapOwner, o);
      }
    }
    SoundAfter(st, to);
  }

  function PagedIn(st: State, f: nat, s: nat, data: Page, now: nat): State
    requires f in st.frames && s < |st.arena|
  {
    WithFrame(st, f, st.frames[f].(slot := Some(s), lastAccess := now, pending := false))
      .(arena := st.arena[s := data], owner := st.owner[s := f])
  }

  lemma PageInFrame(st: State, f: nat, s: nat, now: nat, g: nat)
    requires Sound(st) && f in st.frames && g in st.frames && st.frames[f].slot.None? && s < |st.arena|
    requires s !in st.owner
    ensures var to := PagedIn(st, f, s, Backed(st.frames[f], st.disk), now);
            FrameSound(to, g) && Content(to.frames[g], to.arena, to.disk) == Content(st.frames[g], st.arena, st.disk)
  {
    assert FrameSound(st, f) && FrameSound(st, g);
    hide Sound;
  }

  lemma PageInIsInvisible(st: State, f: nat, s: nat, now: nat)
    requires Sound(st) && f in st.frames && st.frames[f].slot.None? && s < |st.arena| && s !in st.owner
    ensures var to := PagedIn(st, f, s, Backed(st.frames[f], st.disk), now);
            Sound(to) && Contents(to) == Contents(st)
  {
    var to := PagedIn(st, f, s, Backed(st.frames[f], st.disk), now);
    forall g | g in st.frames
      ensures FrameSound(to, g) && Content(to.frames[g], to.arena, to.disk) == Content(st.frames[g], st.arena, st.disk)
    {
      PageInFrame(st, f, s, now, g);
    }
    hide FrameSound, Content, Backed;
    forall s | s in to.owner ensures Owns(to.frames, to.owner, s) {
      if s in st.owner {
        assert Owns(st.frames, st.owner, s);
      }
    }
    forall o | o in to.swapOwner ensures OwnsSwap(to.frames, to.swapOwner, o) {
      if o in st.swapOwner {
        assert OwnsSwap(st.frames, st.swapOwner, o);
      }
    }
    SoundAfter(st, to);
  }

  /** Pins, marks, counts and clocks. */
  lemma TouchIsInvisible(st: State, f: nat, fr: Frame)
    requires Sound(st) && f in st.frames
    requires fr.source == st.frames[f].source && fr.slot == st.frames[f].slot && fr.swapSlot == st.frames[f].swapSlot
    requires fr.dirty == st.frames[f].dirty && (fr.cold ==> fr.slot.Some?) && (fr.pending ==> fr.slot.None?)
    ensures Sound(WithFrame(st, f, fr)) && Contents(WithFrame(st, f, fr)) == Contents(st)
  {
    var to := WithFrame(st, f, fr);
    forall g | g in st.frames
      ensures FrameSound(to, g) && Content(to.frames[g], to.arena, to.disk) == Content(st.frames[g], st.arena, st.disk)
    {
      assert FrameSound(st, f) && FrameSound(st, g);
    }
    forall s | s in to.owner ensures Owns(to.frames, to.owner, s) {
      if s in st.owner {
        assert Owns(st.frames, st.owner, s);
      }
    }
    forall o | o in to.swapOwner ensures OwnsSwap(to.frames, to.swapOwner, o) {
      if o in st.swapOwner {
        assert OwnsSwap(st.frames, st.swapOwner, o);
      }
    }
    SoundAfter(st, to);
  }

  function Stored(st: State, f: nat, s: nat, x: Page): State
    requires f in st.frames && s < |st.arena|
  {
    WithFrame(st, f, st.frames[f].(dirty := true)).(arena := st.arena[s := x])
  }

  lemma StoreFrame(st: State, f: nat, s: nat, x: Page, g: nat)
    requires Sound(st) && f in st.frames && st.frames[f].slot == Some(s) && s < |st.arena| && g in st.frames
    ensures var to := Stored(st, f, s, x);
            && FrameSound(to, g)
            && Content(to.frames[g], to.arena, to.disk) == if g == f then x
                                                           else Content(st.frames[g], st.arena, st.disk)
  {
    assert FrameSound(st, f) && FrameSound(st, g);
    if g != f {
      ApartFrom(st, f, g, x);
    }
  }

  lemma StoreChangesOneFrame(st: State, f: nat, s: nat, x: Page)
    requires Sound(st) && f in st.frames && st.frames[f].slot == Some(s) && s < |st.arena|
    ensures Sound(Stored(st, f, s, x)) && Contents(Stored(st, f, s, x)) == Contents(st)[f := x]
  {
    hide FrameSound, Content, FilesApart;
    var to := Stored(st, f, s, x);
    forall g | g in st.frames
      ensures FrameSound(to, g)
      ensures Content(to.frames[g], to.arena, to.disk) == if g == f then x else Content(st.frames[g], st.arena, st.disk)
    {
      StoreFrame(st, f, s, x, g);
    }
    forall t | t in to.owner ensures Owns(to.frames, to.owner, t) {
      assert Owns(st.frames, st.owner, t);
    }
    forall o | o in to.swapOwner ensures OwnsSwap(to.frames, to.swapOwner, o) {
      assert OwnsSwap(st.frames, st.swapOwner, o);
    }
    SoundAfter(st, to);
  }

  lemma CreateAddsOneFrame(st: State, f: nat, source: Source)
    requires Sound(st) && f !in st.frames
    requires HasItsOwnPlace(st.frames, source)
    ensures var to := WithFrame(st, f, NewFrame(source));
            Sound(to) && Contents(to) == Contents(st)[f := Backed(NewFrame(source), st.disk)]
  {
    var to := WithFrame(st, f, NewFrame(source));
    forall g | g in to.frames ensures FrameSound(to, g) {
      if g != f {
        assert FrameSound(st, g);
      }
    }
    hide FrameSound, Backed, Content;
    forall g, h | g in to.frames && h in to.frames && g != h
      ensures FilesApart(to.frames[g].source, to.frames[h].source)
    {
      if g != f && h != f {
        assert FilesApart(st.frames[g].source, st.frames[h].source);
      }
    }
    forall s | s in to.owner ensures Owns(to.frames, to.owner, s) {
      assert Owns(st.frames, st.owner, s);
    }
    forall o | o in to.swapOwner ensures OwnsSwap(to.frames, to.swapOwner, o) {
      assert OwnsSwap(st.frames, st.swapOwner, o);
    }
  }

  /** What callers owe when they create a frame over a file page. */
  predicate HasItsOwnPlace(frames: FrameMap, source: Source) {
    forall g :: g in frames ==> FilesApart(source, frames[g].source) && FilesApart(frames[g].source, source)
  }

  function NewFrame(source: Source): Frame {
    Frame(source, None, None, 0, 0, 0, 1, 0, false, false, false)
  }

  function Removed(st: State, f: nat): State
    requires f in st.frames
  {
    State(st.frames - {f}, st.arena, st.disk,
          if st.frames[f].slot.Some? then st.owner - {st.frames[f].slot.value} else st.owner,
          if st.frames[f].swapSlot.Some? then st.swapOwner - {st.frames[f].swapSlot.value} else st.swapOwner)
  }

  lemma RemovedShape(st: State, f: nat)
    requires f in st.frames
    ensures Removed(st, f).frames == st.frames - {f} && Removed(st, f).arena == st.arena
  {
  }

  lemma ReleaseRemovesOneFrame(st: State, f: nat)
    requires Sound(st) && f in st.frames
    ensures Sound(Removed(st, f)) && Contents(Removed(st, f)) == Contents(st) - {f}
  {
    var to := Removed(st, f);
    assert FrameSound(st, f);
    forall g | g in to.frames ensures FrameSound(to, g) {
      assert FrameSound(st, g);
    }
    forall g, h | g in to.frames && h in to.frames && g != h
      ensures FilesApart(to.frames[g].source, to.frames[h].source)
    {
      assert FilesApart(st.frames[g].source, st.frames[h].source);
    }
    forall s | s in to.owner ensures Owns(to.frames, to.owner, s) {
      assert Owns(st.frames, st.owner, s);
    }
    forall o | o in to.swapOwner ensures OwnsSwap(to.frames, to.swapOwner, o) {
      assert OwnsSwap(st.frames, st.swapOwner, o);
    }
  }

  // ------------------------------------------------------------------
  // Conservation
  // ------------------------------------------------------------------

  datatype SlotPool = SlotPool(free: seq<nat>, resident: nat)

  datatype SwapPool = SwapPool(free: seq<nat>, next: nat, highWater: nat, count: nat)

  datatype Books = Books(
    order: seq<nat>, nextId: nat, clock: nat, pageIns: nat, pageOuts: nat, scans: nat, reclaims: nat, refaults: nat)

  ghost function UpTo(n: nat): (s: set<nat>)
    ensures |s| == n && forall i :: i in s <==> 0 <= i < n
  {
    if n == 0 then {} else UpTo(n - 1) + {n - 1}
  }

  ghost function Offsets(n: nat): (s: set<nat>)
    ensures |s| == n && forall o :: o in s ==> o < n * PAGE_SIZE
  {
    if n == 0 then {} else Offsets(n - 1) + {(n - 1) * PAGE_SIZE}
  }

  /** Free and owned resident slots together are 0 .. limit - 1, each exactly once. */
  ghost predicate SlotsConserved(pool: SlotPool, owner: map<nat, nat>, limit: nat) {
    && multiset(pool.free) + multiset(owner.Keys) == multiset(UpTo(limit))
    && pool.resident == |owner|
  }

  /** Every swap offset handed out so far is free or owned, exactly once. */
  ghost predicate SwapConserved(pool: SwapPool, owner: map<nat, nat>) {
    && multiset(pool.free) + multiset(owner.Keys) == multiset(Offsets(pool.highWater))
    && pool.next == pool.highWater * PAGE_SIZE && pool.count == |owner|
  }

  ghost function Pending(frames: FrameMap): set<nat> {
    set f | f in frames && frames[f].pending
  }

  /**
   * The frame list holds every frame once, and every reclaim is accounted for:
   * refaulted, still out, or released while out.
   */
  ghost predicate Booked(frames: FrameMap, books: Books, released: nat) {
    && multiset(books.order) == multiset(frames.Keys)
    && (forall f :: f in frames ==> f < books.nextId)
    && books.reclaims == books.refaults + |Pending(frames)| + released
  }

  lemma SlotsBounded(pool: SlotPool, owner: map<nat, nat>, limit: nat)
    requires SlotsConserved(pool, owner, limit)
    ensures |pool.free| + pool.resident == limit
  {
    hide UpTo;
    assert |multiset(UpTo(limit))| == limit;
    assert |multiset(pool.free) + multiset(owner.Keys)| == |pool.free| + |owner.Keys|;
  }

  lemma SlotTaken(pool: SlotPool, owner: map<nat, nat>, limit: nat, f: nat)
    requires SlotsConserved(pool, owner, limit) && pool.free != []
    ensures var n, s := |pool.free| - 1, pool.free[|pool.free| - 1];
            s < limit && s !in owner
            && SlotsConserved(SlotPool(pool.free[..n], pool.resident + 1), owner[s := f], limit)
  {
    hide UpTo;
    var n, s := |pool.free| - 1, pool.free[|pool.free| - 1];
    assert pool.free == pool.free[..n] + [s];
    assert s in multiset(pool.free) + multiset(owner.Keys);
    assert s in UpTo(limit);
    assert (multiset(pool.free) + multiset(owner.Keys))[s] == 1;
    assert owner[s := f].Keys == owner.Keys + {s};
  }

  lemma SlotGiven(pool: SlotPool, owner: map<nat, nat>, limit: nat, s: nat)
    requires SlotsConserved(pool, owner, limit) && s in owner
    ensures s < limit && pool.resident > 0
    ensures SlotsConserved(SlotPool(pool.free + [s], pool.resident - 1), owner - {s}, limit)
  {
    hide UpTo;
    assert s in multiset(pool.free) + multiset(owner.Keys);
    assert s in UpTo(limit);
    assert (owner - {s}).Keys == owner.Keys - {s};
    assert multiset(owner.Keys) == multiset(owner.Keys - {s}) + multiset{s};
  }

  lemma SwapReused(pool: SwapPool, owner: map<nat, nat>, f: nat)
    requires SwapConserved(pool, owner) && pool.free != []
    ensures pool.free[0] !in owner
    ensures SwapConserved(pool.(free := pool.free[1..], count := pool.count + 1), owner[pool.free[0] := f])
  {
    hide Offsets;
    var o := pool.free[0];
    assert pool.free == [o] + pool.free[1..];
    assert o in multiset(pool.free) + multiset(owner.Keys);
    assert (multiset(pool.free) + multiset(owner.Keys))[o] == 1;
    assert owner[o := f].Keys == owner.Keys + {o};
  }

  lemma OneMoreOffset(n: nat)
    ensures Offsets(n + 1) == Offsets(n) + {n * PAGE_SIZE}
  {
  }

  lemma SwapGrown(pool: SwapPool, owner: map<nat, nat>, f: nat)
    requires SwapConserved(pool, owner) && pool.free == []
    ensures pool.next !in owner
    ensures SwapConserved(SwapPool([], pool.next + PAGE_SIZE, pool.highWater + 1, pool.count + 1),
                          owner[pool.next := f])
  {
    hide Offsets;
    OneMoreOffset(pool.highWater);
    assert multiset(owner.Keys) == multiset(Offsets(pool.highWater));
    assert pool.next !in Offsets(pool.highWater);
    assert pool.next !in multiset(owner.Keys);
    assert owner[pool.next := f].Keys == owner.Keys + {pool.next};
    assert multiset(owner.Keys + {pool.next}) == multiset(owner.Keys) + multiset{pool.next};
    assert multiset(Offsets(pool.highWater) + {pool.next}) == multiset(Offsets(pool.highWater)) + multiset{pool.next};
  }

  lemma SwapGiven(pool: SwapPool, owner: map<nat, nat>, o: nat)
    requires SwapConserved(pool, owner) && o in owner
    ensures pool.count > 0
    ensures SwapConserved(pool.(free := [o] + pool.free, count := pool.count - 1), owner - {o})
  {
    hide Offsets;
    assert (owner - {o}).Keys == owner.Keys - {o};
    assert multiset(owner.Keys) == multiset(owner.Keys - {o}) + multiset{o};
  }

  /** A change of one frame and what it adds to the counters. */
  lemma BookedAfter(frames: FrameMap, f: nat, fr: Frame, books: Books, to: Books, released: nat)
    requires f in frames && Booked(frames, books, released)
    requires to.order == books.order && to.nextId == books.nextId
    requires to.reclaims - to.refaults
          == books.reclaims - books.refaults + (if fr.pending then 1 else 0) - (if frames[f].pending then 1 else 0)
    ensures Booked(frames[f := fr], to, released)
  {
    assert frames[f := fr].Keys == frames.Keys;
    var before, after := Pending(frames), Pending(frames[f := fr]);
    assert after - {f} == before - {f};
    assert |before| == |before - {f}| + (if frames[f].pending then 1 else 0);
    assert |after| == |after - {f}| + (if fr.pending then 1 else 0);
  }

  // ------------------------------------------------------------------
  // Replacement order
  // ------------------------------------------------------------------

  /** minimm_frame_precedes_candidate */
  predicate Precedes(frames: FrameMap, f: nat, g: nat)
    requires f in frames && g in frames
  {
    if frames[f].cold != frames[g].cold then frames[f].cold
    else if frames[f].lastAccess != frames[g].lastAccess then frames[f].lastAccess < frames[g].lastAccess
    else f < g
  }

  predicate IsEligible(fr: Frame) {
    fr.slot.Some? && fr.pins == 0 && fr.transient == 0
  }

  predicate IsTransientVictim(fr: Frame) {
    fr.slot.Some? && fr.pins == 0 && fr.transient != 0
  }

  ghost function Resident(frames: FrameMap, excluded: Option<nat>): set<nat> {
    set f | f in frames && frames[f].slot.Some? && Some(f) != excluded
  }

  ghost function Eligible(frames: FrameMap, excluded: Option<nat>): set<nat> {
    set f | f in frames && IsEligible(frames[f]) && Some(f) != excluded
  }

  /** The frame that goes first among those in `pool`. */
  ghost predicate IsFirst(frames: FrameMap, pool: set<nat>, v: nat) {
    v in pool && v in frames && forall g :: g in pool && g in frames && g != v ==> Precedes(frames, v, g)
  }

  ghost predicate BestIn(frames: FrameMap, excluded: Option<nat>, seen: set<nat>, victim: Option<nat>) {
    if victim.None? then Eligible(frames, excluded) * seen == {}
    else IsFirst(frames, Eligible(frames, excluded) * seen, victim.value)
  }

  lemma BestStep(frames: FrameMap, excluded: Option<nat>, seen: set<nat>, victim: Option<nat>, current: nat)
    requires BestIn(frames, excluded, seen, victim) && current in frames && current !in seen
    ensures BestIn(frames, excluded, seen + {current},
                   if current in Eligible(frames, excluded) && (victim.None? || Precedes(frames, current, victim.value))
                   then Some(current) else victim)
  {
    hide Eligible, Precedes;
    var e := Eligible(frames, excluded);
    assert e * (seen + {current}) == if current in e then e * seen + {current} else e * seen;
    if current in e && victim.Some? {
      FirstStep(frames, e * seen, victim.value, current);
    }
  }

  lemma FirstStep(frames: FrameMap, pool: set<nat>, v: nat, current: nat)
    requires IsFirst(frames, pool, v) && current in frames && current !in pool
    ensures IsFirst(frames, pool + {current}, if Precedes(frames, current, v) then current else v)
  {
    forall g | g in pool && g in frames && g != v
      ensures Precedes(frames, current, v) ==> Precedes(frames, current, g)
    {
      assert Precedes(frames, v, g);
    }
  }

  lemma ResidentStep(frames: FrameMap, excluded: Option<nat>, seen: set<nat>, current: nat)
    requires current !in seen
    ensures |Resident(frames, excluded) * (seen + {current})|
         == |Resident(frames, excluded) * seen| + (if current in Resident(frames, excluded) then 1 else 0)
  {
    var r := Resident(frames, excluded);
    hide Resident;
    assert r * (seen + {current}) == if current in r then r * seen + {current} else r * seen;
  }

  lemma AllSeen(frames: FrameMap, excluded: Option<nat>)
    ensures Resident(frames, excluded) * frames.Keys == Resident(frames, excluded)
    ensures Eligible(frames, excluded) * frames.Keys == Eligible(frames, excluded)
    ensures Resident(frames, excluded) * {} == {} && Eligible(frames, excluded) * {} == {}
  {
  }

  lemma Membership(frames: FrameMap, excluded: Option<nat>, f: nat)
    requires f in frames
    ensures f in Resident(frames, excluded) <==> frames[f].slot.Some? && Some(f) != excluded
    ensures f in Eligible(frames, excluded) <==>
              frames[f].slot.Some? && frames[f].pins == 0 && frames[f].transient == 0 && Some(f) != excluded
  {
  }

  ghost function Elems(s: seq<nat>): set<nat> {
    set x | x in s
  }

  /** The frame list holds every frame exactly once. */
  lemma ListStep(frames: FrameMap, books: Books, released: nat, i: nat)
    requires Booked(frames, books, released) && i < |books.order|
    ensures books.order[i] in frames && books.order[i] !in Elems(books.order[..i])
    ensures Elems(books.order[..i + 1]) == Elems(books.order[..i]) + {books.order[i]}
  {
    var order := books.order;
    assert order[i] in multiset(order);
    assert order == order[..i] + [order[i]] + order[i + 1..];
    assert multiset(order)[order[i]] == 1;
    assert order[..i + 1] == order[..i] + [order[i]];
  }

  lemma ListEnds(frames: FrameMap, books: Books, released: nat)
    requires Booked(frames, books, released)
    ensures Elems(books.order[..0]) == {} && Elems(books.order[..|books.order|]) == frames.Keys
  {
    var order := books.order;
    assert order[..|order|] == order;
    forall f ensures f in order <==> f in frames {
      assert f in multiset(order) <==> f in multiset(frames.Keys);
    }
  }

  datatype Outcome = Done(status: Status, pagedIn: bool) | MustWait

  /** Paging out touches residency, cold mark and dirty mark, and may claim a swap slot. */
  ghost predicate PagedOut(from: Frame, to: Frame, ok: bool) {
    if ok then to == Evicted(from).(swapSlot := to.swapSlot, dirty := false, pending := to.pending)
    else to == from.(swapSlot := to.swapSlot, dirty := to.dirty)
  }

  ghost predicate SameBut(from: FrameMap, to: FrameMap, f: nat) {
    from.Keys == to.Keys && forall g :: g in from && g != f ==> to[g] == from[g]
  }

  /** A resident frame that is pinned, for good by a lock or for the time of an access */
  predicate Held(fr: Frame) {
    fr.slot.Some? && !IsEligible(fr)
  }

  /** Nobody's pins and references change, and a held frame stays where it is: pointers to its bytes stay good. */
  ghost predicate StaysHeld(from: FrameMap, to: FrameMap, f: nat)
    requires f in from
  {
    && f in to && to[f].pins == from[f].pins && to[f].transient == from[f].transient && to[f].refs == from[f].refs
    && (Held(from[f]) ==> to[f].slot == from[f].slot)
  }

  ghost predicate HeldStay(from: FrameMap, to: FrameMap) {
    forall f {:trigger StaysHeld(from, to, f)} :: f in from ==> StaysHeld(from, to, f)
  }

  lemma HeldStayLonger(from: FrameMap, middle: FrameMap, to: FrameMap)
    requires HeldStay(from, middle) && HeldStay(middle, to)
    ensures HeldStay(from, to)
  {
    forall f | f in from
      ensures StaysHeld(from, to, f)
    {
      assert StaysHeld(from, middle, f) && StaysHeld(middle, to, f);
    }
  }

  /** Only a frame that is not held leaves the arena. */
  lemma EvictionSparesHeld(from: FrameMap, to: FrameMap, f: nat, ok: bool)
    requires f in from && SameBut(from, to, f) && PagedOut(from[f], to[f], ok) && (Held(from[f]) ==> !ok)
    ensures HeldStay(from, to)
  {
  }

  lemma NothingMoves(frames: FrameMap)
    ensures HeldStay(frames, frames)
  {
  }

  lemma OneFrameHeld(from: FrameMap, to: FrameMap, f: nat)
    requires f in from && SameBut(from, to, f) && StaysHeld(from, to, f)
    ensures HeldStay(from, to)
  {
  }

  lemma FrameFacts(st: State, f: nat)
    requires Sound(st) && f in st.frames
    ensures st.frames[f].slot.None? ==>
              !st.frames[f].dirty && !st.frames[f].cold && Contents(st)[f] == Backed(st.frames[f], st.disk)
    ensures st.frames[f].slot.Some? ==>
              && !st.frames[f].pending && st.frames[f].slot.value < |st.arena| && st.frames[f].slot.value in st.owner
              && Contents(st)[f] == st.arena[st.frames[f].slot.value]
    ensures st.frames[f].swapSlot.Some? ==> st.frames[f].swapSlot.value in st.swapOwner
  {
    assert FrameSound(st, f);
  }

  lemma CountDown(s: seq<nat>, n: nat)
    requires |s| == n && forall i :: 0 <= i < n ==> s[i] == n - i - 1
    ensures multiset(s) == multiset(UpTo(n))
  {
    if n > 0 {
      assert s == [n - 1] + s[1..];
      CountDown(s[1..], n - 1);
    }
  }

  lemma ScansIrrelevant(frames: FrameMap, books: Books, released: nat, more: nat)
    requires Booked(frames, books, released)
    ensures Booked(frames, books.(scans := books.scans + more), released)
  {
  }

  lemma KeysWith(keys: set<nat>, order: seq<nat>, f: nat)
    requires f !in keys && multiset(order) == multiset(keys)
    ensures multiset([f] + order) == multiset(keys + {f})
  {
  }

  lemma ListedFirst(frames: FrameMap, f: nat, source: Source, books: Books, released: nat)
    requires Booked(frames, books, released) && f == books.nextId
    ensures f !in frames
    ensures Booked(frames[f := NewFrame(source)], books.(order := [f] + books.order, nextId := f + 1), released)
  {
    var to := frames[f := NewFrame(source)];
    KeysWith(frames.Keys, books.order, f);
    assert to.Keys == frames.Keys + {f};
    assert Pending(to) == Pending(frames);
    hide Pending, NewFrame;
  }

  function Without(s: seq<nat>, x: nat): (r: seq<nat>)
    ensures multiset(r) == multiset(s)[x := 0]
  {
    if s == [] then [] else
    assert s == [s[0]] + s[1..];
    if s[0] == x then Without(s[1..], x) else [s[0]] + Without(s[1..], x)
  }

  lemma ListedNoMore(frames: FrameMap, f: nat, books: Books, released: nat)
    requires Booked(frames, books, released) && f in frames
    ensures Booked(frames - {f}, books.(order := Without(books.order, f)),
                   released + (if frames[f].pending then 1 else 0))
  {
    var to := frames - {f};
    assert to.Keys == frames.Keys - {f};
    assert Pending(to) == Pending(frames) - {f};
  }

  // ------------------------------------------------------------------
  // Bounded reclaim
  // ------------------------------------------------------------------

  function Min(a: nat, b: nat): nat {
    if a < b then a else b
  }

  /** Frames looked at by `scans` scans that start with `n` resident frames and lose one each time. */
  function ScanTotal(n: nat, scans: nat): int {
    if scans == 0 then 0 else ScanTotal(n, scans - 1) + (n - (scans - 1))
  }

  /** `evicted` is an initial segment of the eligible frames in replacement order. */
  ghost predicate EvictedInOrder(start: FrameMap, evicted: seq<nat>) {
    && (forall i :: 0 <= i < |evicted| ==> evicted[i] in Eligible(start, None))
    && (forall i, j :: 0 <= i < j < |evicted| ==> evicted[i] != evicted[j] && Precedes(start, evicted[i], evicted[j]))
    && (forall i, g :: 0 <= i < |evicted| && g in Eligible(start, None) && g !in evicted ==>
          Precedes(start, evicted[i], g))
  }

  ghost predicate EvictedSoFar(start: FrameMap, now: FrameMap, evicted: seq<nat>) {
    && start.Keys == now.Keys
    && EvictedInOrder(start, evicted)
    && Resident(now, None) == Resident(start, None) - Elems(evicted)
    && Eligible(now, None) == Eligible(start, None) - Elems(evicted)
    && (forall g :: g in Eligible(now, None) ==> now[g] == start[g])
  }

  lemma NothingEvicted(start: FrameMap)
    ensures EvictedSoFar(start, start, [])
  {
  }

  lemma EvictedCounts(start: FrameMap, now: FrameMap, evicted: seq<nat>)
    requires EvictedSoFar(start, now, evicted)
    ensures |Resident(now, None)| == |Resident(start, None)| - |evicted|
    ensures |Eligible(now, None)| == |Eligible(start, None)| - |evicted|
    ensures start.Keys == now.Keys && EvictedInOrder(start, evicted)
    ensures Resident(now, None) == Resident(start, None) - Elems(evicted)
  {
    DistinctElems(evicted);
    assert Elems(evicted) <= Eligible(start, None) <= Resident(start, None);
  }

  lemma {:induction false} DistinctElems(s: seq<nat>)
    requires forall i, j :: 0 <= i < j < |s| ==> s[i] != s[j]
    ensures |Elems(s)| == |s|
  {
    if s != [] {
      var n := |s| - 1;
      DistinctElems(s[..n]);
      assert s == s[..n] + [s[n]];
      assert Elems(s) == Elems(s[..n]) + {s[n]};
    }
  }

  lemma EvictStep(start: FrameMap, before: FrameMap, after: FrameMap, evicted: seq<nat>, v: nat, ok: bool)
    requires EvictedSoFar(start, before, evicted) && IsFirst(before, Eligible(before, None), v)
    requires SameBut(before, after, v) && PagedOut(before[v], after[v], ok)
    ensures start.Keys == after.Keys
    ensures ok ==> EvictedSoFar(start, after, evicted + [v])
    ensures !ok ==> EvictedInOrder(start, evicted) && Resident(after, None) == Resident(start, None) - Elems(evicted)
  {
    hide Precedes;
    assert Elems(evicted + [v]) == Elems(evicted) + {v};
    if ok {
      assert Resident(after, None) == Resident(before, None) - {v};
      assert Eligible(after, None) == Eligible(before, None) - {v};
      forall g | g in Eligible(after, None) ensures Precedes(start, v, g) {
        assert Precedes(before, v, g);
        SameOrder(start, before, v, g);
      }
    } else {
      assert Resident(after, None) == Resident(before, None);
    }
  }

  lemma FirstIsThere(frames: FrameMap, pool: set<nat>, v: nat)
    requires IsFirst(frames, pool, v)
    ensures v in frames && v in pool
  {
  }

  lemma SameOrder(start: FrameMap, now: FrameMap, f: nat, g: nat)
    requires f in start && g in start && f in now && g in now && now[f] == start[f] && now[g] == start[g]
    ensures Precedes(start, f, g) == Precedes(now, f, g)
  {
  }

  class FrameStore {
    const limit: nat
    var mem: State
    var slots: SlotPool
    var swap: SwapPool
    var books: Books
    /** Backings with a latched writeback error. */
    var failing: set<nat>
    ghost var released: nat

    ghost predicate Valid()
      reads this
    {
      && |mem.arena| == limit > 0 && Sound(mem)
      && SlotsConserved(slots, mem.owner, limit)
      && SwapConserved(swap, mem.swapOwner)
      && Booked(mem.frames, books, released)
    }

    /** minimm_frame_store_create */
    constructor (pages: nat)
      requires pages > 0
      ensures Valid() && limit == pages && mem.frames == map[]
    {
      limit := pages;
      mem := State(map[], seq(pages, _ => ZERO), Disk(map[], map[]), map[], map[]);
      slots := SlotPool(seq(pages, i requires 0 <= i < pages => pages - i - 1), 0);
      swap, books, failing, released := SwapPool([], 0, 0, 0), Books([], 1, 0, 0, 0, 0, 0, 0), {}, 0;
      new;
      CountDown(slots.free, pages);
      assert Pending(mem.frames) == {};
    }

    /** minimm_frame_acquire_swap_slot_locked */
    method AcquireSwapSlot(f: nat) returns (status: Status)
      requires Valid() && f in mem.frames && mem.frames[f].slot.Some? && mem.frames[f].dirty
      requires !IsSharedFile(mem.frames[f].source)
      modifies this`mem, this`swap
      ensures Valid() && Contents(mem) == Contents(old(mem))
      ensures f in mem.frames && SameBut(old(mem).frames, mem.frames, f)
      ensures mem.frames[f] == old(mem).frames[f].(swapSlot := mem.frames[f].swapSlot)
      ensures status == Ok ==> mem.frames[f].swapSlot.Some?
    {
      hide Sound, SwapConserved, SlotsConserved, Booked, Contents;
      if mem.frames[f].swapSlot.Some? {
        return Ok;
      }
      var o;
      if swap.free != [] {
        o := swap.free[0];
        SwapReused(swap, mem.swapOwner, f);
        swap := swap.(free := swap.free[1..], count := swap.count + 1);
      } else {
        if swap.next > INT64_MAX - PAGE_SIZE || swap.highWater == UINT64_MAX {
          return NoSpace;
        }
        var available: bool := *;
        if !available {
          return OutOfMemory;
        }
        o := swap.next;
        SwapGrown(swap, mem.swapOwner, f);
        swap := SwapPool([], swap.next + PAGE_SIZE, swap.highWater + 1, swap.count + 1);
      }
      SwapSlotIsInvisible(mem, f, o);
      BookedAfter(mem.frames, f, mem.frames[f].(swapSlot := Some(o)), books, books, released);
      mem := SwapClaimed(mem, f, o);
      status := Ok;
    }

    /** minimm_frame_write_back_locked */
    method WriteBack(f: nat) returns (status: Status)
      requires Valid() && f in mem.frames
      modifies this`mem, this`swap, this`failing
      ensures Valid() && Contents(mem) == Contents(old(mem))
      ensures f in mem.frames && SameBut(old(mem).frames, mem.frames, f)
      ensures mem.frames[f] == old(mem).frames[f].(swapSlot := mem.frames[f].swapSlot, dirty := mem.frames[f].dirty)
      ensures status == Ok ==> !mem.frames[f].dirty
    {
      hide Sound, SwapConserved, SlotsConserved, Booked, Contents;
      FrameFacts(mem, f);
      if !mem.frames[f].dirty || mem.frames[f].slot.None? {
        return Ok;
      }
      if IsSharedFile(mem.frames[f].source) {
        if mem.frames[f].source.backing in failing {
          return IoError;
        }
      } else {
        status := AcquireSwapSlot(f);
        if status != Ok {
          return;
        }
      }
      status := WritePage(f);
    }

    /** minimm_write_page with the error latch: a failed write may leave anything on disk. */
    method WritePage(f: nat) returns (status: Status)
      requires Valid() && f in mem.frames && mem.frames[f].slot.Some? && mem.frames[f].dirty
      requires IsSharedFile(mem.frames[f].source) || mem.frames[f].swapSlot.Some?
      modifies this`mem, this`failing
      ensures Valid() && Contents(mem) == Contents(old(mem))
      ensures f in mem.frames && SameBut(old(mem).frames, mem.frames, f)
      ensures mem.frames[f] == old(mem).frames[f].(dirty := mem.frames[f].dirty)
      ensures status == Ok ==> !mem.frames[f].dirty
    {
      hide Sound, SwapConserved, SlotsConserved, Booked, Contents;
      status := *;
      FrameFacts(mem, f);
      var written: Page := mem.arena[mem.frames[f].slot.value];
      if status != Ok {
        written := *;
        if IsSharedFile(mem.frames[f].source) {
          failing := failing + {mem.frames[f].source.backing};
        }
      }
      WriteBackIsInvisible(mem, f, written, status == Ok);
      BookedAfter(mem.frames, f, mem.frames[f].(dirty := status != Ok), books, books, released);
      mem := WrittenBack(mem, f, written, status == Ok);
    }

    /** minimm_frame_page_out_locked; the abort in releasing the slot cannot be reached. */
    method PageOut(f: nat) returns (status: Status)
      requires Valid() && f in mem.frames
      modifies this`mem, this`swap, this`failing, this`slots, this`books
      ensures Valid() && Contents(mem) == Contents(old(mem))
      ensures f in mem.frames && SameBut(old(mem).frames, mem.frames, f)
      ensures PagedOut(old(mem).frames[f], mem.frames[f], status == Ok)
      ensures mem.frames[f].pending == old(mem).frames[f].pending
      ensures old(mem).frames[f].slot.Some? && !IsEligible(old(mem).frames[f]) ==> status == Busy
      ensures books == old(books).(pageOuts := books.pageOuts)
      ensures slots.resident == old(slots).resident - (if status == Ok && old(mem).frames[f].slot.Some? then 1 else 0)
    {
      hide Sound, SwapConserved, SlotsConserved, Booked, Contents;
      FrameFacts(mem, f);
      if mem.frames[f].slot.None? {
        return Ok;
      }
      if mem.frames[f].pins != 0 || mem.frames[f].transient != 0 {
        return Busy;
      }
      status := WriteBack(f);
      if status == Ok {
        var s := mem.frames[f].slot.value;
        EvictionIsInvisible(mem, f, s);
        SlotGiven(slots, mem.owner, limit, s);
        var after := books.(pageOuts := books.pageOuts + 1);
        BookedAfter(mem.frames, f, Evicted(mem.frames[f]), books, after, released);
        slots := SlotPool(slots.free + [s], slots.resident - 1);
        mem := EvictedState(mem, f, s);
        books := after;
      }
    }

    /** minimm_frame_reclaim_page_locked */
    method ReclaimPage(f: nat) returns (status: Status)
      requires Valid() && f in mem.frames
      modifies this`mem, this`swap, this`failing, this`slots, this`books
      ensures Valid() && Contents(mem) == Contents(old(mem))
      ensures f in mem.frames && SameBut(old(mem).frames, mem.frames, f)
      ensures PagedOut(old(mem).frames[f], mem.frames[f], status == Ok)
      ensures old(mem).frames[f].slot.Some? && !IsEligible(old(mem).frames[f]) ==> status == Busy
      ensures books == old(books).(pageOuts := books.pageOuts, reclaims := books.reclaims)
      ensures slots.resident == old(slots).resident - (if status == Ok && old(mem).frames[f].slot.Some? then 1 else 0)
    {
      hide Sound, SwapConserved, SlotsConserved, Booked, Contents;
      var wasResident := mem.frames[f].slot.Some?;
      FrameFacts(mem, f);
      status := PageOut(f);
      if status == Ok && wasResident {
        var after := books.(reclaims := books.reclaims + 1);
        TouchIsInvisible(mem, f, mem.frames[f].(pending := true));
        BookedAfter(mem.frames, f, mem.frames[f].(pending := true), books, after, released);
        mem := WithFrame(mem, f, mem.frames[f].(pending := true));
        books := after;
      }
    }

    /** minimm_frame_select_victim_locked: the first eligible frame in replacement order. */
    method SelectVictim(excluded: Option<nat>) returns (victim: Option<nat>, scanned: nat)
      requires Booked(mem.frames, books, released)
      modifies this`books
      ensures books == old(books).(scans := old(books).scans + scanned) && Booked(mem.frames, books, released)
      ensures if victim.None? then Eligible(mem.frames, excluded) == {}
              else IsFirst(mem.frames, Eligible(mem.frames, excluded), victim.value)
      ensures scanned == |Resident(mem.frames, excluded)|
    {
      hide Elems, Precedes, IsFirst, Resident, Eligible, Booked;
      victim, scanned := None, 0;
      var order := books.order;
      ghost var seen := Elems(order[..0]);
      ListEnds(mem.frames, books, released);
      AllSeen(mem.frames, excluded);
      for i := 0 to |order|
        invariant seen == Elems(order[..i]) && books == old(books)
        invariant scanned == |Resident(mem.frames, excluded) * seen|
        invariant victim.Some? ==> victim.value in mem.frames
        invariant BestIn(mem.frames, excluded, seen, victim)
      {
        hide BestIn;
        var current := order[i];
        ListStep(mem.frames, books, released, i);
        Membership(mem.frames, excluded, current);
        BestStep(mem.frames, excluded, seen, victim, current);
        ResidentStep(mem.frames, excluded, seen, current);
        if Some(current) != excluded && mem.frames[current].slot.Some? {
          scanned := scanned + 1;
          if mem.frames[current].pins == 0 && mem.frames[current].transient == 0
             && (victim.None? || Precedes(mem.frames, current, victim.value)) {
            victim := Some(current);
          }
        }
        seen := seen + {current};
      }
      ScansIrrelevant(mem.frames, books, released, scanned);
      books := books.(scans := books.scans + scanned);
    }

    /** minimm_frame_has_transient_victim_locked */
    method HasTransientVictim(excluded: nat) returns (found: bool)
      requires Booked(mem.frames, books, released)
      ensures found <==> exists g :: g in mem.frames && g != excluded && IsTransientVictim(mem.frames[g])
    {
      hide Booked, Elems;
      found := false;
      ListEnds(mem.frames, books, released);
      for i := 0 to |books.order|
        invariant !found
        invariant forall g :: g in Elems(books.order[..i]) ==>
                    g in mem.frames && (g == excluded || !IsTransientVictim(mem.frames[g]))
      {
        ListStep(mem.frames, books, released, i);
        if books.order[i] != excluded && IsTransientVictim(mem.frames[books.order[i]]) {
          return true;
        }
      }
    }

    /** One pass through the loop of minimm_frame_make_resident_locked, up to its return or its wait. */
    method Attempt(f: nat) returns (out: Outcome)
      requires Valid() && f in mem.frames
      modifies this`mem, this`swap, this`failing, this`slots, this`books
      ensures Valid() && Contents(mem) == Contents(old(mem)) && mem.frames.Keys == old(mem).frames.Keys
      ensures out.Done? && out.status == Ok ==>
                mem.frames[f].slot.Some? && !mem.frames[f].cold && mem.frames[f].lastAccess == books.clock
      ensures out.MustWait? ==>
                mem == old(mem) && exists g :: g in mem.frames && g != f && IsTransientVictim(mem.frames[g])
      ensures forall g :: g in mem.frames && old(mem).frames[g].slot.Some? && mem.frames[g].slot.None? ==>
                old(slots).resident >= limit && IsFirst(old(mem).frames, Eligible(old(mem).frames, Some(f)), g)
      ensures HeldStay(old(mem).frames, mem.frames)
    {
      hide Sound, SwapConserved, SlotsConserved, Booked, Contents, IsFirst, HeldStay;
      ghost var start := mem.frames;
      FrameFacts(mem, f);
      if mem.frames[f].slot.Some? {
        Touch(f, mem.frames[f].(cold := false, lastAccess := books.clock + 1), books.(clock := books.clock + 1));
        OneFrameHeld(start, mem.frames, f);
        return Done(Ok, false);
      }
      OneFrameHeld(start, start, f);
      var status: Status := *;
      if status != Ok {
        return Done(status, false);
      }
      var data := Backed(mem.frames[f], mem.disk);
      SlotsBounded(slots, mem.owner, limit);
      if slots.resident >= limit {
        var victim, scanned := SelectVictim(Some(f));
        if victim.None? {
          var transient := HasTransientVictim(f);
          return if transient then MustWait else Done(Busy, false);
        }
        FirstIsThere(start, Eligible(start, Some(f)), victim.value);
        status := ReclaimPage(victim.value);
        EvictionSparesHeld(start, mem.frames, victim.value, status == Ok);
        if status != Ok {
          return Done(status, false);
        }
        FrameFacts(mem, f);
      }
      ghost var middle := mem.frames;
      Install(f, data);
      OneFrameHeld(middle, mem.frames, f);
      HeldStayLonger(start, middle, mem.frames);
      out := Done(Ok, true);
    }

    /** Bytes read earlier become the resident copy; there is always a slot left for them. */
    method Install(f: nat, data: Page)
      requires Valid() && f in mem.frames && mem.frames[f].slot.None? && slots.resident < limit
      requires data == Backed(mem.frames[f], mem.disk)
      modifies this`mem, this`slots, this`books
      ensures Valid() && Contents(mem) == Contents(old(mem))
      ensures f in mem.frames && SameBut(old(mem).frames, mem.frames, f) && mem.frames[f].slot.Some?
      ensures mem.frames[f] ==
                old(mem).frames[f].(slot := mem.frames[f].slot, lastAccess := books.clock, pending := false)
    {
      hide Sound, SwapConserved, SlotsConserved, Booked, Contents;
      SlotsBounded(slots, mem.owner, limit);
      SlotTaken(slots, mem.owner, limit, f);
      var s := slots.free[|slots.free| - 1];
      PageInIsInvisible(mem, f, s, books.clock + 1);
      var after := books.(clock := books.clock + 1, pageIns := books.pageIns + 1,
                          refaults := books.refaults + (if mem.frames[f].pending then 1 else 0));
      var next := PagedIn(mem, f, s, data, books.clock + 1);
      BookedAfter(mem.frames, f, next.frames[f], books, after, released);
      slots := SlotPool(slots.free[..|slots.free| - 1], slots.resident + 1);
      mem := next;
      books := after;
    }

    /**
     * minimm_frame_store_reclaim: exactly the first min(target, eligible) frames in
     * replacement order go, and an I/O error only cuts the sequence short.
     */
    method Reclaim(target: nat) returns (status: Status, scanned: nat, reclaimed: nat, ghost evicted: seq<nat>)
      requires Valid()
      modifies this`mem, this`swap, this`failing, this`slots, this`books
      ensures Valid() && Contents(mem) == Contents(old(mem)) && mem.frames.Keys == old(mem).frames.Keys
      ensures reclaimed == |evicted| && EvictedInOrder(old(mem).frames, evicted)
      ensures Resident(mem.frames, None) == Resident(old(mem).frames, None) - Elems(evicted)
      ensures status == Ok ==> reclaimed == Min(target, |Eligible(old(mem).frames, None)|)
      ensures reclaimed <= target
      ensures HeldStay(old(mem).frames, mem.frames)
      ensures scanned ==
                ScanTotal(|Resident(old(mem).frames, None)|, if reclaimed < target then reclaimed + 1 else reclaimed)
    {
      hide Sound, SwapConserved, SlotsConserved, Booked, Contents, Precedes, IsFirst, Resident, Eligible;
      hide EvictedInOrder, EvictedSoFar, PagedOut, SameBut, Elems, HeldStay;
      status, scanned, reclaimed, evicted := Ok, 0, 0, [];
      ghost var start := mem.frames;
      NothingEvicted(start);
      NothingMoves(start);
      while reclaimed < target
        invariant Valid() && Contents(mem) == Contents(old(mem)) && reclaimed <= target && reclaimed == |evicted|
        invariant EvictedSoFar(start, mem.frames, evicted) && HeldStay(start, mem.frames)
        invariant scanned == ScanTotal(|Resident(start, None)|, reclaimed)
      {
        var victim, count := SelectVictim(None);
        EvictedCounts(start, mem.frames, evicted);
        scanned := scanned + count;
        if victim.None? {
          return;
        }
        ghost var before := mem.frames;
        FirstIsThere(before, Eligible(before, None), victim.value);
        status := ReclaimPage(victim.value);
        EvictionSparesHeld(before, mem.frames, victim.value, status == Ok);
        HeldStayLonger(start, before, mem.frames);
        EvictStep(start, before, mem.frames, evicted, victim.value, status == Ok);
        if status != Ok {
          return;
        }
        evicted := evicted + [victim.value];
        reclaimed := reclaimed + 1;
      }
      EvictedCounts(start, mem.frames, evicted);
    }

    /** A change of marks, pins or counts, with the clock or a statistic. */
    method Touch(f: nat, fr: Frame, after: Books)
      requires Valid() && f in mem.frames
      requires fr ==
          mem.frames[f].(pins := fr.pins, transient := fr.transient, mappings := fr.mappings, refs := fr.refs,
                                    lastAccess := fr.lastAccess, cold := fr.cold)
      requires (fr.cold ==> fr.slot.Some?) && after == books.(clock := after.clock)
      modifies this`mem, this`books
      ensures Valid() && Contents(mem) == Contents(old(mem)) && mem == WithFrame(old(mem), f, fr) && books == after
    {
      hide Sound, SwapConserved, SlotsConserved, Booked, Contents;
      FrameFacts(mem, f);
      TouchIsInvisible(mem, f, fr);
      BookedAfter(mem.frames, f, fr, books, after, released);
      mem := WithFrame(mem, f, fr);
      books := after;
    }

    /** minimm_frame_create for a zero page or a page of a file. */
    method Create(source: Source) returns (status: Status, f: nat, page: Page)
      requires Valid() && HasItsOwnPlace(mem.frames, source)
      modifies this`mem, this`books
      ensures Valid() && (status == Ok ==> f !in old(mem).frames)
      ensures source == Zero ==> page == ZERO
      ensures Contents(mem) == if status == Ok then Contents(old(mem))[f := page] else Contents(old(mem))
      ensures HeldStay(old(mem).frames, mem.frames)
    {
      hide Sound, SwapConserved, SlotsConserved, Contents;
      page := Backed(NewFrame(source), mem.disk);
      f := books.nextId;
      if books.nextId == UINT64_MAX {
        return NoSpace, f, page;
      }
      var available: bool := *;
      if !available {
        return OutOfMemory, f, page;
      }
      CreateAddsOneFrame(mem, f, source);
      ListedFirst(mem.frames, f, source, books, released);
      mem := WithFrame(mem, f, NewFrame(source));
      books := books.(order := [f] + books.order, nextId := f + 1);
      status := Ok;
    }

    /** minimm_frame_read, up to a wait. */
    method Read(f: nat, offset: nat, length: nat) returns (out: Outcome, data: seq<Byte>)
      requires Valid() && f in mem.frames
      modifies this`mem, this`swap, this`failing, this`slots, this`books
      ensures Valid() && Contents(mem) == Contents(old(mem)) && HeldStay(old(mem).frames, mem.frames)
      ensures offset + length > PAGE_SIZE ==> out == Done(InvalidArgument, false)
      ensures out.Done? && out.status == Ok ==>
                offset + length <= PAGE_SIZE && data == Contents(old(mem))[f][offset..offset + length]
    {
      hide Sound, SwapConserved, SlotsConserved, Booked, Contents, HeldStay;
      NothingMoves(mem.frames);
      data := [];
      if offset + length > PAGE_SIZE {
        return Done(InvalidArgument, false), data;
      }
      if length == 0 {
        return Done(Ok, false), data;
      }
      out := Attempt(f);
      if out.Done? && out.status == Ok {
        FrameFacts(mem, f);
        data := mem.arena[mem.frames[f].slot.value][offset..offset + length];
      }
    }

    /** minimm_frame_write, up to a wait. */
    method Write(f: nat, offset: nat, data: seq<Byte>) returns (out: Outcome)
      requires Valid() && f in mem.frames
      modifies this`mem, this`swap, this`failing, this`slots, this`books
      ensures Valid() && HeldStay(old(mem).frames, mem.frames)
      ensures offset + |data| > PAGE_SIZE ==> out == Done(InvalidArgument, false)
      ensures Contents(mem) == if out.Done? && out.status == Ok && data != []
                then Contents(old(mem))[f := Splice(Contents(old(mem))[f], offset, data)] else Contents(old(mem))
    {
      hide Sound, SwapConserved, SlotsConserved, Booked, Contents, HeldStay;
      ghost var start := mem.frames;
      NothingMoves(start);
      if offset + |data| > PAGE_SIZE {
        return Done(InvalidArgument, false);
      }
      if data == [] {
        return Done(Ok, false);
      }
      out := Attempt(f);
      if out.Done? && out.status == Ok {
        FrameFacts(mem, f);
        var s := mem.frames[f].slot.value;
        var x := Splice(mem.arena[s], offset, data);
        StoreChangesOneFrame(mem, f, s, x);
        BookedAfter(mem.frames, f, mem.frames[f].(dirty := true), books, books, released);
        OneFrameHeld(mem.frames, Stored(mem, f, s, x).frames, f);
        HeldStayLonger(start, mem.frames, Stored(mem, f, s, x).frames);
        mem := Stored(mem, f, s, x);
      }
    }

    /** minimm_frame_release: the last reference takes the frame and its slots with it. */
    method Release(f: nat) returns (freed: bool)
      requires Valid() && f in mem.frames && mem.frames[f].refs > 0
      modifies this
      ensures Valid() && freed == (old(mem).frames[f].refs == 1)
      ensures Contents(mem) == if freed then Contents(old(mem)) - {f} else Contents(old(mem))
      ensures mem.frames == if freed then old(mem).frames - {f}
                            else old(mem).frames[f := old(mem).frames[f].(refs := old(mem).frames[f].refs - 1)]
    {
      hide Sound, SwapConserved, SlotsConserved, Booked, Contents;
      FrameFacts(mem, f);
      if mem.frames[f].refs != 1 {
        Touch(f, mem.frames[f].(refs := mem.frames[f].refs - 1), books);
        return false;
      }
      if IsSharedFile(mem.frames[f].source) && mem.frames[f].dirty {
        var status := WriteBack(f);
        FrameFacts(mem, f);
      }
      Remove(f);
      freed := true;
    }

    /** The frame leaves the list and gives its slots back. */
    method Remove(f: nat)
      requires Valid() && f in mem.frames
      modifies this
      ensures Valid() && Contents(mem) == Contents(old(mem)) - {f} && mem.frames == old(mem).frames - {f}
    {
      hide Sound, SwapConserved, SlotsConserved, Booked, Contents, Removed, Without;
      ReleaseRemovesOneFrame(mem, f);
      ListedNoMore(mem.frames, f, books, released);
      RemovedShape(mem, f);
      GiveSlots(f);
      books := books.(order := Without(books.order, f));
      released := released + (if mem.frames[f].pending then 1 else 0);
      mem := Removed(mem, f);
    }

    method GiveSlots(f: nat)
      requires Valid() && f in mem.frames
      modifies this`slots, this`swap
      ensures SlotsConserved(slots, Removed(mem, f).owner, limit) && SwapConserved(swap, Removed(mem, f).swapOwner)
    {
      hide Sound, SwapConserved, SlotsConserved, Booked, Contents, Backed;
      FrameFacts(mem, f);
      if mem.frames[f].slot.Some? {
        SlotGiven(slots, mem.owner, limit, mem.frames[f].slot.value);
        slots := SlotPool(slots.free + [mem.frames[f].slot.value], slots.resident - 1);
      }
      if mem.frames[f].swapSlot.Some? {
        SwapGiven(swap, mem.swapOwner, mem.frames[f].swapSlot.value);
        swap := swap.(free := [mem.frames[f].swapSlot.value] + swap.free, count := swap.count - 1);
      }
    }

    // ----------------------------------------------------------------
    // Sections and runs
    // ----------------------------------------------------------------

    /** One section under the store lock; a caller without the frame cannot enter it. */
    method Step(op: Section) returns (r: Reply)
      requires Valid()
      modifies this
      ensures Valid()
      ensures Contents(mem) == ContentStep(Contents(old(mem)), op, r) && Right(Contents(old(mem)), op, r)
      ensures HeldThrough(old(mem).frames, mem.frames, op)
    {
      hide Sound, SwapConserved, SlotsConserved, Booked, Contents, HeldStay, HeldThrough, Marked, MayMark, TallyNext,
           Splice, PagedOut, IsEligible, SameBut;
      ghost var start := mem.frames;
      NothingMoves(start);
      assert Contents(mem).Keys == mem.frames.Keys;
      if op.Create? {
        if !HasItsOwnPlace(mem.frames, op.source) {
          HeldStayThrough(start, start, op);
          return Skipped;
        }
        var status, f, page := Create(op.source);
        HeldStayThrough(start, mem.frames, op);
        return Did(Done(status, false), f, page, [], false);
      }
      if op.Reclaim? {
        var status, scanned, reclaimed, evicted := Reclaim(op.target);
        HeldStayThrough(start, mem.frames, op);
        return Did(Done(status, false), 0, ZERO, [], false);
      }
      if op.f !in mem.frames {
        HeldStayThrough(start, start, op);
        return Skipped;
      }
      if op.Mark? {
        r := Mark(op);
        MarkHeld(start, mem.frames, op.f, op.kind);
        return;
      }
      var out, data, freed := Done(Ok, false), [], false;
      match op {
        case Read(f, offset, length) =>
          out, data := Read(f, offset, length);
        case Write(f, offset, bytes) =>
          out := Write(f, offset, bytes);
        case EnsureResident(f) =>
          out := Attempt(f);
        case Sync(f) =>
          if IsSharedFile(mem.frames[f].source) {
            var status := WriteBack(f);
            OneFrameHeld(start, mem.frames, f);
            out := Done(status, false);
          }
        case PageOut(f) =>
          var status := PageOut(f);
          EvictionSparesHeld(start, mem.frames, f, status == Ok);
          out := Done(status, false);
        case Release(f) =>
          if mem.frames[f].refs == 0 {
            ReleaseHeld(start, start, f);
            return Skipped;
          }
          freed := Release(f);
          ReleaseHeld(start, mem.frames, f);
          return Did(out, op.f, ZERO, data, freed);
      }
      HeldStayThrough(start, mem.frames, op);
      r := Did(out, op.f, ZERO, data, freed);
    }

    /** Cold marks, pins, transient pins, map counts and references; Skipped where the source aborts. */
    method Mark(op: Section) returns (r: Reply)
      requires Valid() && op.Mark? && op.f in mem.frames
      modifies this`mem, this`books
      ensures Valid() && Contents(mem) == Contents(old(mem))
      ensures r.Skipped? <==> !MayMark(old(mem).frames[op.f], op.kind)
      ensures r.Did? ==>
                && r.out == Done(Ok, false) && !r.freed
                && mem == WithFrame(old(mem), op.f, Marked(old(mem).frames[op.f], op.kind))
      ensures r.Skipped? ==> mem == old(mem)
    {
      hide Sound, SwapConserved, SlotsConserved, Booked, Contents;
      if !MayMark(mem.frames[op.f], op.kind) {
        return Skipped;
      }
      FrameFacts(mem, op.f);
      Touch(op.f, Marked(mem.frames[op.f], op.kind), books);
      r := Did(Done(Ok, false), op.f, ZERO, [], false);
    }

    /** Any interleaving of sections: only writes to a frame change what it holds. */
    method Run(ops: seq<Section>) returns (rs: seq<Reply>)
      requires Valid()
      modifies this
      ensures Valid() && |rs| == |ops|
      ensures Contents(mem) == ContentRun(Contents(old(mem)), ops, rs) && RunRight(Contents(old(mem)), ops, rs)
      ensures HeldAll(old(mem).frames, mem.frames, ops)
    {
      hide Sound, SwapConserved, SlotsConserved, Booked, Contents, Right, HeldThrough, HeldAll;
      rs := [];
      ghost var start, frames := Contents(mem), mem.frames;
      NothingHeldYet(frames);
      for i := 0 to |ops|
        invariant Valid() && |rs| == i
        invariant Contents(mem) == ContentRun(start, ops[..i], rs)
        invariant HeldAll(frames, mem.frames, ops[..i])
        invariant forall k :: 0 <= k < i ==> Right(ContentRun(start, ops[..k], rs[..k]), ops[k], rs[k])
      {
        ghost var middle := mem.frames;
        var r := Step(ops[i]);
        HeldOneMore(frames, middle, mem.frames, ops[..i], ops[i]);
        assert ops[..i + 1] == ops[..i] + [ops[i]];
        ghost var before := rs;
        rs := rs + [r];
        assert ops[..i + 1][..i] == ops[..i] && rs[..i] == before;
        forall k | 0 <= k < i + 1 ensures Right(ContentRun(start, ops[..k], rs[..k]), ops[k], rs[k]) {
          if k < i {
            assert rs[..k] == before[..k];
          }
        }
      }
      assert ops[..|ops|] == ops;
    }

    /**
     * minimm_frame_make_resident_locked with its waits: `others` are the sections that
     * run during each wait.  However often it waits and whatever happens meanwhile,
     * the page that comes in is the frame's content at that moment.
     */
    method BlockingPageIn(f: nat, others: seq<seq<Section>>) returns (out: Outcome, ops: seq<Section>, rs: seq<Reply>)
      requires Valid() && f in mem.frames
      modifies this
      ensures Valid() && |rs| == |ops| && Contents(mem) == ContentRun(Contents(old(mem)), ops, rs)
      ensures out.Done? && out.status == Ok ==>
                && f in mem.frames && mem.frames[f].slot.Some? && mem.frames[f].slot.value < |mem.arena|
                && f in ContentRun(Contents(old(mem)), ops, rs)
                && mem.arena[mem.frames[f].slot.value] == ContentRun(Contents(old(mem)), ops, rs)[f]
    {
      hide Sound, SwapConserved, SlotsConserved, Booked, Contents;
      ghost var start := Contents(mem);
      ops, rs, out := [], [], MustWait;
      for i := 0 to |others|
        invariant Valid() && |rs| == |ops| && Contents(mem) == ContentRun(start, ops, rs) && f in mem.frames
      {
        out := Attempt(f);
        if out.Done? {
          if out.status == Ok {
            FrameFacts(mem, f);
          }
          return;
        }
        ghost var middle := Contents(mem);
        var replies := Run(others[i]);
        RunsCompose(start, ops, rs, others[i], replies);
        ops, rs := ops + others[i], rs + replies;
        if f !in mem.frames {
          return MustWait, ops, rs;
        }
      }
      out := MustWait;
    }
  }

  datatype MarkKind = Cold | Pin | Unpin | TryPinResident | UnpinResident | Map | Unmap | Retain

  predicate MayMark(fr: Frame, kind: MarkKind) {
    (kind == UnpinResident ==> fr.transient > 0) && (kind == Unmap ==> fr.mappings > 0)
  }

  function Marked(fr: Frame, kind: MarkKind): Frame
    requires MayMark(fr, kind)
  {
    match kind
    case Cold => fr.(cold := fr.cold || fr.slot.Some?)
    case Pin => fr.(pins := fr.pins + 1)
    case Unpin => fr.(pins := if fr.pins > 0 then fr.pins - 1 else 0)
    case TryPinResident => fr.(transient := if fr.slot.Some? then fr.transient + 1 else fr.transient)
    case UnpinResident => fr.(transient := fr.transient - 1)
    case Map => fr.(mappings := fr.mappings + 1)
    case Unmap => fr.(mappings := fr.mappings - 1)
    case Retain => fr.(refs := fr.refs + 1)
  }

  /** What is counted for a frame: the pins of its locks, the pins of accesses under way, its references. */
  datatype Tally = Tally(pins: nat, transient: nat, refs: nat, freed: bool)

  function TallyOf(fr: Frame): Tally {
    Tally(fr.pins, fr.transient, fr.refs, false)
  }

  predicate Holding(t: Tally) {
    !t.freed && (t.pins > 0 || t.transient > 0)
  }

  /** What a section means for the tally of the resident frame `f` */
  function TallyNext(t: Tally, op: Section, f: nat): Tally {
    if t.freed then t
    else if op == Section.Release(f) then
      if t.refs == 0 then t else t.(refs := t.refs - 1, freed := t.refs == 1)
    else if op.Mark? && op.f == f then
      match op.kind
      case Pin => t.(pins := t.pins + 1)
      case Unpin => t.(pins := if t.pins > 0 then t.pins - 1 else 0)
      case TryPinResident => t.(transient := t.transient + 1)
      case UnpinResident => t.(transient := if t.transient > 0 then t.transient - 1 else 0)
      case Retain => t.(refs := t.refs + 1)
      case _ => t
    else t
  }

  function TallyAfter(t: Tally, ops: seq<Section>, f: nat): Tally {
    if ops == [] then t else TallyNext(TallyAfter(t, ops[..|ops| - 1], f), ops[|ops| - 1], f)
  }

  /** Some pin or other is there before every section, and no release takes the frame away. */
  ghost predicate HeldDuring(t: Tally, ops: seq<Section>, f: nat) {
    && (forall i :: 0 <= i < |ops| ==> Holding(TallyAfter(t, ops[..i], f)))
    && !TallyAfter(t, ops, f).freed
  }

  /** A frame that was held is in its slot, with the pins and references counted. */
  ghost predicate InPlace(from: FrameMap, to: FrameMap, f: nat, t: Tally)
    requires f in from
  {
    f in to && to[f].slot == from[f].slot && TallyOf(to[f]) == t
  }

  /** What one section leaves of a frame: its pins and references are counted, and a held frame stays in its slot. */
  ghost predicate Remains(from: FrameMap, to: FrameMap, f: nat, t: Tally)
    requires f in from
  {
    f in to && to[f].pins == t.pins && to[f].refs == t.refs && (Held(from[f]) ==> InPlace(from, to, f, t))
  }

  ghost predicate HeldThrough(from: FrameMap, to: FrameMap, op: Section) {
    forall f {:trigger TallyOf(from[f])} :: f in from ==>
      var t := TallyNext(TallyOf(from[f]), op, f);
      if t.freed then f !in to else Remains(from, to, f, t)
  }

  /** A frame keeps its slot over a run as long as locks or accesses pin it, one after the other. */
  ghost predicate HeldOver(from: FrameMap, to: FrameMap, ops: seq<Section>, f: nat)
    requires f in from
  {
    var t := TallyAfter(TallyOf(from[f]), ops, f);
    && (!t.freed ==> f in to && to[f].pins == t.pins && to[f].refs == t.refs)
    && (Held(from[f]) && HeldDuring(TallyOf(from[f]), ops, f) ==> InPlace(from, to, f, t))
  }

  ghost predicate HeldAll(from: FrameMap, to: FrameMap, ops: seq<Section>) {
    forall f {:trigger HeldOver(from, to, ops, f)} :: f in from ==> HeldOver(from, to, ops, f)
  }

  lemma NothingHeldYet(frames: FrameMap)
    ensures HeldAll(frames, frames, [])
  {
  }

  lemma HeldOneMore(from: FrameMap, middle: FrameMap, to: FrameMap, ops: seq<Section>, op: Section)
    requires HeldAll(from, middle, ops) && HeldThrough(middle, to, op)
    ensures HeldAll(from, to, ops + [op])
  {
    forall f | f in from
      ensures HeldOver(from, to, ops + [op], f)
    {
      HeldOneFrame(from, middle, to, ops, op, f);
    }
  }

  lemma HeldOneFrame(from: FrameMap, middle: FrameMap, to: FrameMap, ops: seq<Section>, op: Section, f: nat)
    requires f in from && HeldOver(from, middle, ops, f) && HeldThrough(middle, to, op)
    ensures HeldOver(from, to, ops + [op], f)
  {
    hide TallyNext, HeldDuring;
    var t := TallyOf(from[f]);
    OneMoreTallied(t, ops, op, f);
    if HeldDuring(t, ops + [op], f) {
      DuringPrefix(t, ops, op, f);
    }
    if !TallyAfter(t, ops + [op], f).freed {
      TransientAside(TallyAfter(t, ops, f), TallyOf(middle[f]), op, f);
      assert Remains(middle, to, f, TallyNext(TallyOf(middle[f]), op, f));
      assert Held(from[f]) && HeldDuring(t, ops + [op], f) ==> Held(middle[f]);
    }
  }

  /** Pins and references do not depend on the transient pins. */
  lemma TransientAside(t: Tally, u: Tally, op: Section, f: nat)
    requires t == u.(transient := t.transient)
    ensures var t', u' := TallyNext(t, op, f), TallyNext(u, op, f); t' == u'.(transient := t'.transient)
  {
  }

  lemma OneMoreTallied(t: Tally, ops: seq<Section>, op: Section, f: nat)
    ensures TallyAfter(t, ops + [op], f) == TallyNext(TallyAfter(t, ops, f), op, f)
    ensures TallyAfter(t, ops, f).freed ==> TallyAfter(t, ops + [op], f).freed
  {
    assert (ops + [op])[..|ops|] == ops;
  }

  lemma DuringPrefix(t: Tally, ops: seq<Section>, op: Section, f: nat)
    requires HeldDuring(t, ops + [op], f)
    ensures HeldDuring(t, ops, f) && Holding(TallyAfter(t, ops, f)) && !TallyAfter(t, ops + [op], f).freed
    ensures TallyAfter(t, ops + [op], f) == TallyNext(TallyAfter(t, ops, f), op, f)
  {
    hide TallyNext;
    var all := ops + [op];
    assert all[..|ops|] == ops;
    forall i | 0 <= i < |ops|
      ensures Holding(TallyAfter(t, ops[..i], f))
    {
      assert all[..i] == ops[..i];
    }
  }

  lemma HeldStayThrough(from: FrameMap, to: FrameMap, op: Section)
    requires HeldStay(from, to) && (op.Mark? || op.Release? ==> op.f !in from)
    ensures HeldThrough(from, to, op)
  {
    forall f | f in from
      ensures Remains(from, to, f, TallyNext(TallyOf(from[f]), op, f))
    {
      assert StaysHeld(from, to, f);
    }
  }

  lemma MarkHeld(from: FrameMap, to: FrameMap, f: nat, kind: MarkKind)
    requires f in from
    requires to == if MayMark(from[f], kind) then from[f := Marked(from[f], kind)] else from
    ensures HeldThrough(from, to, Section.Mark(f, kind))
  {
  }

  lemma ReleaseHeld(from: FrameMap, to: FrameMap, f: nat)
    requires f in from
    requires to == if from[f].refs == 0 then from else if from[f].refs == 1 then from - {f}
                   else from[f := from[f].(refs := from[f].refs - 1)]
    ensures HeldThrough(from, to, Section.Release(f))
  {
  }

  datatype Section =
    | Create(source: Source)
    | Reclaim(target: nat)
    | Read(f: nat, offset: nat, length: nat)
    | Write(f: nat, offset: nat, bytes: seq<Byte>)
    | EnsureResident(f: nat)
    | Sync(f: nat)
    | PageOut(f: nat)
    | Release(f: nat)
    | Mark(f: nat, kind: MarkKind)

  datatype Reply = Skipped | Did(out: Outcome, f: nat, page: Page, data: seq<Byte>, freed: bool)

  type ContentMap = map<nat, Page>

  /** What a section does to the logical contents: nothing, unless it creates, writes or frees. */
  ghost function ContentStep(c: ContentMap, op: Section, r: Reply): ContentMap {
    if r.Skipped? || r.out.MustWait? || r.out.status != Ok then c else
    match op
    case Create(_) => c[r.f := r.page]
    case Write(f, offset, bytes) =>
      if f in c && offset + |bytes| <= PAGE_SIZE && bytes != [] then c[f := Splice(c[f], offset, bytes)] else c
    case Release(f) => if r.freed then c - {f} else c
    case _ => c
  }

  ghost predicate ReadsRight(c: ContentMap, op: Section, r: Reply) {
    op.Read? && r.Did? && r.out.Done? && r.out.status == Ok ==>
      op.f in c && op.offset + op.length <= PAGE_SIZE && r.data == c[op.f][op.offset..op.offset + op.length]
  }

  ghost predicate About(op: Section, f: nat) {
    !op.Create? && !op.Reclaim? && op.f == f
  }

  /** Which replies a section may give, in terms of the contents alone. */
  ghost predicate Right(c: ContentMap, op: Section, r: Reply) {
    && ReadsRight(c, op, r)
    && (op.Reclaim? ==> r.Did?)
    && (op.Create? && r.Did? && r.out.Done? && r.out.status == Ok ==>
          r.f !in c && (op.source == Zero ==> r.page == ZERO))
    && (r.Did? ==> forall f :: About(op, f) ==> f in c)
    && (op.Read? || op.Write? || op.EnsureResident? || op.Sync? || op.PageOut? ==> (r.Skipped? <==> op.f !in c))
    && (op.Read? && r.Did? && op.offset + op.length > PAGE_SIZE ==> r.out == Done(InvalidArgument, false))
    && (op.Write? && r.Did? && op.offset + |op.bytes| > PAGE_SIZE ==> r.out == Done(InvalidArgument, false))
    && (r.Did? && r.freed ==> op.Release?)
  }

  ghost predicate RunRight(c: ContentMap, ops: seq<Section>, rs: seq<Reply>)
    requires |ops| == |rs|
  {
    forall i :: 0 <= i < |ops| ==> Right(ContentRun(c, ops[..i], rs[..i]), ops[i], rs[i])
  }

  /** Over every run, a frame that is neither written nor freed keeps its page: no other section can reach it. */
  lemma {:induction false} OnlyWritesReach(c: ContentMap, ops: seq<Section>, rs: seq<Reply>, f: nat)
    requires |ops| == |rs| && RunRight(c, ops, rs) && f in c
    requires forall i :: 0 <= i < |ops| && About(ops[i], f) ==> !ops[i].Write? && !(rs[i].Did? && rs[i].freed)
    ensures f in ContentRun(c, ops, rs) && ContentRun(c, ops, rs)[f] == c[f]
    decreases |ops|
  {
    if ops != [] {
      var n := |ops| - 1;
      forall i | 0 <= i < n
        ensures Right(ContentRun(c, ops[..n][..i], rs[..n][..i]), ops[..n][i], rs[..n][i])
      {
        assert ops[..n][..i] == ops[..i] && rs[..n][..i] == rs[..i];
      }
      OnlyWritesReach(c, ops[..n], rs[..n], f);
      assert Right(ContentRun(c, ops[..n], rs[..n]), ops[n], rs[n]);
      assert About(ops[n], f) ==> !ops[n].Write? && !(rs[n].Did? && rs[n].freed);
    }
  }

  ghost function ContentRun(c: ContentMap, ops: seq<Section>, rs: seq<Reply>): ContentMap
    requires |ops| == |rs|
  {
    if ops == [] then c
    else ContentStep(ContentRun(c, ops[..|ops| - 1], rs[..|ops| - 1]), ops[|ops| - 1], rs[|ops| - 1])
  }

  lemma {:induction false} RunsCompose(c: ContentMap, a: seq<Section>, ra: seq<Reply>, b: seq<Section>, rb: seq<Reply>)
    requires |a| == |ra| && |b| == |rb|
    ensures ContentRun(c, a + b, ra + rb) == ContentRun(ContentRun(c, a, ra), b, rb)
    decreases |b|
  {
    if b == [] {
      assert a + b == a && ra + rb == ra;
    } else {
      var n := |b| - 1;
      RunsCompose(c, a, ra, b[..n], rb[..n]);
      assert (a + b)[..|a + b| - 1] == a + b[..n] && (ra + rb)[..|a + b| - 1] == ra + rb[..n];
    }
  }
}
