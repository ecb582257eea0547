/**
 * How the layout of a space changes (src/mapping.c): ranges of pages, the segments
 * after a snapshot is published, and entries dropped with their pages.
 */
module Layouts {
  import opened Base
  import opened Vma
  import opened Sharing
  import opened Tables

  /** MINIMM_MMAP_MIN_ADDRESS */
  const MIN_ADDRESS: nat := 0x10000

  /** minimm_mapping_align_length: whole pages, or refused. */
  function AlignedLength(length: nat): (r: Option<nat>)
    ensures r.None? <==> length == 0 || length > ADDRESS_LIMIT
    ensures r.Some? ==> r.value % PAGE_SIZE == 0 && length <= r.value < length + PAGE_SIZE
  {
    if length == 0 || length > UINT64_MAX - (PAGE_SIZE - 1) then None
    else
      var aligned := (length + (PAGE_SIZE - 1)) / PAGE_SIZE * PAGE_SIZE;
      if aligned > ADDRESS_LIMIT then None else Some(aligned)
  }

  /** minimm_mapping_operation_range_is_valid */
  predicate OperationRange(start: nat, length: nat) {
    start % PAGE_SIZE == 0 && start < ADDRESS_LIMIT && length <= ADDRESS_LIMIT - start
  }

  /** minimm_mapping_range_is_valid */
  predicate MappingRange(start: nat, length: nat) {
    MIN_ADDRESS <= start && OperationRange(start, length)
  }

  /** The pages of the aligned address range [start, end) of space `s`. */
  predicate InRange(k: Key, s: nat, start: nat, end: nat) {
    InPages(k, s, start / PAGE_SIZE, end / PAGE_SIZE)
  }

  lemma RangePages(k: Key, s: nat, start: nat, end: nat)
    requires start % PAGE_SIZE == 0 && end % PAGE_SIZE == 0
    ensures InRange(k, s, start, end) <==> k.space == s && start <= k.page * PAGE_SIZE < end
  {
  }

  /** An entry stands for itself. */
  lemma StandsForItself(spaces: map<nat, Space>, ptes: map<Key, Pte>, store: Store, k: Key)
    requires AllRight(spaces, ptes, store) && k in ptes
    ensures Seg(spaces, k).Some? && StandsFor(Seg(spaces, k), ptes[k], Seg(spaces, k), ptes[k])
  {
    hide Seg;
    assert PteOk(Seg(spaces, k), ptes, store, k);
  }

  // ------------------------------------------------------------------
  // Entries dropped
  // ------------------------------------------------------------------

  ghost predicate Dropped(was: map<Key, Pte>, now: map<Key, Pte>, s: nat, first: nat, last: nat) {
    forall k :: (k in now <==> k in was && !InPages(k, s, first, last)) && (k in now ==> now[k] == was[k])
  }

  lemma DroppedOutside(was: map<Key, Pte>, now: map<Key, Pte>, s: nat, first: nat, last: nat)
    requires Dropped(was, now, s, first, last)
    ensures SameOutside(was, now, s, first, last)
  {
  }

  /** Where the entries are dropped the new layout decides; elsewhere nothing changes. */
  lemma DroppingKeeps(spaces: map<nat, Space>, ptes: map<Key, Pte>, spaces': map<nat, Space>, ptes': map<Key, Pte>,
                      store: Store, s: nat, first: nat, last: nat)
    requires AllRight(spaces, ptes, store) && Dropped(ptes, ptes', s, first, last)
    requires forall k :: !InPages(k, s, first, last) ==> Seg(spaces', k) == Seg(spaces, k)
    ensures AllRight(spaces', ptes', store)
    ensures forall k :: Origins(spaces', ptes', store, k) ==
                        if InPages(k, s, first, last) then Initial(Seg(spaces', k)) else Origins(spaces, ptes, store, k)
  {
    hide Seg;
    var back := map k | k in ptes' :: k;
    assert Renamed(spaces, ptes, spaces', ptes', back) by {
      hide StandsFor, AllRight, Origins;
      forall k ensures RenamedAt(spaces, ptes, spaces', ptes', back, k) {
        if k in ptes' {
          StandsForItself(spaces, ptes, store, k);
        }
      }
    }
    hide Renamed, AllRight;
    RenamingKeeps(spaces, ptes, spaces', ptes', store, back);
  }

  /** Unmapped pages have no entries. */
  lemma NothingThere(spaces: map<nat, Space>, ptes: map<Key, Pte>, store: Store, s: nat, first: nat, last: nat)
    requires AllRight(spaces, ptes, store) && forall k :: InPages(k, s, first, last) ==> Seg(spaces, k).None?
    ensures Dropped(ptes, ptes, s, first, last)
  {
    hide Seg;
    forall k | k in ptes ensures !InPages(k, s, first, last) {
      assert PteOk(Seg(spaces, k), ptes, store, k);
    }
  }

  // ------------------------------------------------------------------
  // Segments after a new snapshot is published
  // ------------------------------------------------------------------

  function Published(sp: Space, vmas: Snapshot, bindings: seq<Binding>, nextCookie: nat): Space {
    sp.(vmas := vmas, bindings := bindings, nextCookie := nextCookie)
  }

  /** minimm_munmap's layout */
  lemma RemovedLayout(spaces: map<nat, Space>, nextObj: nat, s: nat, vmas: Snapshot, start: nat, end: nat)
    requires SpacesOk(spaces, nextObj) && s in spaces && SnapshotOk(vmas)
    requires start % PAGE_SIZE == 0 && end % PAGE_SIZE == 0
    requires forall a: nat :: At(vmas.ranges, a) == if start <= a < end then None else At(spaces[s].vmas.ranges, a)
    ensures var sp := Published(spaces[s], vmas, Kept(spaces[s].bindings, vmas), spaces[s].nextCookie);
            && SpacesOk(spaces[s := sp], nextObj)
            && forall k :: Seg(spaces[s := sp], k) == if InRange(k, s, start, end) then None else Seg(spaces, k)
  {
    var sp := spaces[s];
    assert SpaceOk(sp, nextObj);
    hide At, SnapshotOk, Kept, BindingOf, Used, SpacesOk;
    PrunedOk(sp, vmas, sp.bindings, sp.nextCookie, nextObj);
    var after := spaces[s := Published(sp, vmas, Kept(sp.bindings, vmas), sp.nextCookie)];
    forall k ensures Seg(after, k) == if InRange(k, s, start, end) then None else Seg(spaces, k) {
      RangePages(k, s, start, end);
      hide InRange;
    }
    OneSpaceChanged(spaces, nextObj, s, after[s]);
  }

  lemma OneSpaceChanged(spaces: map<nat, Space>, nextObj: nat, s: nat, sp: Space)
    requires SpacesOk(spaces, nextObj) && SpaceOk(sp, nextObj)
    ensures SpacesOk(spaces[s := sp], nextObj)
  {
  }

  /** A new mapping with a binding of its own: minimm_mmap, minimm_mapping_copy, a move that keeps the source. */
  ghost function WithMapping(sp: Space, vmas: Snapshot, cookie: nat, backing: Backing): Space {
    Published(sp, vmas, Kept([Binding(cookie, backing)] + sp.bindings, vmas), cookie + 1)
  }

  ghost predicate Inserts(sp: Space, vmas: Snapshot, r: Range) {
    && SnapshotOk(vmas) && RangeValid(r)
    && forall a: nat :: At(vmas.ranges, a) == if Covers(r, a) then Some(AttrAt(r, a)) else At(sp.vmas.ranges, a)
  }

  lemma InsertedSpace(sp: Space, nextObj: nat, vmas: Snapshot, r: Range, backing: Backing)
    requires SpaceOk(sp, nextObj) && Inserts(sp, vmas, r) && r.cookie == sp.nextCookie
    requires IsShared(backing) == r.shared && (backing.AnonPrivate? || backing.obj < nextObj)
    ensures SpaceOk(WithMapping(sp, vmas, r.cookie, backing), nextObj)
    ensures forall page: nat :: SegmentOf(WithMapping(sp, vmas, r.cookie, backing), page) ==
                                if Covers(r, page * PAGE_SIZE) then Some(MappedSegment(r, backing, page))
                                else SegmentOf(sp, page)
  {
    var bs := [Binding(r.cookie, backing)] + sp.bindings;
    NewBindingFirst(sp.bindings, r.cookie, backing);
    hide At, SnapshotOk, Kept, BindingOf, Used, RangeValid, SourceOf;
    forall a: nat | At(vmas.ranges, a).Some? ensures Bound(bs, At(vmas.ranges, a).value, r.cookie + 1) {
      assert !Covers(r, a) ==> Bound(sp.bindings, At(sp.vmas.ranges, a).value, sp.nextCookie);
    }
    PrunedOk(sp, vmas, bs, r.cookie + 1, nextObj);
    forall page: nat
      ensures SegmentOf(WithMapping(sp, vmas, r.cookie, backing), page) ==
              if Covers(r, page * PAGE_SIZE) then Some(MappedSegment(r, backing, page)) else SegmentOf(sp, page)
    {
      var a := page * PAGE_SIZE;
      assert At(vmas.ranges, a) == if Covers(r, a) then Some(AttrAt(r, a)) else At(sp.vmas.ranges, a);
      assert !Covers(r, a) && At(vmas.ranges, a).Some? ==> Bound(sp.bindings, At(sp.vmas.ranges, a).value,
                     sp.nextCookie);
    }
  }

  lemma InsertedLayout(spaces: map<nat, Space>, nextObj: nat, s: nat, vmas: Snapshot, r: Range, backing: Backing)
    requires SpacesOk(spaces, nextObj) && s in spaces && Inserts(spaces[s], vmas, r) && r.cookie == spaces[s].nextCookie
    requires IsShared(backing) == r.shared && (backing.AnonPrivate? || backing.obj < nextObj)
    ensures SpacesOk(spaces[s := WithMapping(spaces[s], vmas, r.cookie, backing)], nextObj)
    ensures forall k :: Seg(spaces[s := WithMapping(spaces[s], vmas, r.cookie, backing)], k) ==
                        if InRange(k, s, r.start, r.end) then Some(MappedSegment(r, backing, k.page))
                        else Seg(spaces, k)
  {
    assert SpaceOk(spaces[s], nextObj);
    InsertedSpace(spaces[s], nextObj, vmas, r, backing);
    hide SegmentOf, SpaceOk, SnapshotOk, At, WithMapping;
    forall k: Key ensures InRange(k, s, r.start, r.end) <==> k.space == s && Covers(r, k.page * PAGE_SIZE) {
      RangePages(k, s, r.start, r.end);
    }
    hide InRange, MappedSegment;
  }

  /** What the pages of a range show of its backing. */
  function MappedSegment(r: Range, backing: Backing, page: nat): Segment {
    var offset := if page * PAGE_SIZE < r.start then 0 else r.offset + (page * PAGE_SIZE - r.start);
    Segment(r.prot, r.max, r.shared, SourceOf(Some(backing), offset))
  }

  lemma NewBindingFirst(bs: seq<Binding>, cookie: nat, backing: Backing)
    ensures forall c :: BindingOf([Binding(cookie, backing)] + bs, c) == if c ==
              cookie then Some(backing) else BindingOf(bs, c)
  {
    assert ([Binding(cookie, backing)] + bs)[1..] == bs;
  }

  /** New objects only make more references valid. */
  lemma MoreObjects(spaces: map<nat, Space>, nextObj: nat, more: nat)
    requires SpacesOk(spaces, nextObj) && nextObj <= more
    ensures SpacesOk(spaces, more)
  {
    forall s | s in spaces ensures SpaceOk(spaces[s], more) {
      assert SpaceOk(spaces[s], nextObj);
    }
  }

  // ------------------------------------------------------------------
  // Layouts that keep the bindings
  // ------------------------------------------------------------------

  /** Every cookie that was used still is. */
  ghost predicate KeepsCookies(was: Snapshot, now: Snapshot) {
    forall c :: Used(was, c) ==> Used(now, c)
  }

  /** The same bindings serve the new snapshot. */
  lemma SameBindings(sp: Space, nextObj: nat, vmas: Snapshot)
    requires SpaceOk(sp, nextObj) && SnapshotOk(vmas) && KeepsCookies(sp.vmas, vmas)
    requires forall a: nat :: At(vmas.ranges, a).Some? ==> Bound(sp.bindings, At(vmas.ranges, a).value, sp.nextCookie)
    ensures SpaceOk(sp.(vmas := vmas), nextObj)
  {
    hide At, SnapshotOk, Used, BindingOf;
    forall i | 0 <= i < |sp.bindings| ensures BindingOk(sp.bindings[i], vmas, sp.nextCookie, nextObj) {
      assert BindingOk(sp.bindings[i], sp.vmas, sp.nextCookie, nextObj);
    }
  }

  /** More pages under a cookie that already has a binding: heap growth, growing in place. */
  lemma ExtendedLayout(spaces: map<nat, Space>, nextObj: nat, s: nat, vmas: Snapshot, r: Range, backing: Backing)
    requires SpacesOk(spaces, nextObj) && s in spaces && Inserts(spaces[s], vmas, r)
    requires BindingOf(spaces[s].bindings, r.cookie) == Some(backing) && IsShared(backing) == r.shared
    requires r.cookie < spaces[s].nextCookie
    requires forall a: nat :: Covers(r, a) ==> At(spaces[s].vmas.ranges, a) == None
    ensures SpacesOk(spaces[s := spaces[s].(vmas := vmas)], nextObj)
    ensures forall k :: Seg(spaces[s := spaces[s].(vmas := vmas)], k) ==
                        if InRange(k, s, r.start, r.end) then Some(MappedSegment(r, backing, k.page))
                        else Seg(spaces, k)
  {
    var sp := spaces[s];
    assert SpaceOk(sp, nextObj);
    hide At, SnapshotOk, BindingOf, SpacesOk, SourceOf, SpaceOk;
    assert KeepsCookies(sp.vmas, vmas) by {
      forall c | Used(sp.vmas, c) ensures Used(vmas, c) {
        var a: nat :| At(sp.vmas.ranges, a).Some? && At(sp.vmas.ranges, a).value.cookie == c;
        assert At(vmas.ranges, a) == At(sp.vmas.ranges, a);
      }
    }
    hide Used, KeepsCookies;
    BoundHere(sp, nextObj);
    forall a: nat | At(vmas.ranges, a).Some? ensures Bound(sp.bindings, At(vmas.ranges, a).value, sp.nextCookie) {
      assert !Covers(r, a) ==> Bound(sp.bindings, At(sp.vmas.ranges, a).value, sp.nextCookie);
    }
    assert SnapshotOk(vmas);
    SameBindings(sp, nextObj, vmas);
    OneSpaceChanged(spaces, nextObj, s, sp.(vmas := vmas));
    forall k
      ensures Seg(spaces[s := sp.(vmas := vmas)], k) ==
              if InRange(k, s, r.start, r.end) then Some(MappedSegment(r, backing, k.page)) else Seg(spaces, k)
    {
      RangePages(k, s, r.start, r.end);
      hide InRange;
    }
  }

  lemma BoundHere(sp: Space, nextObj: nat)
    requires SpaceOk(sp, nextObj)
    ensures forall a: nat :: At(sp.vmas.ranges, a).Some? ==>
              Bound(sp.bindings, At(sp.vmas.ranges, a).value, sp.nextCookie)
  {
  }

  /** Pages removed from a mapping that stays: shrinking in place. */
  lemma ShrunkLayout(spaces: map<nat, Space>, nextObj: nat, s: nat, vmas: Snapshot, start: nat, end: nat, stays: nat)
    requires SpacesOk(spaces, nextObj) && s in spaces && SnapshotOk(vmas)
    requires start % PAGE_SIZE == 0 && end % PAGE_SIZE == 0 && !(start <= stays < end)
    requires forall a: nat :: At(vmas.ranges, a) == if start <= a < end then None else At(spaces[s].vmas.ranges, a)
    requires At(spaces[s].vmas.ranges, stays).Some?
    requires forall a: nat :: start <= a < end ==>
               At(spaces[s].vmas.ranges, a).Some?
               && At(spaces[s].vmas.ranges, a).value.cookie == At(spaces[s].vmas.ranges, stays).value.cookie
    ensures SpacesOk(spaces[s := spaces[s].(vmas := vmas)], nextObj)
    ensures forall k :: Seg(spaces[s := spaces[s].(vmas := vmas)], k) ==
              if InRange(k, s, start, end) then None else Seg(spaces, k)
  {
    var sp := spaces[s];
    assert SpaceOk(sp, nextObj);
    hide At, SnapshotOk, BindingOf, SpacesOk, SourceOf, SpaceOk;
    assert KeepsCookies(sp.vmas, vmas) by {
      forall c | Used(sp.vmas, c) ensures Used(vmas, c) {
        var a: nat :| At(sp.vmas.ranges, a).Some? && At(sp.vmas.ranges, a).value.cookie == c;
        var b := if start <= a < end then stays else a;
        assert At(vmas.ranges, b) == At(sp.vmas.ranges, b);
      }
    }
    hide Used, KeepsCookies;
    BoundHere(sp, nextObj);
    SameBindings(sp, nextObj, vmas);
    OneSpaceChanged(spaces, nextObj, s, sp.(vmas := vmas));
    forall k
      ensures Seg(spaces[s := sp.(vmas := vmas)], k) == if InRange(k, s, start, end) then None else Seg(spaces, k)
    {
      RangePages(k, s, start, end);
      hide InRange;
    }
  }

  /** minimm_mprotect's layout */
  lemma ProtectedLayout(spaces: map<nat, Space>, nextObj: nat, s: nat, vmas: Snapshot, start: nat, end: nat, prot: Prot)
    requires SpacesOk(spaces, nextObj) && s in spaces && SnapshotOk(vmas)
    requires start % PAGE_SIZE == 0 && end % PAGE_SIZE == 0
    requires forall a: nat :: At(vmas.ranges, a) == Changed(At(spaces[s].vmas.ranges, a), a, start, end, Some(prot))
    ensures SpacesOk(spaces[s := spaces[s].(vmas := vmas)], nextObj)
    ensures forall k :: Seg(spaces[s := spaces[s].(vmas := vmas)], k) ==
                        if InRange(k, s, start, end) && Seg(spaces, k).Some?
                        then Some(Seg(spaces, k).value.(prot := prot))
                        else Seg(spaces, k)
  {
    var sp := spaces[s];
    assert SpaceOk(sp, nextObj);
    hide At, SnapshotOk, BindingOf, SpacesOk, SourceOf, SpaceOk;
    assert KeepsCookies(sp.vmas, vmas) by {
      forall c | Used(sp.vmas, c) ensures Used(vmas, c) {
        var a: nat :| At(sp.vmas.ranges, a).Some? && At(sp.vmas.ranges, a).value.cookie == c;
        assert At(vmas.ranges, a).Some? && At(vmas.ranges, a).value.cookie == c;
      }
    }
    hide Used, KeepsCookies;
    BoundHere(sp, nextObj);
    SameBindings(sp, nextObj, vmas);
    OneSpaceChanged(spaces, nextObj, s, sp.(vmas := vmas));
    forall k
      ensures Seg(spaces[s := sp.(vmas := vmas)], k) ==
              if InRange(k, s, start, end) && Seg(spaces, k).Some? then Some(Seg(spaces, k).value.(prot := prot))
              else Seg(spaces, k)
    {
      RangePages(k, s, start, end);
      hide InRange;
    }
  }

  // ------------------------------------------------------------------
  // Entries re-protected
  // ------------------------------------------------------------------

  ghost predicate Reprotected(was: map<Key, Pte>, now: map<Key, Pte>, s: nat, first: nat, last: nat, prot: Prot) {
    forall k :: && (k in now <==> k in was)
                && (k in was ==>
                      now[k] ==
                      if InPages(k, s, first, last) then was[k].(prot := Effective(prot, was[k].cow)) else was[k])
  }

  lemma ProtectedStandsFor(spaces: map<nat, Space>, ptes: map<Key, Pte>, store: Store, k: Key, prot: Prot)
    requires AllRight(spaces, ptes, store) && k in ptes
    ensures Seg(spaces, k).Some?
    ensures StandsFor(Some(Seg(spaces, k).value.(prot := prot)), ptes[k].(prot := Effective(prot, ptes[k].cow)),
                      Seg(spaces, k), ptes[k])
  {
    hide Seg;
    assert PteOk(Seg(spaces, k), ptes, store, k);
  }

  lemma ProtectingKeeps(spaces: map<nat, Space>, ptes: map<Key, Pte>, spaces': map<nat, Space>, ptes': map<Key, Pte>,
                        store: Store, s: nat, first: nat, last: nat, prot: Prot)
    requires AllRight(spaces, ptes, store) && Reprotected(ptes, ptes', s, first, last, prot)
    requires forall k :: Seg(spaces', k) == if InPages(k, s, first, last) && Seg(spaces, k).Some?
                                            then Some(Seg(spaces, k).value.(prot := prot))
                                            else Seg(spaces, k)
    ensures AllRight(spaces', ptes', store)
    ensures forall k :: Origins(spaces', ptes', store, k) == Origins(spaces, ptes, store, k)
  {
    hide Seg;
    var back := map k | k in ptes' :: k;
    assert Renamed(spaces, ptes, spaces', ptes', back) by {
      hide StandsFor, AllRight, Origins;
      forall k ensures RenamedAt(spaces, ptes, spaces', ptes', back, k) {
        if k in ptes' {
          ProtectedStandsFor(spaces, ptes, store, k, prot);
          StandsForItself(spaces, ptes, store, k);
        }
      }
    }
    hide Renamed, AllRight;
    RenamingKeeps(spaces, ptes, spaces', ptes', store, back);
    forall k ensures Origins(spaces', ptes', store, k) == Origins(spaces, ptes, store, k) {
      if k in ptes' {
        assert back[k] == k;
      }
    }
  }

  // ------------------------------------------------------------------
  // Pages cloned: fork and minimm_mapping_copy
  // ------------------------------------------------------------------

  /** `n` pages from page `first` of space `s` also appear from page `dest` of space `t` on. */
  datatype Transfer = Transfer(s: nat, first: nat, n: nat, t: nat, dest: nat)

  predicate FromSource(k: Key, x: Transfer) {
    InPages(k, x.s, x.first, x.first + x.n)
  }

  predicate AtDest(k: Key, x: Transfer) {
    InPages(k, x.t, x.dest, x.dest + x.n)
  }

  function Back(k: Key, x: Transfer): Key {
    if AtDest(k, x) then Key(x.s, k.page - x.dest + x.first) else k
  }

  ghost predicate Apart(x: Transfer) {
    forall k :: !(FromSource(k, x) && AtDest(k, x))
  }

  /** Both copies of a private page that may be written are copied on the next write. */
  ghost predicate Twin(seg: Option<Segment>, was: Pte, p: Pte) {
    && seg.Some? && p.frame == was.frame && p.shared == was.shared
    && (p.cow <==> PrivateWritable(seg.value))
    && p.prot == Effective(seg.value.prot, p.cow)
  }

  ghost predicate ClonedAt(spaces: map<nat, Space>, was: map<Key, Pte>, now: map<Key, Pte>, x: Transfer, k: Key) {
    && (k in now <==> Back(k, x) in was)
    && (k in now ==>
          if AtDest(k, x) || FromSource(k, x) then Twin(Seg(spaces, Back(k, x)), was[Back(k, x)], now[k])
          else now[k] == was[k])
  }

  ghost predicate Cloned(spaces: map<nat, Space>, was: map<Key, Pte>, now: map<Key, Pte>, x: Transfer) {
    forall k {:trigger ClonedAt(spaces, was, now, x, k)} :: ClonedAt(spaces, was, now, x, k)
  }

  /** The clones are there, the sources not yet marked. */
  ghost predicate HalfCloned(spaces: map<nat, Space>, was: map<Key, Pte>, now: map<Key, Pte>, x: Transfer) {
    forall k :: && (k in now <==> Back(k, x) in was)
                && (k in now ==> if AtDest(k, x) then Twin(Seg(spaces, Back(k, x)), was[Back(k, x)], now[k])
                                 else now[k] == was[k])
  }

  /** Entries of `n` pages from `first` on are marked for copying where their mapping asks for it. */
  ghost predicate SourceMarked(spaces: map<nat, Space>, was: map<Key, Pte>, now: map<Key, Pte>, s: nat, first: nat,
                               n: nat) {
    forall k :: && (k in now <==> k in was)
                && (k in now ==> if InPages(k, s, first, first + n) then Twin(Seg(spaces, k), was[k], now[k])
                                 else now[k] == was[k])
  }

  lemma CloneComplete(spaces: map<nat, Space>, was: map<Key, Pte>, mid: map<Key, Pte>, now: map<Key, Pte>, x: Transfer)
    requires HalfCloned(spaces, was, mid, x) && SourceMarked(spaces, mid, now, x.s, x.first, x.n) && Apart(x)
    ensures Cloned(spaces, was, now, x)
  {
    hide Seg, Twin;
    forall k ensures ClonedAt(spaces, was, now, x, k) {
      assert !(FromSource(k, x) && AtDest(k, x));
    }
  }

  lemma CloningKeeps(spaces: map<nat, Space>, ptes: map<Key, Pte>, spaces': map<nat, Space>, ptes': map<Key, Pte>,
                     store: Store, x: Transfer)
    requires AllRight(spaces, ptes, store) && Cloned(spaces, ptes, ptes', x) && Apart(x)
    requires forall k :: Seg(spaces', k) == Seg(spaces, Back(k, x))
    ensures AllRight(spaces', ptes', store)
    ensures forall k :: Origins(spaces', ptes', store, k) == Origins(spaces, ptes, store, Back(k, x))
  {
    hide Seg;
    var back := map k | k in ptes' :: Back(k, x);
    CloningRenames(spaces, ptes, spaces', ptes', store, x, back);
    RenamingKeeps(spaces, ptes, spaces', ptes', store, back);
    forall k ensures Origins(spaces', ptes', store, k) == Origins(spaces, ptes, store, Back(k, x)) {
      assert ClonedAt(spaces, ptes, ptes', x, k);
    }
  }

  lemma TwinStandsFor(spaces: map<nat, Space>, ptes: map<Key, Pte>, store: Store, k: Key, p: Pte)
    requires AllRight(spaces, ptes, store) && k in ptes && Twin(Seg(spaces, k), ptes[k], p)
    ensures Seg(spaces, k).Some? && StandsFor(Seg(spaces, k), p, Seg(spaces, k), ptes[k])
  {
    hide Seg;
    assert PteOk(Seg(spaces, k), ptes, store, k);
  }

  lemma CloningRenames(spaces: map<nat, Space>, ptes: map<Key, Pte>, spaces': map<nat, Space>, ptes': map<Key, Pte>,
                       store: Store, x: Transfer, back: map<Key, Key>)
    requires AllRight(spaces, ptes, store) && Cloned(spaces, ptes, ptes', x) && Apart(x)
    requires forall k :: Seg(spaces', k) == Seg(spaces, Back(k, x))
    requires back == map k | k in ptes' :: Back(k, x)
    ensures Renamed(spaces, ptes, spaces', ptes', back)
  {
    hide Seg, AllRight, StandsFor;
    forall k ensures RenamedAt(spaces, ptes, spaces', ptes', back, k) {
      hide Twin, FromSource;
      assert ClonedAt(spaces, ptes, ptes', x, k);
      if k in ptes' {
        if AtDest(k, x) || FromSource(k, x) {
          TwinStandsFor(spaces, ptes, store, Back(k, x), ptes'[k]);
        } else {
          StandsForItself(spaces, ptes, store, k);
        }
      }
    }
    forall k, o ensures NotBothWritable(spaces', ptes', back, k, o) {
      assert ClonedAt(spaces, ptes, ptes', x, k);
      hide Back, AtDest, FromSource;
      if k in ptes' && o in ptes' && k != o && back[k] == back[o] {
        SharedBack(x, k, o);
      }
    }
  }

  /** Only cloned pages share their source. */
  lemma SharedBack(x: Transfer, k: Key, o: Key)
    requires k != o && Back(k, x) == Back(o, x)
    ensures AtDest(k, x) || FromSource(k, x)
  {
  }

  // ------------------------------------------------------------------
  // Pages moved: mremap
  // ------------------------------------------------------------------

  /** Entries go from the source to the destination; `cleared` pages of space `t` end without entries. */
  ghost predicate MovedAt(was: map<Key, Pte>, now: map<Key, Pte>, x: Transfer, k: Key, cleared: bool) {
    if cleared then k !in now
    else (k in now <==> Back(k, x) in was) && (k in now ==> now[k] == was[Back(k, x)])
  }

  /** Pages that end without entries: the old range, and the destination beyond the moved pages. */
  predicate Cleared(k: Key, x: Transfer, oldPages: nat, newPages: nat) {
    InPages(k, x.s, x.first, x.first + oldPages) || InPages(k, x.t, x.dest + x.n, x.dest + newPages)
  }

  ghost predicate MovedTo(was: map<Key, Pte>, now: map<Key, Pte>, x: Transfer, oldPages: nat, newPages: nat) {
    forall k {:trigger MovedAt(was, now, x, k, Cleared(k, x, oldPages, newPages))} ::
      MovedAt(was, now, x, k, Cleared(k, x, oldPages, newPages))
  }

  lemma MovingRenames(spaces: map<nat, Space>, ptes: map<Key, Pte>, spaces': map<nat, Space>, ptes': map<Key, Pte>,
                      store: Store, x: Transfer, oldPages: nat, newPages: nat, back: map<Key, Key>)
    requires AllRight(spaces, ptes, store) && MovedTo(ptes, ptes', x, oldPages, newPages)
    requires x.s == x.t && x.n <= oldPages && x.n <= newPages
    requires x.dest + newPages <= x.first || x.first + oldPages <= x.dest
    requires forall k :: !Cleared(k, x, oldPages, newPages) ==> Seg(spaces', k) == Seg(spaces, Back(k, x))
    requires back == map k | k in ptes' :: Back(k, x)
    ensures Renamed(spaces, ptes, spaces', ptes', back)
  {
    hide Seg, AllRight, StandsFor;
    forall k ensures RenamedAt(spaces, ptes, spaces', ptes', back, k) {
      assert MovedAt(ptes, ptes', x, k, Cleared(k, x, oldPages, newPages));
      if k in ptes' {
        StandsForItself(spaces, ptes, store, Back(k, x));
      }
    }
    forall k, o ensures NotBothWritable(spaces', ptes', back, k, o) {
      assert MovedAt(ptes, ptes', x, k, Cleared(k, x, oldPages, newPages));
      assert MovedAt(ptes, ptes', x, o, Cleared(o, x, oldPages, newPages));
    }
  }

  lemma MovingKeeps(spaces: map<nat, Space>, ptes: map<Key, Pte>, spaces': map<nat, Space>, ptes': map<Key, Pte>,
                    store: Store, x: Transfer, oldPages: nat, newPages: nat)
    requires AllRight(spaces, ptes, store) && MovedTo(ptes, ptes', x, oldPages, newPages)
    requires x.s == x.t && x.n <= oldPages && x.n <= newPages
    requires x.dest + newPages <= x.first || x.first + oldPages <= x.dest
    requires forall k :: !Cleared(k, x, oldPages, newPages) ==> Seg(spaces', k) == Seg(spaces, Back(k, x))
    ensures AllRight(spaces', ptes', store)
    ensures forall k :: Origins(spaces', ptes', store, k) ==
                        if Cleared(k, x, oldPages, newPages) then Initial(Seg(spaces', k))
                        else Origins(spaces, ptes, store, Back(k, x))
  {
    hide Seg;
    var back := map k | k in ptes' :: Back(k, x);
    MovingRenames(spaces, ptes, spaces', ptes', store, x, oldPages, newPages, back);
    hide AllRight, Renamed, Cleared;
    RenamingKeeps(spaces, ptes, spaces', ptes', store, back);
    forall k
      ensures Origins(spaces', ptes', store, k) ==
              if Cleared(k, x, oldPages, newPages) then Initial(Seg(spaces', k))
              else Origins(spaces, ptes, store, Back(k, x))
    {
      assert MovedAt(ptes, ptes', x, k, Cleared(k, x, oldPages, newPages));
    }
  }

  // ------------------------------------------------------------------
  // The layouts of copies and moves
  // ------------------------------------------------------------------

  lemma {:induction false} KeptAll(bs: seq<Binding>, vmas: Snapshot)
    requires forall i :: 0 <= i < |bs| ==> Used(vmas, bs[i].cookie)
    ensures Kept(bs, vmas) == bs
  {
    hide Used;
    if bs != [] {
      KeptAll(bs[1..], vmas);
    }
  }

  /** A mapping added where nothing was leaves every binding in use. */
  lemma AllUsed(sp: Space, nextObj: nat, vmas: Snapshot, r: Range, backing: Backing)
    requires SpaceOk(sp, nextObj) && Inserts(sp, vmas, r)
    requires forall a: nat :: Covers(r, a) ==> At(sp.vmas.ranges, a) == None
    ensures Kept([Binding(r.cookie, backing)] + sp.bindings, vmas) == [Binding(r.cookie, backing)] + sp.bindings
  {
    hide At, SnapshotOk;
    var bs := [Binding(r.cookie, backing)] + sp.bindings;
    forall i | 0 <= i < |bs| ensures Used(vmas, bs[i].cookie) {
      if i == 0 {
        assert At(vmas.ranges, r.start) == Some(AttrAt(r, r.start));
      } else {
        assert bs[i] == sp.bindings[i - 1] && BindingOk(sp.bindings[i - 1], sp.vmas, sp.nextCookie, nextObj);
        var a: nat :| At(sp.vmas.ranges, a).Some? && At(sp.vmas.ranges, a).value.cookie == bs[i].cookie;
        assert At(vmas.ranges, a) == At(sp.vmas.ranges, a);
      }
    }
    hide Used;
    KeptAll(bs, vmas);
  }

  /** `r` is the range `q` at another place, perhaps of another length. */
  ghost predicate Replaces(r: Range, q: Range) {
    r.offset == q.offset && r.prot == q.prot && r.max == q.max && r.shared == q.shared
  }

  ghost predicate MappedBy(sp: Space, q: Range) {
    PageRange(q.start, q.end) && forall a: nat :: Covers(q, a) ==> At(sp.vmas.ranges, a) == Some(AttrAt(q, a))
  }

  /** The pages of a range show what the same pages of the range it replaces show. */
  lemma SamePages(sp: Space, q: Range, r: Range, backing: Backing, page: nat)
    requires MappedBy(sp, q) && Replaces(r, q) && BindingOf(sp.bindings, q.cookie) == Some(backing)
    requires r.start % PAGE_SIZE == 0 && q.start <= page * PAGE_SIZE < q.end
    ensures r.start <= (page - q.start / PAGE_SIZE + r.start / PAGE_SIZE) * PAGE_SIZE
    ensures SegmentOf(sp, page) == Some(MappedSegment(r, backing, page - q.start / PAGE_SIZE + r.start / PAGE_SIZE))
  {
    hide At;
    assert At(sp.vmas.ranges, page * PAGE_SIZE) == Some(AttrAt(q, page * PAGE_SIZE));
    var first, dest := q.start / PAGE_SIZE, r.start / PAGE_SIZE;
    assert q.start == first * PAGE_SIZE && r.start == dest * PAGE_SIZE;
    assert (page - first + dest) * PAGE_SIZE - r.start == page * PAGE_SIZE - q.start;
  }

  /** A range of `r`'s place and `q`'s pages. */
  function CopyOf(s: nat, q: Range, r: Range): Transfer {
    var pages := if q.start <= q.end then (q.end - q.start) / PAGE_SIZE else 0;
    Transfer(s, q.start / PAGE_SIZE, pages, s, r.start / PAGE_SIZE)
  }

  lemma TransferPages(s: nat, q: Range, r: Range, k: Key)
    requires PageRange(q.start, q.end) && r.start % PAGE_SIZE == 0 && r.end % PAGE_SIZE == 0
    requires r.end - r.start == q.end - q.start
    ensures FromSource(k, CopyOf(s, q, r)) <==> k.space == s && Covers(q, k.page * PAGE_SIZE)
    ensures AtDest(k, CopyOf(s, q, r)) <==> k.space == s && Covers(r, k.page * PAGE_SIZE)
  {
  }

  /** minimm_mapping_copy's layout: the new range shows what the old one shows. */
  lemma CopiedLayout(spaces: map<nat, Space>, nextObj: nat, s: nat, vmas: Snapshot, q: Range, r: Range,
                     backing: Backing)
    requires SpacesOk(spaces, nextObj) && s in spaces && Inserts(spaces[s], vmas, r) && r.cookie == spaces[s].nextCookie
    requires MappedBy(spaces[s], q) && Replaces(r, q) && r.end - r.start == q.end - q.start
    requires BindingOf(spaces[s].bindings, q.cookie) == Some(backing)
    requires IsShared(backing) == r.shared && (backing.AnonPrivate? || backing.obj < nextObj)
    requires forall a: nat :: Covers(r, a) ==> At(spaces[s].vmas.ranges, a) == None
    ensures SpacesOk(spaces[s := WithMapping(spaces[s], vmas, r.cookie, backing)], nextObj)
    ensures Apart(CopyOf(s, q, r))
    ensures forall k :: Seg(spaces[s := WithMapping(spaces[s], vmas, r.cookie, backing)], k) ==
              Seg(spaces, Back(k, CopyOf(s, q, r)))
    ensures forall k :: AtDest(k, CopyOf(s, q, r)) ==> Seg(spaces, k).None?
  {
    var x := CopyOf(s, q, r);
    assert r.start % PAGE_SIZE == 0 && r.end % PAGE_SIZE == 0;
    InsertedLayout(spaces, nextObj, s, vmas, r, backing);
    hide At, Inserts, WithMapping, SpacesOk, BindingOf, MappedSegment;
    var after := spaces[s := WithMapping(spaces[s], vmas, r.cookie, backing)];
    forall k
      ensures Seg(after, k) == Seg(spaces, Back(k, x)) && (AtDest(k, x) ==> Seg(spaces, k).None?)
      ensures !(FromSource(k, x) && AtDest(k, x))
    {
      TransferPages(s, q, r, k);
      CopiedPage(spaces, after, s, q, r, backing, k);
    }
  }

  lemma CopiedPage(spaces: map<nat, Space>, after: map<nat, Space>, s: nat, q: Range, r: Range, backing: Backing,
                   k: Key)
    requires s in spaces && MappedBy(spaces[s], q) && Replaces(r, q) && r.end - r.start == q.end - q.start
    requires BindingOf(spaces[s].bindings, q.cookie) == Some(backing)
    requires r.start % PAGE_SIZE == 0 && r.end % PAGE_SIZE == 0
    requires forall a: nat :: Covers(r, a) ==> At(spaces[s].vmas.ranges, a) == None
    requires Seg(after, k) ==
               if InRange(k, s, r.start, r.end) then Some(MappedSegment(r, backing, k.page)) else Seg(spaces, k)
    ensures Seg(after, k) == Seg(spaces, Back(k, CopyOf(s, q, r)))
    ensures AtDest(k, CopyOf(s, q, r)) ==> Seg(spaces, k).None?
    ensures !(FromSource(k, CopyOf(s, q, r)) && AtDest(k, CopyOf(s, q, r)))
  {
    hide At, MappedSegment;
    var x := CopyOf(s, q, r);
    TransferPages(s, q, r, k);
    RangePages(k, s, r.start, r.end);
    if AtDest(k, x) {
      assert At(spaces[s].vmas.ranges, k.page * PAGE_SIZE) == None;
      var page := Back(k, x).page;
      TransferPages(s, q, r, Key(s, page));
      SamePages(spaces[s], q, r, backing, page);
    }
  }

  /** minimm_mremap: as many pages of `q` as fit appear at `r`. */
  function MoveOf(s: nat, q: Range, r: Range): Transfer {
    Transfer(s, q.start / PAGE_SIZE, if Pages(q) < Pages(r) then Pages(q) else Pages(r), s, r.start / PAGE_SIZE)
  }

  function Pages(r: Range): nat {
    if r.start <= r.end then (r.end - r.start) / PAGE_SIZE else 0
  }

  lemma MovePages(s: nat, q: Range, r: Range, k: Key)
    requires PageRange(q.start, q.end) && PageRange(r.start, r.end)
    ensures var x := MoveOf(s, q, r);
            && (Cleared(k, x, Pages(q), Pages(r)) ==> k.space == s)
            && (Covers(r, k.page * PAGE_SIZE) && k.space == s <==>
                AtDest(k, x) || InPages(k, s, x.dest + x.n, x.dest + Pages(r)))
            && (Covers(q, k.page * PAGE_SIZE) && k.space == s <==> InPages(k, s, x.first, x.first + Pages(q)))
            && (AtDest(k, x) ==> Covers(q, Back(k, x).page * PAGE_SIZE))
  {
  }

  /** What minimm_mremap publishes when the source goes away. */
  ghost predicate Moves(sp: Space, vmas: Snapshot, q: Range, r: Range) {
    && SnapshotOk(vmas) && RangeValid(r)
    && forall a: nat :: At(vmas.ranges, a) ==
                        if Covers(r, a) then Some(AttrAt(r, a))
                        else if Covers(q, a) then None else At(sp.vmas.ranges, a)
  }

  lemma MovedSpace(sp: Space, nextObj: nat, vmas: Snapshot, q: Range, r: Range, backing: Backing)
    requires SpaceOk(sp, nextObj) && MappedBy(sp, q) && Moves(sp, vmas, q, r) && Replaces(r, q) && r.cookie == q.cookie
    requires BindingOf(sp.bindings, q.cookie) == Some(backing)
    ensures SpaceOk(Published(sp, vmas, Kept(sp.bindings, vmas), sp.nextCookie), nextObj)
    ensures forall page: nat ::
              SegmentOf(Published(sp, vmas, Kept(sp.bindings, vmas), sp.nextCookie), page) ==
              if Covers(r, page * PAGE_SIZE) then Some(MappedSegment(r, backing, page))
              else if Covers(q, page * PAGE_SIZE) then None
              else SegmentOf(sp, page)
  {
    hide At, SnapshotOk, Kept, BindingOf, Used, RangeValid, SourceOf;
    assert Bound(sp.bindings, AttrAt(q, q.start), sp.nextCookie) by {
      assert At(sp.vmas.ranges, q.start) == Some(AttrAt(q, q.start));
    }
    forall a: nat | At(vmas.ranges, a).Some? ensures Bound(sp.bindings, At(vmas.ranges, a).value, sp.nextCookie) {
      assert !Covers(r, a) ==> Bound(sp.bindings, At(sp.vmas.ranges, a).value, sp.nextCookie);
    }
    PrunedOk(sp, vmas, sp.bindings, sp.nextCookie, nextObj);
    forall page: nat
      ensures SegmentOf(Published(sp, vmas, Kept(sp.bindings, vmas), sp.nextCookie), page) ==
              if Covers(r, page * PAGE_SIZE) then Some(MappedSegment(r, backing, page))
              else if Covers(q, page * PAGE_SIZE) then None
              else SegmentOf(sp, page)
    {
      var a := page * PAGE_SIZE;
      assert At(vmas.ranges, a) ==
             if Covers(r, a) then Some(AttrAt(r, a)) else if Covers(q, a) then None else At(sp.vmas.ranges, a);
    }
  }

  /** The segments after a move, in terms of the pages moved. */
  ghost predicate MovedSegs(spaces: map<nat, Space>, after: map<nat, Space>, s: nat, q: Range, r: Range,
                            backing: Backing, keeps: bool) {
    && (forall k :: !Cleared(k, MoveOf(s, q, r), Pages(q), Pages(r)) ==>
          Seg(after, k) == Seg(spaces, Back(k, MoveOf(s, q, r))))
    && (forall k :: Cleared(k, MoveOf(s, q, r), Pages(q), Pages(r)) ==>
          Seg(after, k) == if InRange(k, s, r.start, r.end) then Some(MappedSegment(r, backing, k.page))
                           else if keeps then Seg(spaces, k) else None)
  }

  lemma MovedSeg(spaces: map<nat, Space>, after: map<nat, Space>, s: nat, q: Range, r: Range, backing: Backing,
                 keeps: bool, k: Key)
    requires s in spaces && MappedBy(spaces[s], q) && Replaces(r, q) && PageRange(r.start, r.end)
    requires BindingOf(spaces[s].bindings, q.cookie) == Some(backing) && (r.end <= q.start || q.end <= r.start)
    requires Seg(after, k) == if k.space == s && Covers(r, k.page * PAGE_SIZE)
                              then Some(MappedSegment(r, backing, k.page))
                              else if k.space == s && Covers(q, k.page * PAGE_SIZE) && !keeps then None
                              else Seg(spaces, k)
    ensures !Cleared(k, MoveOf(s, q, r), Pages(q), Pages(r)) ==> Seg(after, k) == Seg(spaces, Back(k, MoveOf(s, q, r)))
    ensures Cleared(k, MoveOf(s, q, r), Pages(q), Pages(r)) ==>
              Seg(after, k) == if InRange(k, s, r.start, r.end) then Some(MappedSegment(r, backing, k.page))
                               else if keeps then Seg(spaces, k) else None
  {
    hide At, MappedSegment;
    var x := MoveOf(s, q, r);
    MovePages(s, q, r, k);
    RangePages(k, s, r.start, r.end);
    if AtDest(k, x) {
      SamePages(spaces[s], q, r, backing, Back(k, x).page);
    }
  }

  lemma MovedLayout(spaces: map<nat, Space>, nextObj: nat, s: nat, vmas: Snapshot, q: Range, r: Range, backing: Backing)
    requires SpacesOk(spaces, nextObj) && s in spaces && MappedBy(spaces[s], q) && Moves(spaces[s], vmas, q, r)
    requires Replaces(r, q) && r.cookie == q.cookie && (r.end <= q.start || q.end <= r.start)
    requires BindingOf(spaces[s].bindings, q.cookie) == Some(backing)
    ensures var after := spaces[s := Published(spaces[s], vmas, Kept(spaces[s].bindings, vmas), spaces[s].nextCookie)];
            SpacesOk(after, nextObj) && MovedSegs(spaces, after, s, q, r, backing, false)
  {
    var sp := spaces[s];
    assert SpaceOk(sp, nextObj) && PageRange(r.start, r.end);
    MovedSpace(sp, nextObj, vmas, q, r, backing);
    hide At, Moves, Kept, SpaceOk, SegmentOf, MappedBy, SpacesOk;
    var after := spaces[s := Published(sp, vmas, Kept(sp.bindings, vmas), sp.nextCookie)];
    OneSpaceChanged(spaces, nextObj, s, after[s]);
    forall k: Key
      ensures !Cleared(k, MoveOf(s, q, r), Pages(q), Pages(r)) ==>
                Seg(after, k) == Seg(spaces, Back(k, MoveOf(s, q, r)))
      ensures Cleared(k, MoveOf(s, q, r), Pages(q), Pages(r)) ==>
                Seg(after, k) == if InRange(k, s, r.start, r.end) then Some(MappedSegment(r, backing, k.page)) else None
    {
      hide Cleared, MoveOf, Pages, InRange;
      MovedSeg(spaces, after, s, q, r, backing, false, k);
    }
  }

  /** A move that keeps the source mapped. */
  lemma KeptLayout(spaces: map<nat, Space>, nextObj: nat, s: nat, vmas: Snapshot, q: Range, r: Range, backing: Backing)
    requires SpacesOk(spaces, nextObj) && s in spaces && MappedBy(spaces[s], q) && Inserts(spaces[s], vmas, r)
    requires Replaces(r, q) && r.cookie == spaces[s].nextCookie && (r.end <= q.start || q.end <= r.start)
    requires BindingOf(spaces[s].bindings, q.cookie) == Some(backing)
    requires IsShared(backing) == r.shared && (backing.AnonPrivate? || backing.obj < nextObj)
    ensures var after := spaces[s := WithMapping(spaces[s], vmas, r.cookie, backing)];
            SpacesOk(after, nextObj) && MovedSegs(spaces, after, s, q, r, backing, true)
  {
    assert PageRange(r.start, r.end);
    InsertedLayout(spaces, nextObj, s, vmas, r, backing);
    hide At, Inserts, WithMapping, SpaceOk, SegmentOf, MappedBy, SpacesOk;
    var after := spaces[s := WithMapping(spaces[s], vmas, r.cookie, backing)];
    forall k: Key
      ensures !Cleared(k, MoveOf(s, q, r), Pages(q), Pages(r)) ==>
                Seg(after, k) == Seg(spaces, Back(k, MoveOf(s, q, r)))
      ensures Cleared(k, MoveOf(s, q, r), Pages(q), Pages(r)) ==>
                Seg(after, k) == if InRange(k, s, r.start, r.end) then Some(MappedSegment(r, backing, k.page))
                                 else Seg(spaces, k)
    {
      RangePages(k, s, r.start, r.end);
      hide Cleared, MoveOf, Pages, InRange;
      MovedSeg(spaces, after, s, q, r, backing, true, k);
    }
  }

  // ------------------------------------------------------------------
  // Moving entries step by step
  // ------------------------------------------------------------------

  /** The first `n` pages of the source have been placed at the destination; holes have not been placed. */
  ghost predicate Placed(was: map<Key, Pte>, now: map<Key, Pte>, x: Transfer, n: nat) {
    forall k :: if AtDest(k, x.(n := n)) && Back(k, x.(n := n)) in was
                then k in now && now[k] == was[Back(k, x.(n := n))]
                else (k in now <==> k in was) && (k in was ==> now[k] == was[k])
  }

  /** A destination entry without a source entry. */
  ghost predicate Hole(ptes: map<Key, Pte>, x: Transfer, k: Key, newPages: nat) {
    InPages(k, x.t, x.dest, x.dest + newPages) && (k.page - x.dest >= x.n || Back(k, x) !in ptes)
  }

  ghost predicate Holed(was: map<Key, Pte>, now: map<Key, Pte>, x: Transfer, newPages: nat) {
    forall k :: (k in now <==> k in was && !Hole(was, x, k, newPages)) && (k in now ==> now[k] == was[k])
  }

  lemma MoveComplete(was: map<Key, Pte>, placed: map<Key, Pte>, holed: map<Key, Pte>, now: map<Key, Pte>, x: Transfer,
                     oldPages: nat, newPages: nat)
    requires Placed(was, placed, x, x.n) && Holed(placed, holed, x, newPages)
    requires Dropped(holed, now, x.s, x.first, x.first + oldPages)
    requires x.s == x.t && x.n <= oldPages && x.n <= newPages
    requires x.dest + newPages <= x.first || x.first + oldPages <= x.dest
    ensures MovedTo(was, now, x, oldPages, newPages)
  {
    forall k ensures MovedAt(was, now, x, k, Cleared(k, x, oldPages, newPages)) {
      assert x.(n := x.n) == x;
      if AtDest(k, x) {
        assert !AtDest(Back(k, x), x);
      }
    }
  }

  /** Entries saved from a range, in address order. */
  datatype Saved = Saved(page: nat, pte: Pte)

  ghost predicate Ordered(saved: seq<Saved>) {
    forall i, j :: 0 <= i < j < |saved| ==> saved[i].page < saved[j].page
  }

  ghost predicate IsSaved(saved: seq<Saved>, page: nat) {
    exists i :: 0 <= i < |saved| && saved[i].page == page
  }

  ghost predicate Saves(saved: seq<Saved>, was: map<Key, Pte>, s: nat, first: nat, last: nat) {
    && Ordered(saved)
    && (forall i :: 0 <= i < |saved| ==>
          first <= saved[i].page < last && Key(s, saved[i].page) in was && was[Key(s, saved[i].page)] == saved[i].pte)
    && (forall p :: first <= p < last && Key(s, p) in was ==> IsSaved(saved, p))
  }

  /** minimm_mapping_find_saved_page */
  method FindSaved(saved: seq<Saved>, page: nat) returns (found: bool)
    requires Ordered(saved)
    ensures found <==> IsSaved(saved, page)
  {
    var low, high := 0, |saved|;
    while low < high
      invariant 0 <= low <= high <= |saved|
      invariant forall i :: 0 <= i < low ==> saved[i].page < page
      invariant forall i :: high <= i < |saved| ==> saved[i].page >= page
    {
      var middle := low + (high - low) / 2;
      if saved[middle].page < page {
        low := middle + 1;
      } else {
        high := middle;
      }
    }
    found := low < |saved| && saved[low].page == page;
  }
}
