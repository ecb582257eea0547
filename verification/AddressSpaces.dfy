/**
 * All address spaces of a system over shared frames and objects (src/fault.c,
 * src/access.c, src/mapping.c, src/fork.c, src/memory_api.c).  Each public operation
 * runs under the lock of its space and is one step here; its contract says what
 * becomes of the origin of every page of every space and of every object page.
 */
module AddressSpaces {
  import opened Base
  import opened Vma
  import opened Sharing
  import opened Tables
  import opened Layouts

  datatype Access = Read | Write | Edit | Execute

  /** The page an address lies on. */
  function KeyAt(s: nat, address: nat): Key {
    Key(s, address / PAGE_SIZE)
  }

  lemma KeyBelow(s: nat, address: nat)
    requires address < ADDRESS_LIMIT
    ensures KeyAt(s, address).page < MAX_PAGE && KeyAt(s, address).space == s
  {
  }

  /** minimm_fault_access_is_allowed */
  predicate Allowed(p: Prot, access: Access) {
    match access
    case Read => p.read
    case Write => p.write
    case Edit => p.write && p.edit
    case Execute => p.exec
  }

  predicate Writes(access: Access) {
    access.Write? || access.Edit?
  }

  /** What the frame store may answer. */
  predicate FrameStatus(status: Status) {
    status in {Ok, OutOfMemory, NoSpace, IoError, Busy}
  }

  /** The entry a successful access of this kind goes through. */
  predicate Usable(p: Pte, access: Access) {
    && Allowed(p.prot, access) && p.accessed
    && (Writes(access) ==> !p.cow && p.dirty)
  }

  /** A page written for the first time leaves its object. */
  function Privatised(seg: Option<Segment>, origin: Origin, store: Store): Origin {
    if seg.Some? && !seg.value.shared && origin.FromObject? then Own(ObjectPage(store, origin.ref)) else origin
  }

  method FindBinding(bs: seq<Binding>, cookie: nat) returns (backing: Option<Backing>)
    ensures backing == BindingOf(bs, cookie)
  {
    var rest := bs;
    while rest != []
      invariant BindingOf(rest, cookie) == BindingOf(bs, cookie)
      decreases |rest|
    {
      if rest[0].cookie == cookie {
        return Some(rest[0].backing);
      }
      rest := rest[1..];
    }
    return None;
  }

  lemma SegFacts(spaces: map<nat, Space>, nextObj: nat, k: Key)
    requires SpacesOk(spaces, nextObj) && Seg(spaces, k).Some?
    ensures k.page < MAX_PAGE && ProtWithin(Seg(spaces, k)) && ProtValid(Seg(spaces, k).value.prot)
    ensures ProtValid(Seg(spaces, k).value.max)
    ensures Seg(spaces, k).value.shared ==> Seg(spaces, k).value.source.Some?
    ensures Seg(spaces, k).value.source.Some? ==> Seg(spaces, k).value.source.value.obj < nextObj
  {
    hide SegmentOf;
    SegmentOk(spaces[k.space], nextObj, k.page);
  }

  /** No entry names a frame that did not exist. */
  lemma FreshIsUnused(ptes: map<Key, Pte>, counts: map<nat, Counts>, frame: nat)
    requires Counted(ptes, counts) && frame !in counts
    ensures forall k :: k in ptes ==> ptes[k].frame != frame
  {
  }

  /** A fault changes no bytes; a write fault on a private page makes the page the space's own. */
  ghost predicate Faulted(spaces: map<nat, Space>, ptes: map<Key, Pte>, store: Store,
                          ptes': map<Key, Pte>, store': Store, k: Key, wrote: bool) {
    && (forall o :: Origins(spaces, ptes', store', o) ==
                    if o == k && wrote then Privatised(Seg(spaces, k), Origins(spaces, ptes, store, k), store)
                    else Origins(spaces, ptes, store, o))
    && (forall r :: ObjectPage(store', r) == ObjectPage(store, r))
  }

  /** Which statuses a fault returns, exactly. */
  predicate FaultStatus(status: Status, seg: Option<Segment>, address: nat, access: Access) {
    && (status == InvalidArgument <==> address >= ADDRESS_LIMIT)
    && (status == NotFound <==> address < ADDRESS_LIMIT && seg.None?)
    && (status == Permission <==> address < ADDRESS_LIMIT && seg.Some? && !Allowed(seg.value.prot, access))
    && status in {Ok, InvalidArgument, NotFound, Permission, OutOfMemory, NoSpace, IoError, Busy}
  }

  /** The only entry that may differ is that of `k`. */
  ghost predicate OnlyAt(was: map<Key, Pte>, now: map<Key, Pte>, k: Key) {
    k in now && now == was[k := now[k]] && (k in was ==> now[k].locked == was[k].locked)
  }

  /** What is copied for the first private write of a note page. */
  lemma PrivatisedByCopy(spaces: map<nat, Space>, ptes: map<Key, Pte>, store: Store, k: Key, frame: nat)
    requires k !in ptes && Seg(spaces, k).Some? && !Seg(spaces, k).value.shared
    requires IsObjectFrame(store, Seg(spaces, k).value.source, frame)
    ensures Privatised(Seg(spaces, k), Origins(spaces, ptes, store, k), store) == Own(Content(store, frame))
  {
  }

  /** Without an entry, only private pages of notes are not yet the space's own. */
  lemma UntouchedByWrite(spaces: map<nat, Space>, ptes: map<Key, Pte>, store: Store, k: Key)
    requires k !in ptes && Seg(spaces, k).Some? && (Seg(spaces, k).value.shared || Seg(spaces, k).value.source.None?)
    ensures Privatised(Seg(spaces, k), Origins(spaces, ptes, store, k), store) == Origins(spaces, ptes, store, k)
  {
  }

  /** A copy-on-write page is private, and copying it makes it the space's own. */
  lemma CowFacts(spaces: map<nat, Space>, ptes: map<Key, Pte>, store: Store, k: Key)
    requires AllRight(spaces, ptes, store) && k in ptes && ptes[k].cow
    ensures Seg(spaces, k).Some? && !Seg(spaces, k).value.shared && !ptes[k].shared
    ensures Privatised(Seg(spaces, k), Origins(spaces, ptes, store, k), store) == Own(Content(store, ptes[k].frame))
  {
    hide Seg;
    assert PteOk(Seg(spaces, k), ptes, store, k);
  }

  /** An entry that needs no copy allows what its mapping allows, and a write through it changes no origin. */
  lemma RetouchFacts(spaces: map<nat, Space>, ptes: map<Key, Pte>, store: Store, k: Key, access: Access)
    requires AllRight(spaces, ptes, store) && k in ptes && !(ptes[k].cow && Writes(access))
    requires Seg(spaces, k).Some? && Allowed(Seg(spaces, k).value.prot, access) && ProtWithin(Seg(spaces, k))
    ensures Allowed(ptes[k].prot, access) && Effective(ptes[k].prot, ptes[k].cow) == ptes[k].prot
    ensures Writes(access) ==>
              Privatised(Seg(spaces, k), Origins(spaces, ptes, store, k), store) == Origins(spaces, ptes, store, k)
  {
    hide Seg;
    assert PteOk(Seg(spaces, k), ptes, store, k);
  }

  lemma OneSpace(spaces: map<nat, Space>, nextObj: nat, s: nat)
    requires SpacesOk(spaces, nextObj) && s in spaces
    ensures SpaceOk(spaces[s], nextObj)
  {
  }

  lemma NoFault(spaces: map<nat, Space>, ptes: map<Key, Pte>, store: Store, k: Key)
    ensures Faulted(spaces, ptes, store, ptes, store, k, false)
    ensures SameOutside(ptes, ptes, k.space, k.page, k.page + 1)
  {
  }

  lemma FaultedTwice(spaces: map<nat, Space>, ptes: map<Key, Pte>, store: Store, ptes': map<Key, Pte>, store': Store,
                     ptes'': map<Key, Pte>, store'': Store, k: Key, wrote: bool, again: bool)
    requires Faulted(spaces, ptes, store, ptes', store', k, wrote)
    requires Faulted(spaces, ptes', store', ptes'', store'', k, again)
    ensures Faulted(spaces, ptes, store, ptes'', store'', k, wrote || again)
  {
    hide Origins, Seg, ObjectPage;
  }

  lemma OnlyAtOutside(first: map<Key, Pte>, was: map<Key, Pte>, now: map<Key, Pte>, k: Key)
    requires SameOutside(first, was, k.space, k.page, k.page + 1) && (was == now || OnlyAt(was, now, k))
    ensures SameOutside(first, now, k.space, k.page, k.page + 1) && (OnlyAt(was, now, k) ==> k in now)
  {
  }

  lemma FaultFailure(status: Status, seg: Option<Segment>, address: nat, access: Access)
    requires FaultStatus(status, seg, address, access) && address < ADDRESS_LIMIT
    requires seg.Some? && Allowed(seg.value.prot, access)
    ensures FrameStatus(status)
  {
  }

  /** The slot of a page holds its entry or that of another page. */
  lemma CachedIsEntry(tlbs: map<nat, Tlb>, ptes: map<Key, Pte>, k: Key)
    requires TlbsOk(tlbs, ptes) && k.space in tlbs
    ensures |tlbs[k.space]| > 0
    ensures var e := tlbs[k.space][k.page % |tlbs[k.space]|];
            e.Some? && e.value.page == k.page ==> k in ptes && ptes[k] == e.value.pte
  {
    assert TlbOk(tlbs[k.space], k.space, ptes);
    assert EntryOk(tlbs[k.space], k.page % |tlbs[k.space]|, k.space, ptes);
  }

  /** The entry of an access that needs no new frame: only the access is recorded. */
  function Recorded(p: Pte, access: Access): Pte {
    p.(accessed := true, dirty := p.dirty || Writes(access))
  }

  predicate Suffices(ptes: map<Key, Pte>, k: Key, access: Access) {
    k in ptes && !(Writes(access) && ptes[k].cow)
  }

  /** What a walk does to an entry that suffices, and to nothing else; a failed one may have recorded the access. */
  ghost predicate Walked(ptes: map<Key, Pte>, store: Store, ptes': map<Key, Pte>, store': Store,
                         k: Key, access: Access, ok: bool) {
    Suffices(ptes, k, access) ==>
      store' == store && (ptes' == ptes[k := Recorded(ptes[k], access)] || (!ok && ptes' == ptes))
  }

  lemma WalkedTwice(ptes: map<Key, Pte>, store: Store, ptes': map<Key, Pte>, store': Store,
                    ptes'': map<Key, Pte>, store'': Store, k: Key, access: Access, ok: bool)
    requires Walked(ptes, store, ptes', store', k, access, false)
    requires Walked(ptes', store', ptes'', store'', k, access, ok)
    ensures Walked(ptes, store, ptes'', store'', k, access, ok)
    ensures Walked(ptes, store, ptes'', store'', k, access, false)
  {
  }

  lemma NotWalked(ptes: map<Key, Pte>, store: Store, k: Key, access: Access)
    ensures Walked(ptes, store, ptes, store, k, access, false)
  {
  }

  /** Where a cached translation is usable, every walk leaves the table and the store as a hit does. */
  lemma HitIsWalk(ptes: map<Key, Pte>, store: Store, ptes': map<Key, Pte>, store': Store, k: Key, access: Access,
                  ok: bool)
    requires k in ptes && Usable(ptes[k], access) && Walked(ptes, store, ptes', store', k, access, ok)
    ensures ptes' == ptes && store' == store
  {
    assert Recorded(ptes[k], access) == ptes[k];
  }

  lemma WalkKeepsUsable(ptes: map<Key, Pte>, store: Store, ptes': map<Key, Pte>, store': Store, k: Key, access: Access,
                        ok: bool)
    requires Walked(ptes, store, ptes', store', k, access, ok)
    ensures k in ptes && Usable(ptes[k], access) ==> ptes' == ptes && store' == store
  {
    if k in ptes && Usable(ptes[k], access) {
      HitIsWalk(ptes, store, ptes', store', k, access, ok);
    }
  }

  lemma TouchWalks(ptes: map<Key, Pte>, store: Store, ptes': map<Key, Pte>, k: Key, access: Access)
    requires k in ptes && ptes' == ptes[k := Recorded(ptes[k], access)]
    ensures Walked(ptes, store, ptes', store, k, access, true)
  {
  }

  lemma HitIsInvisible(spaces: map<nat, Space>, ptes: map<Key, Pte>, store: Store, k: Key, access: Access)
    requires AllRight(spaces, ptes, store) && k in ptes && Usable(ptes[k], access)
    requires Seg(spaces, k).Some? && ProtWithin(Seg(spaces, k))
    ensures Faulted(spaces, ptes, store, ptes, store, k, Writes(access))
    ensures Walked(ptes, store, ptes, store, k, access, true)
  {
    hide Seg;
    assert PteOk(Seg(spaces, k), ptes, store, k);
    assert Recorded(ptes[k], access) == ptes[k];
  }

  lemma AllowedStatus(status: Status, seg: Option<Segment>, address: nat, access: Access)
    requires FaultStatus(status, seg, address, access) && status == Ok
    ensures seg.Some? && forall other :: FrameStatus(other) ==> FaultStatus(other, seg, address, access)
  {
  }

  lemma ViewIsFrame(spaces: map<nat, Space>, ptes: map<Key, Pte>, store: Store, k: Key)
    requires AllRight(spaces, ptes, store) && k in ptes
    ensures View(spaces, ptes, store, k) == Some(Content(store, ptes[k].frame))
  {
    hide Seg;
    assert PteOk(Seg(spaces, k), ptes, store, k);
  }

  /** `data` laid over page `k` at `offset`, as every space sees it. */
  ghost predicate Stored(spaces: map<nat, Space>, ptes: map<Key, Pte>, store: Store,
                         ptes': map<Key, Pte>, store': Store, k: Key, offset: nat, data: seq<Byte>)
    requires offset + |data| <= PAGE_SIZE
  {
    && Seg(spaces, k).Some? && View(spaces, ptes, store, k).Some?
    && if Seg(spaces, k).value.shared then
         && Seg(spaces, k).value.source.Some?
         && (forall o :: Origins(spaces, ptes', store', o) == Origins(spaces, ptes, store, o))
         && (forall r :: ObjectPage(store', r) ==
                         if Some(r) == Seg(spaces, k).value.source then Splice(ObjectPage(store, r), offset, data)
                         else ObjectPage(store, r))
       else
         && (forall o :: Origins(spaces, ptes', store', o) ==
                         if o == k then Own(Splice(View(spaces, ptes, store, k).value, offset, data))
                         else Origins(spaces, ptes, store, o))
         && (forall r :: ObjectPage(store', r) == ObjectPage(store, r))
  }

  /** Writing through a usable entry stores exactly the data. */
  lemma WritingStores(spaces: map<nat, Space>, ptes0: map<Key, Pte>, store0: Store, ptes: map<Key, Pte>, store: Store,
                      k: Key, offset: nat, data: seq<Byte>, access: Access, nextObj: nat)
    requires AllRight(spaces, ptes, store) && StoreOk(store) && SpacesOk(spaces, nextObj)
    requires Faulted(spaces, ptes0, store0, ptes, store, k, true)
    requires k in ptes && Usable(ptes[k], access) && Writes(access) && offset + |data| <= PAGE_SIZE
    ensures ptes[k].frame in store.contents
    ensures Stored(spaces, ptes0, store0, ptes,
                   Written(store, ptes[k].frame, Splice(Content(store, ptes[k].frame), offset, data)), k, offset, data)
  {
    hide Seg, SpacesOk, StoreOk;
    assert PteOk(Seg(spaces, k), ptes, store, k);
    SegFacts(spaces, nextObj, k);
    WritableFrame(spaces, ptes, store, k);
    ViewIsFrame(spaces, ptes, store, k);
    var bytes := Splice(Content(store, ptes[k].frame), offset, data);
    hide AllRight, Splice;
    if Seg(spaces, k).value.shared {
      SharedWriteIsShared(spaces, ptes, store, ptes[k].frame, Seg(spaces, k).value.source.value, bytes);
    } else {
      PrivateWriteIsIsolated(spaces, ptes, store, k, bytes);
    }
  }

  /** The byte a program reads at an address. */
  function ByteAt(spaces: map<nat, Space>, ptes: map<Key, Pte>, store: Store, s: nat, address: nat): Option<Byte> {
    var page := View(spaces, ptes, store, KeyAt(s, address));
    if page.None? then None else Some(page.value[address % PAGE_SIZE])
  }

  /** How much of an access fits on the page of its address. */
  function Chunk(address: nat, length: nat): (n: nat)
    ensures n <= length && (length > 0 ==> n > 0)
  {
    if length < PAGE_SIZE - address % PAGE_SIZE then length else PAGE_SIZE - address % PAGE_SIZE
  }

  lemma ChunkFits(address: nat, length: nat)
    ensures address % PAGE_SIZE + Chunk(address, length) <= PAGE_SIZE
    ensures Chunk(address, length) == length || (address + Chunk(address, length)) % PAGE_SIZE == 0
  {
  }

  lemma SameMeaningAlways(spaces: map<nat, Space>, ptes: map<Key, Pte>, store: Store)
    ensures SameMeaning(spaces, ptes, store, spaces, ptes, store)
  {
  }

  lemma SameMeaningTwice(spaces: map<nat, Space>, ptes: map<Key, Pte>, store: Store, ptes': map<Key, Pte>,
                         store': Store,
                         ptes'': map<Key, Pte>, store'': Store)
    requires SameMeaning(spaces, ptes, store, spaces, ptes', store')
    requires SameMeaning(spaces, ptes', store', spaces, ptes'', store'')
    ensures SameMeaning(spaces, ptes, store, spaces, ptes'', store'')
  {
    hide Origins, ObjectPage;
  }

  lemma NotInvalid(status: Status, seg: Option<Segment>, address: nat, access: Access)
    requires FaultStatus(status, seg, address, access) && address < ADDRESS_LIMIT
    ensures status != InvalidArgument
  {
  }

  ghost predicate BytesAre(spaces: map<nat, Space>, ptes: map<Key, Pte>, store: Store, s: nat, address: nat,
                           bytes: seq<Byte>) {
    forall i {:trigger bytes[i]} :: 0 <= i < |bytes| ==> ByteAt(spaces, ptes, store, s, address + i) == Some(bytes[i])
  }

  lemma NoBytes(spaces: map<nat, Space>, ptes: map<Key, Pte>, store: Store, s: nat, address: nat)
    ensures BytesAre(spaces, ptes, store, s, address, [])
  {
  }

  /** The bytes of one page from an address on. */
  ghost predicate ChunkOf(spaces: map<nat, Space>, ptes: map<Key, Pte>, store: Store, s: nat, address: nat,
                          chunk: seq<Byte>) {
    && address % PAGE_SIZE + |chunk| <= PAGE_SIZE
    && View(spaces, ptes, store, KeyAt(s, address)).Some?
    && chunk == View(spaces, ptes, store, KeyAt(s, address)).value[address % PAGE_SIZE..address % PAGE_SIZE + |chunk|]
  }

  lemma ChunkRead(spaces: map<nat, Space>, ptes0: map<Key, Pte>, store0: Store, ptes: map<Key, Pte>, store: Store,
                  s: nat, address: nat, bytes: seq<Byte>, chunk: seq<Byte>)
    requires SameMeaning(spaces, ptes0, store0, spaces, ptes, store)
    requires BytesAre(spaces, ptes0, store0, s, address, bytes)
    requires ChunkOf(spaces, ptes, store, s, address + |bytes|, chunk)
    ensures BytesAre(spaces, ptes0, store0, s, address, bytes + chunk)
  {
    hide Origins, ObjectPage;
    var all, at := bytes + chunk, address + |bytes|;
    forall i | 0 <= i < |all| ensures ByteAt(spaces, ptes0, store0, s, address + i) == Some(all[i]) {
      if i >= |bytes| {
        var j := i - |bytes|;
        assert (at + j) / PAGE_SIZE == at / PAGE_SIZE && (at + j) % PAGE_SIZE == at % PAGE_SIZE + j;
        assert all[i] == chunk[j];
      } else {
        assert all[i] == bytes[i];
      }
    }
  }

  // ------------------------------------------------------------------
  // The meaning of a whole machine, without frames, entries or caches
  // ------------------------------------------------------------------

  ghost predicate Everything<K(!new), V(!new)>(m: imap<K, V>) {
    forall k :: k in m
  }

  datatype Meaning = Meaning(origins: imap<Key, Origin>, objects: imap<Ref, Page>)

  ghost function MeaningOf(spaces: map<nat, Space>, ptes: map<Key, Pte>, store: Store): (m: Meaning)
    ensures Everything(m.origins) && Everything(m.objects)
  {
    Meaning(imap k: Key {:trigger Origins(spaces, ptes, store, k)} | true :: Origins(spaces, ptes, store, k),
            imap r: Ref {:trigger ObjectPage(store, r)} | true :: ObjectPage(store, r))
  }

  ghost function Seen(m: Meaning, k: Key): Option<Page>
    requires Everything(m.origins) && Everything(m.objects)
  {
    match m.origins[k]
    case Unmapped => None
    case FromObject(r) => Some(m.objects[r])
    case Own(p) => Some(p)
  }

  /** Data laid over one page: into its object if the mapping is shared, else into a copy of the space's own. */
  ghost function Laid(m: Meaning, seg: Option<Segment>, k: Key, offset: nat, data: seq<Byte>): (r: Meaning)
    requires Everything(m.origins) && Everything(m.objects) && offset + |data| <= PAGE_SIZE
    ensures Everything(r.origins) && Everything(r.objects)
  {
    if seg.None? || Seen(m, k).None? then m
    else if seg.value.shared then
      if seg.value.source.None? then m
      else m.(objects := m.objects[seg.value.source.value := Splice(m.objects[seg.value.source.value], offset, data)])
    else m.(origins := m.origins[k := Own(Splice(Seen(m, k).value, offset, data))])
  }

  /** Where the chunk that ends before `address + done` starts. */
  function LastChunk(address: nat, done: nat): (b: nat)
    requires done > 0
    ensures b < done && (address + b) % PAGE_SIZE + (done - b) <= PAGE_SIZE
  {
    if (address + done - 1) % PAGE_SIZE < done then done - 1 - (address + done - 1) % PAGE_SIZE else 0
  }

  /** The first `done` bytes of `data` written page by page from `address` on. */
  ghost function Put(m: Meaning, spaces: map<nat, Space>, s: nat, address: nat, data: seq<Byte>,
                     done: nat): (r: Meaning)
    requires Everything(m.origins) && Everything(m.objects) && done <= |data|
    ensures Everything(r.origins) && Everything(r.objects)
  {
    if done == 0 then m
    else
      var b := LastChunk(address, done);
      Laid(Put(m, spaces, s, address, data, b), Seg(spaces, KeyAt(s, address + b)), KeyAt(s, address + b),
           (address + b) % PAGE_SIZE, data[b..done])
  }

  ghost predicate SameBytes(m: Meaning, n: Meaning)
    requires Everything(m.origins) && Everything(m.objects) && Everything(n.origins) && Everything(n.objects)
  {
    (forall k :: Seen(n, k) == Seen(m, k)) && (forall r :: n.objects[r] == m.objects[r])
  }

  lemma SameBytesAlways(m: Meaning)
    requires Everything(m.origins) && Everything(m.objects)
    ensures SameBytes(m, m)
  {
  }

  lemma FaultedBytes(spaces: map<nat, Space>, ptes: map<Key, Pte>, store: Store, ptes': map<Key, Pte>, store': Store,
                     k: Key, wrote: bool)
    requires Faulted(spaces, ptes, store, ptes', store', k, wrote)
    ensures SameBytes(MeaningOf(spaces, ptes, store), MeaningOf(spaces, ptes', store'))
  {
    hide Origins, ObjectPage, Seg;
  }

  lemma StoredIsLaid(spaces: map<nat, Space>, ptes: map<Key, Pte>, store: Store, ptes': map<Key, Pte>, store': Store,
                     k: Key, offset: nat, data: seq<Byte>)
    requires offset + |data| <= PAGE_SIZE && Stored(spaces, ptes, store, ptes', store', k, offset, data)
    ensures MeaningOf(spaces, ptes', store') == Laid(MeaningOf(spaces, ptes, store), Seg(spaces, k), k, offset, data)
  {
    hide Origins, ObjectPage, Seg, Splice;
  }

  lemma ChunkStart(address: nat, completed: nat, n: nat)
    requires n > 0 && (address + completed) % PAGE_SIZE + n <= PAGE_SIZE
    requires completed == 0 || (address + completed) % PAGE_SIZE == 0
    ensures LastChunk(address, completed + n) == completed
  {
  }

  lemma SpaceSnapshot(sp: Space, nextObj: nat)
    requires SpaceOk(sp, nextObj)
    ensures SnapshotOk(sp.vmas) && sp.mmapBase % PAGE_SIZE == 0 && sp.mmapBase < ADDRESS_LIMIT
  {
  }

  lemma AlignedFacts(length: nat)
    ensures AlignedLength(length).Some? ==>
              && AlignedLength(length).value % PAGE_SIZE == 0 && 0 < AlignedLength(length).value <= ADDRESS_LIMIT
  {
  }

  /** The range moved to an address. */
  function PlacedAt(r: Range, address: nat): Range {
    r.(start := address, end := address + r.end)
  }

  lemma RangeFacts(sp: Space, vmas: Snapshot, r: Range)
    requires Inserts(sp, vmas, r)
    ensures SnapshotOk(vmas) && r.start % PAGE_SIZE == 0 && r.end % PAGE_SIZE == 0 && r.start < r.end
    ensures r.end / PAGE_SIZE <= MAX_PAGE
  {
  }

  lemma UnmappedRange(spaces: map<nat, Space>, s: nat, start: nat, end: nat)
    requires s in spaces && start % PAGE_SIZE == 0 && end % PAGE_SIZE == 0
    requires forall a: nat :: start <= a < end ==> At(spaces[s].vmas.ranges, a) == None
    ensures forall k :: InPages(k, s, start / PAGE_SIZE, end / PAGE_SIZE) ==> Seg(spaces, k).None?
  {
    hide At;
    forall k | InPages(k, s, start / PAGE_SIZE, end / PAGE_SIZE) ensures Seg(spaces, k).None? {
      RangePages(k, s, start, end);
      assert At(spaces[s].vmas.ranges, k.page * PAGE_SIZE) == None;
    }
  }

  lemma InPagesIsInRange(s: nat, start: nat, end: nat)
    ensures forall k :: InRange(k, s, start, end) <==> InPages(k, s, start / PAGE_SIZE, end / PAGE_SIZE)
  {
  }

  datatype Placement = Anywhere | Fixed | NoReplace

  /** A note handle: the note, its rights and its size. */
  datatype NoteArg = NoteArg(obj: nat, read: bool, write: bool, share: bool, edit: bool, size: nat)

  /** minimm_mmap_args_t; an anonymous mapping has no note. */
  datatype MapArgs = MapArgs(
    hint: Option<nat>, length: nat, note: Option<NoteArg>, offset: nat, prot: Prot, max: Prot, shared: bool,
    placement: Placement, populate: bool)

  const NO_ACCESS := Prot(false, false, false, false)

  /** minimm_mapping_default_maximum_protection, used when no maximum is given */
  function MaxProt(args: MapArgs): Prot {
    if args.max != NO_ACCESS then args.max
    else
      var edit := args.note.None? || args.note.value.edit;
      Prot(true, edit || !args.shared || args.note.value.write || args.prot.write, edit || args.prot.edit, true)
  }

  /** minimm_mapping_validate_backing */
  function BackingChecked(args: MapArgs, length: nat): Status {
    match args.note
    case None => if args.offset == 0 then Ok else InvalidArgument
    case Some(note) =>
      if args.offset % PAGE_SIZE != 0 then InvalidArgument
      else if || !note.read || (args.shared && !note.share)
              || (args.shared && MaxProt(args).write && !note.write)
              || (MaxProt(args).edit && !note.edit) then Permission
      else if args.offset > note.size || length > note.size - args.offset then InvalidArgument
      else Ok
  }

  function Checked(args: MapArgs): Status {
    if !ProtValid(args.prot) || !ProtValid(MaxProt(args)) || !Within(args.prot, MaxProt(args)) then InvalidArgument
    else if AlignedLength(args.length).None? then InvalidArgument
    else BackingChecked(args, MapLength(args))
  }

  function MapLength(args: MapArgs): nat {
    if AlignedLength(args.length).None? then 0 else AlignedLength(args.length).value
  }

  function BackingFor(args: MapArgs, newObj: nat): Backing {
    match args.note
    case None => if args.shared then AnonShared(newObj) else AnonPrivate
    case Some(note) => if args.shared then NoteShared(note.obj) else NotePrivate(note.obj)
  }

  /** What a new mapping shows: zeros, a new object, or the note from the given offset on. */
  function MappedOrigin(args: MapArgs, newObj: nat, address: nat, page: nat): Origin {
    var offset := if page * PAGE_SIZE < address then 0 else args.offset + (page * PAGE_SIZE - address);
    if args.note.Some? then FromObject(Ref(args.note.value.obj, offset))
    else if args.shared then FromObject(Ref(newObj, offset))
    else Own(ZERO)
  }

  lemma CheckedFacts(args: MapArgs)
    ensures Checked(args) in {Ok, InvalidArgument, Permission}
    ensures Checked(args) == Ok ==> 0 < MapLength(args) <= ADDRESS_LIMIT && MapLength(args) % PAGE_SIZE == 0
  {
  }

  lemma MappedFacts(args: MapArgs, newObj: nat, r: Range)
    requires r.offset == args.offset && r.shared == args.shared
    ensures IsShared(BackingFor(args, newObj)) == r.shared
    ensures args.note.Some? ==>
              !BackingFor(args, newObj).AnonPrivate? && BackingFor(args, newObj).obj == args.note.value.obj
    ensures args.note.None? ==> BackingFor(args, newObj).AnonPrivate? || BackingFor(args, newObj).obj == newObj
    ensures forall page: nat ::
              Initial(Some(MappedSegment(r, BackingFor(args, newObj), page))) ==
                  MappedOrigin(args, newObj, r.start, page)
  {
  }

  ghost predicate Vacant(spaces: map<nat, Space>, ptes: map<Key, Pte>, store: Store, s: nat, start: nat, end: nat) {
    forall k :: InRange(k, s, start, end) ==> Origins(spaces, ptes, store, k) == Unmapped
  }

  lemma UnmappedOrigins(spaces: map<nat, Space>, ptes: map<Key, Pte>, store: Store, s: nat, start: nat, end: nat)
    requires s in spaces && start % PAGE_SIZE == 0 && end % PAGE_SIZE == 0
    requires forall a: nat :: start <= a < end ==> At(spaces[s].vmas.ranges, a) == None
    ensures Vacant(spaces, ptes, store, s, start, end)
  {
    hide At;
    UnmappedRange(spaces, s, start, end);
  }

  /** An object number taken: nothing refers to it yet. */
  lemma MoreObjectsStore(spaces: map<nat, Space>, ptes: map<Key, Pte>, store: Store)
    requires StoreOk(store) && AllRight(spaces, ptes, store)
    ensures StoreOk(store.(nextObj := store.nextObj + 1))
    ensures AllRight(spaces, ptes, store.(nextObj := store.nextObj + 1))
    ensures SameMeaning(spaces, ptes, store, spaces, ptes, store.(nextObj := store.nextObj + 1))
    ensures forall offset :: ObjectPage(store, Ref(store.nextObj, offset)) == ZERO
  {
    hide Seg;
    var now := store.(nextObj := store.nextObj + 1);
    forall k | k in ptes ensures PteOk(Seg(spaces, k), ptes, now, k) {
      assert PteOk(Seg(spaces, k), ptes, store, k);
    }
  }

  lemma FragmentMeans(vmas: Snapshot, r: Range)
    requires SnapshotOk(vmas) && r in vmas.ranges
    ensures forall a: nat :: Covers(r, a) ==> At(vmas.ranges, a) == Some(AttrAt(r, a))
  {
    hide At;
    SnapshotCanonical(vmas);
    var i :| 0 <= i < |vmas.ranges| && vmas.ranges[i] == r;
    forall a: nat | Covers(r, a) ensures At(vmas.ranges, a) == Some(AttrAt(r, a)) {
      AtCovered(vmas.ranges, i, a);
    }
  }

  predicate HeapRange(start: nat, end: nat) {
    MIN_ADDRESS <= start < end <= ADDRESS_LIMIT && start % PAGE_SIZE == 0 && end % PAGE_SIZE == 0
  }

  /** All addresses of a range belong to one mapping. */
  ghost predicate OneCookie(vmas: Snapshot, start: nat, end: nat, cookie: nat) {
    forall a: nat :: start <= a < end ==> At(vmas.ranges, a).Some? && At(vmas.ranges, a).value.cookie == cookie
  }

  /** The heap, one private anonymous mapping from the heap base on, ends at `start`. */
  ghost predicate HeapEndsAt(sp: Space, start: nat) {
    exists r :: r in sp.vmas.ranges && HeapTail(sp, r, start)
  }

  ghost predicate HeapTail(sp: Space, r: Range, start: nat) {
    && r.end == start && !r.shared && OneCookie(sp.vmas, sp.brkBase, start, r.cookie)
    && BindingOf(sp.bindings, r.cookie) == Some(AnonPrivate)
  }

  /** At most one range ends at an address, the one that maps the byte before. */
  lemma OneEnd(sp: Space, start: nat, tail: Option<Range>)
    requires SnapshotOk(sp.vmas) && start > 0
    requires tail.Some? ==> tail.value in sp.vmas.ranges && Covers(tail.value, start - 1)
    requires tail.None? ==> At(sp.vmas.ranges, start - 1) == None
    ensures HeapEndsAt(sp, start) <==> tail.Some? && HeapTail(sp, tail.value, start)
  {
    hide At, OneCookie, BindingOf;
    SnapshotCanonical(sp.vmas);
    forall r | r in sp.vmas.ranges && r.end == start
      ensures tail == Some(r)
    {
      var i :| 0 <= i < |sp.vmas.ranges| && sp.vmas.ranges[i] == r;
      assert RangeValid(r);
      AtCovered(sp.vmas.ranges, i, start - 1);
      if tail.Some? {
        var j :| 0 <= j < |sp.vmas.ranges| && sp.vmas.ranges[j] == tail.value;
        assert i == j;
      }
    }
  }

  lemma UndoneIsBefore(spaces: map<nat, Space>, was: map<Key, Pte>, half: map<Key, Pte>, now: map<Key, Pte>,
                       x: Transfer, n: nat)
    requires n <= x.n && HalfCloned(spaces, was, half, x.(n := n)) && forall k :: k in was ==> !AtDest(k, x)
    requires forall k :: k in now <==> k in half && !InPages(k, x.t, x.dest, x.dest + n)
    requires forall k :: k in now ==> now[k] == half[k]
    ensures now == was
  {
    hide Seg, Twin;
    forall k ensures (k in now <==> k in was) && (k in now ==> now[k] == was[k]) {
    }
  }

  lemma NoClones(spaces: map<nat, Space>, ptes: map<Key, Pte>, x: Transfer)
    ensures HalfCloned(spaces, ptes, ptes, x.(n := 0))
  {
  }

  lemma SourceStays(spaces: map<nat, Space>, was: map<Key, Pte>, now: map<Key, Pte>, x: Transfer, i: nat)
    requires HalfCloned(spaces, was, now, x.(n := i)) && Apart(x) && i < x.n
    requires forall k :: k in was ==> !AtDest(k, x)
    ensures Key(x.s, x.first + i) in now <==> Key(x.s, x.first + i) in was
    ensures Key(x.s, x.first + i) in now ==> now[Key(x.s, x.first + i)] == was[Key(x.s, x.first + i)]
    ensures Key(x.t, x.dest + i) !in now
  {
    hide Seg, Twin;
    assert FromSource(Key(x.s, x.first + i), x) && AtDest(Key(x.t, x.dest + i), x);
  }

  lemma EntryFacts(spaces: map<nat, Space>, ptes: map<Key, Pte>, store: Store, k: Key)
    requires AllRight(spaces, ptes, store) && k in ptes
    ensures Seg(spaces, k).Some? && ptes[k].shared == Seg(spaces, k).value.shared && ptes[k].frame in store.contents
  {
    hide Seg;
    assert PteOk(Seg(spaces, k), ptes, store, k);
  }

  /** The entry a copy gets: a fork keeps the dirty flag of private pages. */
  function CloneEntry(seg: Segment, q: Pte, forked: bool): Pte {
    q.(prot := seg.prot, cow := PrivateWritable(seg), accessed := false, locked := false,
       dirty := forked && q.dirty && !seg.shared)
  }

  lemma TwinEntry(seg: Segment, q: Pte, forked: bool)
    ensures CloneEntry(seg, q, forked).frame == q.frame
    ensures var p := CloneEntry(seg, q, forked); Twin(Some(seg), q, p.(prot := Effective(p.prot, p.cow)))
  {
  }

  lemma OneMoreClone(spaces: map<nat, Space>, was: map<Key, Pte>, before: map<Key, Pte>, now: map<Key, Pte>,
                     x: Transfer, i: nat)
    requires HalfCloned(spaces, was, before, x.(n := i)) && i < x.n && Apart(x)
    requires Key(x.s, x.first + i) in was && forall k :: k in was ==> !AtDest(k, x)
    requires Key(x.t, x.dest + i) in now && now == before[Key(x.t, x.dest + i) := now[Key(x.t, x.dest + i)]]
    requires Twin(Seg(spaces, Key(x.s, x.first + i)), was[Key(x.s, x.first + i)], now[Key(x.t, x.dest + i)])
    ensures HalfCloned(spaces, was, now, x.(n := i + 1))
  {
    hide Seg, Twin;
  }

  lemma NoMoreClone(spaces: map<nat, Space>, was: map<Key, Pte>, now: map<Key, Pte>, x: Transfer, i: nat)
    requires HalfCloned(spaces, was, now, x.(n := i)) && i < x.n && Apart(x)
    requires Key(x.s, x.first + i) !in was && forall k :: k in was ==> !AtDest(k, x)
    ensures HalfCloned(spaces, was, now, x.(n := i + 1))
  {
    hide Seg, Twin;
  }

  function MarkedEntry(seg: Segment, q: Pte): Pte {
    q.(prot := seg.prot, cow := PrivateWritable(seg))
  }

  lemma MarkedIsTwin(seg: Segment, q: Pte)
    ensures MarkedEntry(seg, q).frame == q.frame
    ensures var p := MarkedEntry(seg, q); Twin(Some(seg), q, p.(prot := Effective(p.prot, p.cow)))
  {
  }

  lemma NoMarks(spaces: map<nat, Space>, ptes: map<Key, Pte>, s: nat, first: nat)
    ensures SourceMarked(spaces, ptes, ptes, s, first, 0)
  {
  }

  lemma NotYetMarked(spaces: map<nat, Space>, was: map<Key, Pte>, now: map<Key, Pte>, s: nat, first: nat, i: nat)
    requires SourceMarked(spaces, was, now, s, first, i)
    ensures Key(s, first + i) in now <==> Key(s, first + i) in was
    ensures Key(s, first + i) in now ==> now[Key(s, first + i)] == was[Key(s, first + i)]
  {
    hide Seg, Twin;
  }

  lemma OneMoreMark(spaces: map<nat, Space>, was: map<Key, Pte>, before: map<Key, Pte>, now: map<Key, Pte>, s: nat,
                    first: nat, i: nat)
    requires SourceMarked(spaces, was, before, s, first, i) && Key(s, first + i) in was
    requires Key(s, first + i) in now && now == before[Key(s, first + i) := now[Key(s, first + i)]]
    requires Twin(Seg(spaces, Key(s, first + i)), was[Key(s, first + i)], now[Key(s, first + i)])
    ensures SourceMarked(spaces, was, now, s, first, i + 1)
  {
    hide Seg, Twin;
  }

  lemma NoMoreMark(spaces: map<nat, Space>, was: map<Key, Pte>, now: map<Key, Pte>, s: nat, first: nat, i: nat)
    requires SourceMarked(spaces, was, now, s, first, i) && Key(s, first + i) !in was
    ensures SourceMarked(spaces, was, now, s, first, i + 1)
  {
    hide Seg, Twin;
  }

  /** Cloning leaves the source entries alone. */
  lemma SourceKept(spaces: map<nat, Space>, was: map<Key, Pte>, half: map<Key, Pte>, x: Transfer, i: nat)
    requires HalfCloned(spaces, was, half, x) && Apart(x) && i < x.n && Key(x.s, x.first + i) in half
    ensures Key(x.s, x.first + i) in was && half[Key(x.s, x.first + i)] == was[Key(x.s, x.first + i)]
  {
    hide Seg, Twin;
    assert FromSource(Key(x.s, x.first + i), x);
  }

  lemma ClonesOnlyAdd(spaces: map<nat, Space>, was: map<Key, Pte>, half: map<Key, Pte>, x: Transfer)
    requires HalfCloned(spaces, was, half, x) && forall k :: k in was ==> !AtDest(k, x)
    ensures forall k :: k in was ==> k in half && half[k] == was[k]
  {
    hide Seg, Twin;
  }

  lemma MarkedOutside(spaces: map<nat, Space>, was: map<Key, Pte>, now: map<Key, Pte>, s: nat, first: nat, n: nat)
    requires SourceMarked(spaces, was, now, s, first, n)
    ensures SameOutside(was, now, s, first, first + n)
  {
    hide Seg, Twin;
  }

  lemma NewSpaceFacts(spaces: map<nat, Space>, ptes: map<Key, Pte>, store: Store, nextObj: nat, x: Transfer)
    requires AllRight(spaces, ptes, store) && x.s in spaces && x.t !in spaces
    ensures Apart(x) && forall k :: k in ptes ==> !AtDest(k, x)
  {
    forall k | k in ptes ensures !AtDest(k, x) {
      assert PteOk(Seg(spaces, k), ptes, store, k);
    }
  }

  function NoTranslations(n: nat): (t: Tlb)
    ensures |t| == n && forall i :: 0 <= i < n ==> t[i] == None
  {
    seq(n, _ => None)
  }

  lemma NewTlbOk(tlbs: map<nat, Tlb>, ptes: map<Key, Pte>, s: nat, n: nat)
    requires TlbsOk(tlbs, ptes) && n > 0
    ensures TlbsOk(tlbs[s := NoTranslations(n)], ptes)
  {
    var now := tlbs[s := NoTranslations(n)];
    forall o | o in now ensures TlbOk(now[o], o, ptes) {
      if o != s {
        assert TlbOk(tlbs[o], o, ptes);
      } else {
        forall i | 0 <= i < n ensures EntryOk(now[s], i, s, ptes) {
          assert now[s][i] == None;
        }
      }
    }
  }

  lemma ForkedLayout(spaces: map<nat, Space>, nextObj: nat, x: Transfer)
    requires SpacesOk(spaces, nextObj) && x.s in spaces && x.t !in spaces && x == Transfer(x.s, 0, MAX_PAGE, x.t, 0)
    ensures forall k :: Seg(spaces[x.t := spaces[x.s]], k) == Seg(spaces, Back(k, x))
  {
    hide SegmentOf, SpacesOk;
    forall k ensures Seg(spaces[x.t := spaces[x.s]], k) == Seg(spaces, Back(k, x)) {
      if Seg(spaces, Key(x.s, k.page)).Some? {
        SegFacts(spaces, nextObj, Key(x.s, k.page));
      }
    }
  }

  /** Beyond the address limit neither parent nor child has anything. */
  lemma ForkedOrigins(spaces: map<nat, Space>, nextObj: nat, ptes: map<Key, Pte>, store: Store, x: Transfer)
    requires SpacesOk(spaces, nextObj) && x == Transfer(x.s, 0, MAX_PAGE, x.t, 0) && x.t !in spaces
    ensures forall k :: Origins(spaces, ptes, store, Back(k, x)) ==
                        Origins(spaces, ptes, store, if k.space == x.t then Key(x.s, k.page) else k)
  {
    hide SpacesOk, SegmentOf;
    forall k: Key | k.space == x.t && k.page >= MAX_PAGE ensures Seg(spaces, Key(x.s, k.page)).None? {
      if Seg(spaces, Key(x.s, k.page)).Some? {
        SegFacts(spaces, nextObj, Key(x.s, k.page));
      }
    }
  }

  function Copying(s: nat, source: nat, length: nat, dest: nat): Transfer {
    Transfer(s, source / PAGE_SIZE, if AlignedLength(length).Some? then AlignedLength(length).value / PAGE_SIZE else 0,
             s, dest / PAGE_SIZE)
  }

  lemma DestFree(spaces: map<nat, Space>, ptes: map<Key, Pte>, store: Store, x: Transfer)
    requires AllRight(spaces, ptes, store) && forall k :: AtDest(k, x) ==> Seg(spaces, k).None?
    ensures forall k :: k in ptes ==> !AtDest(k, x)
    ensures forall k :: AtDest(k, x) ==> Origins(spaces, ptes, store, k) == Unmapped
  {
    hide Seg, AtDest;
    forall k | k in ptes ensures !AtDest(k, x) {
      assert PteOk(Seg(spaces, k), ptes, store, k);
    }
  }

  lemma CopyBounds(s: nat, sp: Space, q: Range, vmas: Snapshot, r: Range)
    requires MappedBy(sp, q) && Inserts(sp, vmas, r) && r.end - r.start == q.end - q.start
    ensures var x := CopyOf(s, q, r); x.s == x.t == s && x.first + x.n <= MAX_PAGE && x.dest + x.n <= MAX_PAGE
  {
  }

  lemma FragmentMapped(sp: Space, q: Range)
    requires SnapshotOk(sp.vmas) && q in sp.vmas.ranges
    ensures MappedBy(sp, q)
  {
    hide At;
    SnapshotCanonical(sp.vmas);
    FragmentMeans(sp.vmas, q);
  }

  lemma BackingFacts(sp: Space, nextObj: nat, a: nat)
    requires SpaceOk(sp, nextObj) && At(sp.vmas.ranges, a).Some?
    ensures var b := BindingOf(sp.bindings, At(sp.vmas.ranges, a).value.cookie);
            && b.Some? && IsShared(b.value) == At(sp.vmas.ranges, a).value.shared
            && (b.value.AnonPrivate? || b.value.obj < nextObj)
  {
    hide At, SnapshotOk;
    var attr := At(sp.vmas.ranges, a).value;
    assert Bound(sp.bindings, attr, sp.nextCookie);
    BindingFound(sp.bindings, attr.cookie);
    var j :| 0 <= j < |sp.bindings|
             && sp.bindings[j] == Binding(attr.cookie, BindingOf(sp.bindings, attr.cookie).value);
    assert BindingOk(sp.bindings[j], sp.vmas, sp.nextCookie, nextObj);
  }

  lemma NonePlaced(ptes: map<Key, Pte>, x: Transfer)
    ensures Placed(ptes, ptes, x, 0)
  {
  }

  lemma NotYetPlaced(was: map<Key, Pte>, now: map<Key, Pte>, x: Transfer, i: nat)
    requires Placed(was, now, x, i) && Apart(x) && i < x.n
    ensures Key(x.s, x.first + i) in now <==> Key(x.s, x.first + i) in was
    ensures Key(x.s, x.first + i) in now ==> now[Key(x.s, x.first + i)] == was[Key(x.s, x.first + i)]
  {
    assert FromSource(Key(x.s, x.first + i), x);
  }

  lemma OneMorePlaced(was: map<Key, Pte>, before: map<Key, Pte>, now: map<Key, Pte>, x: Transfer, i: nat)
    requires Placed(was, before, x, i) && i < x.n && Key(x.s, x.first + i) in was
    requires now == before[Key(x.t, x.dest + i) := was[Key(x.s, x.first + i)]]
    ensures Placed(was, now, x, i + 1)
  {
  }

  lemma NoMorePlaced(was: map<Key, Pte>, now: map<Key, Pte>, x: Transfer, i: nat)
    requires Placed(was, now, x, i) && i < x.n && Key(x.s, x.first + i) !in was
    ensures Placed(was, now, x, i + 1)
  {
  }

  /** An entry in place carries its effective protection and a live frame. */
  lemma MaskedEntry(spaces: map<nat, Space>, ptes: map<Key, Pte>, store: Store, k: Key)
    requires AllRight(spaces, ptes, store) && k in ptes
    ensures Effective(ptes[k].prot, ptes[k].cow) == ptes[k].prot && ptes[k].frame in store.contents
  {
    hide Seg;
    assert PteOk(Seg(spaces, k), ptes, store, k);
  }

  lemma ApartRanges(x: Transfer, oldPages: nat, newPages: nat)
    requires x.s == x.t && x.n <= oldPages && x.n <= newPages
    requires x.dest + newPages <= x.first || x.first + oldPages <= x.dest
    ensures Apart(x)
  {
  }

  lemma PlacedAdds(was: map<Key, Pte>, now: map<Key, Pte>, x: Transfer, n: nat, newPages: nat)
    requires Placed(was, now, x, n) && n <= x.n <= newPages
    requires forall k :: k in was ==> !InPages(k, x.t, x.dest, x.dest + newPages)
    ensures forall k :: k in was ==> k in now && now[k] == was[k]
    ensures n == x.n && Apart(x) ==> Holed(now, now, x, newPages)
  {
    if n == x.n && Apart(x) {
      assert x.(n := n) == x;
      forall k | k in now ensures !Hole(now, x, k, newPages) {
        if AtDest(k, x) && Back(k, x) in was {
          assert FromSource(Back(k, x), x);
        }
      }
    }
  }

  lemma UnplacedIsBefore(was: map<Key, Pte>, placed: map<Key, Pte>, now: map<Key, Pte>, x: Transfer, n: nat,
                         newPages: nat)
    requires Placed(was, placed, x, n) && n <= x.n <= newPages && Dropped(placed, now, x.t, x.dest, x.dest + x.n)
    requires forall k :: k in was ==> !InPages(k, x.t, x.dest, x.dest + newPages)
    ensures now == was
  {
    forall k ensures (k in now <==> k in was) && (k in now ==> now[k] == was[k]) {
    }
  }

  lemma NothingMoreSaved(saved: seq<Saved>, ptes: map<Key, Pte>, s: nat, first: nat, cursor: nat, last: nat)
    requires Saves(saved, ptes, s, first, cursor) && cursor <= last
    requires forall p :: cursor <= p < last ==> Key(s, p) !in ptes
    ensures Saves(saved, ptes, s, first, last)
  {
  }

  lemma SavedOneMore(saved: seq<Saved>, ptes: map<Key, Pte>, s: nat, first: nat, cursor: nat, page: nat)
    requires Saves(saved, ptes, s, first, cursor) && first <= cursor <= page && Key(s, page) in ptes
    requires forall p :: cursor <= p < page ==> Key(s, p) !in ptes
    ensures Saves(saved + [Saved(page, ptes[Key(s, page)])], ptes, s, first, page + 1)
  {
    var more := saved + [Saved(page, ptes[Key(s, page)])];
    forall p | first <= p < page + 1 && Key(s, p) in ptes ensures IsSaved(more, p) {
      if p < cursor {
        var i :| 0 <= i < |saved| && saved[i].page == p;
        assert more[i].page == p;
      } else {
        assert more[|saved|].page == p;
      }
    }
  }

  lemma InPagesHere(s: nat, page: nat, first: nat, last: nat)
    requires first <= page < last
    ensures InPages(Key(s, page), s, first, last)
  {
  }

  lemma RestoredValues(saved: seq<Saved>, was: map<Key, Pte>, now: map<Key, Pte>, s: nat, first: nat, last: nat)
    requires Saves(saved, was, s, first, last) && SameOutside(was, now, s, first, last)
    requires forall k :: k in was ==> k in now
    requires forall j :: 0 <= j < |saved| ==> now[Key(s, saved[j].page)] == saved[j].pte
    ensures forall k :: k in was ==> now[k] == was[k]
    ensures forall k :: k in now && !InPages(k, s, first, last) ==> k in was
  {
    forall k | k in was ensures now[k] == was[k] {
      if InPages(k, s, first, last) {
        assert IsSaved(saved, k.page);
        var i :| 0 <= i < |saved| && saved[i].page == k.page;
        assert Key(s, saved[i].page) == k;
      }
    }
  }

  lemma PlacedOutside(was: map<Key, Pte>, now: map<Key, Pte>, x: Transfer, n: nat, newPages: nat)
    requires Placed(was, now, x, n) && n <= x.n <= newPages
    ensures SameOutside(was, now, x.t, x.dest, x.dest + newPages) && forall k :: k in was ==> k in now
  {
  }

  lemma HoledOutside(was: map<Key, Pte>, placed: map<Key, Pte>, holed: map<Key, Pte>, x: Transfer, newPages: nat)
    requires SameOutside(was, placed, x.t, x.dest, x.dest + newPages) && Holed(placed, holed, x, newPages)
    ensures SameOutside(was, holed, x.t, x.dest, x.dest + newPages)
  {
  }

  lemma AllMasked(spaces: map<nat, Space>, ptes: map<Key, Pte>, store: Store)
    requires AllRight(spaces, ptes, store)
    ensures forall k :: k in ptes ==>
              Effective(ptes[k].prot, ptes[k].cow) == ptes[k].prot && ptes[k].frame in store.contents
  {
    hide AllRight, Effective;
    forall k | k in ptes
      ensures Effective(ptes[k].prot, ptes[k].cow) == ptes[k].prot && ptes[k].frame in store.contents
    {
      MaskedEntry(spaces, ptes, store, k);
    }
  }

  /** A mapping resized where it is: pages beyond its end are gone, or show more of its backing. */
  ghost predicate Resized(spaces: map<nat, Space>, ptes: map<Key, Pte>, spaces': map<nat, Space>, ptes': map<Key, Pte>,
                          store: Store, s: nat, q: Range, newSize: nat, backing: Backing) {
    forall k :: Origins(spaces', ptes', store, k) ==
                if InRange(k, s, q.start + newSize, q.end) then Unmapped
                else if InRange(k, s, q.end, q.start + newSize) then Initial(Some(MappedSegment(q, backing, k.page)))
                else Origins(spaces, ptes, store, k)
  }

  /** What a mapping takes, by growing where it is or by moving, was mapped by nothing. */
  ghost predicate RoomWasVacant(spaces: map<nat, Space>, ptes: map<Key, Pte>, store: Store, s: nat, q: Range,
                                address: nat, newSize: nat) {
    Vacant(spaces, ptes, store, s, if address == q.start then q.end else address, address + newSize)
  }

  lemma NoRoomTaken(spaces: map<nat, Space>, ptes: map<Key, Pte>, store: Store, s: nat, q: Range, newSize: nat)
    requires q.start + newSize <= q.end
    ensures RoomWasVacant(spaces, ptes, store, s, q, q.start, newSize)
  {
    EmptyRange(s, q.end, q.start + newSize);
  }

  lemma EmptyRange(s: nat, start: nat, end: nat)
    requires end <= start
    ensures forall k :: !InRange(k, s, start, end)
  {
  }

  lemma TailFacts(sp: Space, without: Snapshot, next: Snapshot, q: Range, grown: Range, tail: Range)
    requires MappedBy(sp, q) && q.end < grown.end && grown == q.(end := grown.end) && RangeValid(grown)
    requires tail == q.(start := q.end, end := grown.end, offset := q.offset + (q.end - q.start))
    requires forall a: nat :: At(without.ranges, a) == if q.start <= a < q.end then None else At(sp.vmas.ranges, a)
    requires forall a: nat :: At(next.ranges, a) ==
               if Covers(grown, a) then Some(AttrAt(grown, a)) else At(without.ranges, a)
    requires !exists a: nat :: Covers(grown, a) && At(without.ranges, a).Some?
    ensures RangeValid(tail)
    ensures forall a: nat :: At(next.ranges, a) ==
              if Covers(tail, a) then Some(AttrAt(tail, a)) else At(sp.vmas.ranges, a)
    ensures forall a: nat :: Covers(tail, a) ==> At(sp.vmas.ranges, a) == None
    ensures At(sp.vmas.ranges, q.start).Some? && At(sp.vmas.ranges, q.start).value.cookie == tail.cookie
  {
    hide At;
    assert Covers(q, q.start);
    forall a: nat | Covers(tail, a) ensures At(sp.vmas.ranges, a) == None {
      assert Covers(grown, a);
    }
  }

  lemma TailSegments(q: Range, tail: Range, backing: Backing)
    requires q.start <= q.end && tail == q.(start := q.end, end := tail.end, offset := q.offset + (q.end - q.start))
    requires q.end % PAGE_SIZE == 0
    ensures forall page: nat :: page * PAGE_SIZE >= q.end ==>
              MappedSegment(tail, backing, page) == MappedSegment(q, backing, page)
    ensures forall k: Key, s: nat :: InRange(k, s, tail.start, tail.end) ==> k.page * PAGE_SIZE >= q.end
  {
  }

  /** What a move does to every page. */
  ghost predicate MovedAway(spaces: map<nat, Space>, ptes: map<Key, Pte>, spaces': map<nat, Space>, ptes': map<Key,
                            Pte>,
                            store: Store, s: nat, q: Range, r: Range, backing: Backing, keeps: bool) {
    forall k :: Origins(spaces', ptes', store, k) ==
                if Cleared(k, MoveOf(s, q, r), Pages(q), Pages(r)) then
                  if InRange(k, s, r.start, r.end) then Initial(Some(MappedSegment(r, backing, k.page)))
                  else if keeps then Initial(Seg(spaces, k)) else Unmapped
                else Origins(spaces, ptes, store, Back(k, MoveOf(s, q, r)))
  }

  lemma MoveBounds(s: nat, sp: Space, q: Range, r: Range)
    requires MappedBy(sp, q) && PageRange(r.start, r.end) && (r.end <= q.start || q.end <= r.start)
    ensures var x := MoveOf(s, q, r);
            && x.s == s && x.t == s && x.n <= Pages(q) && x.n <= Pages(r)
            && x.dest + Pages(r) <= MAX_PAGE && x.first + Pages(q) <= MAX_PAGE
            && (x.dest + Pages(r) <= x.first || x.first + Pages(q) <= x.dest)
            && (q.end - q.start <= r.end - r.start ==> x.n == Pages(q))
  {
  }

  lemma FreeDestination(spaces: map<nat, Space>, ptes: map<Key, Pte>, store: Store, s: nat, q: Range, r: Range)
    requires AllRight(spaces, ptes, store) && s in spaces && PageRange(r.start, r.end)
    requires forall a: nat :: Covers(r, a) ==> At(spaces[s].vmas.ranges, a) == None
    ensures forall k :: k in ptes ==> !InPages(k, s, MoveOf(s, q, r).dest, MoveOf(s, q, r).dest + Pages(r))
  {
    hide AllRight, At;
    UnmappedRange(spaces, s, r.start, r.end);
    NothingThere(spaces, ptes, store, s, r.start / PAGE_SIZE, r.end / PAGE_SIZE);
  }

  lemma MovedSnapshotOk(sp: Space, vmas: Snapshot, q: Range, r: Range, keeps: bool)
    requires if keeps then Inserts(sp, vmas, r) else Moves(sp, vmas, q, r)
    ensures SnapshotOk(vmas)
  {
  }

  lemma MovingIsMovedAway(spaces: map<nat, Space>, ptes: map<Key, Pte>, spaces': map<nat, Space>, ptes': map<Key, Pte>,
                          store: Store, s: nat, q: Range, r: Range, backing: Backing, keeps: bool)
    requires AllRight(spaces, ptes, store) && s in spaces && MovedTo(ptes, ptes', MoveOf(s, q, r), Pages(q), Pages(r))
    requires MovedSegs(spaces, spaces', s, q, r, backing, keeps)
    requires MappedBy(spaces[s], q) && PageRange(r.start, r.end) && (r.end <= q.start || q.end <= r.start)
    ensures AllRight(spaces', ptes', store)
    ensures MovedAway(spaces, ptes, spaces', ptes', store, s, q, r, backing, keeps)
  {
    MoveBounds(s, spaces[s], q, r);
    hide AllRight, MovedTo, Seg, MoveOf, Pages, Cleared, InRange, MappedSegment, MappedBy;
    MovingKeeps(spaces, ptes, spaces', ptes', store, MoveOf(s, q, r), Pages(q), Pages(r));
    hide Origins;
  }

  /** The argument checks of minimm_mremap, in its order */
  function RemapChecked(oldAddress: nat, oldLength: nat, oldSize: Option<nat>, newSize: Option<nat>, hint: Option<nat>,
                        fixed: bool): Status {
    if oldLength == 0 then Unsupported
    else if oldSize.None? || newSize.None? || !MappingRange(oldAddress, oldSize.value) then InvalidArgument
    else if fixed && (hint.None? || !MappingRange(hint.value, newSize.value)
                      || (hint.value < oldAddress + oldSize.value && oldAddress < hint.value + newSize.value))
      then InvalidArgument
    else Ok
  }

  lemma NotResized(spaces: map<nat, Space>, ptes: map<Key, Pte>, store: Store, s: nat, q: Range, backing: Backing)
    requires q.start <= q.end
    ensures Resized(spaces, ptes, spaces, ptes, store, s, q, q.end - q.start, backing)
  {
    EmptyRange(s, q.end, q.end);
  }

  lemma GapFacts(sp: Space, q: Range, address: nat, newSize: nat)
    requires IsGap(sp.vmas.ranges, sp.mmapBase, ADDRESS_LIMIT, newSize, PAGE_SIZE, address) && newSize > 0
    requires newSize % PAGE_SIZE == 0
    requires MappedBy(sp, q)
    ensures PageRange(address, address + newSize) && (address + newSize <= q.start || q.end <= address)
    ensures forall a: nat :: address <= a < address + newSize ==> At(sp.vmas.ranges, a) == None
  {
    hide At;
    var n :| address == Times(n, PAGE_SIZE);
    assert address % PAGE_SIZE == 0;
    var a := if address < q.start then q.start else address;
    assert Covers(q, a) ==> At(sp.vmas.ranges, a).Some?;
    assert address <= a < address + newSize ==> At(sp.vmas.ranges, a) == None;
  }

  /** The pages of a range do not depend on its cookie. */
  lemma CookieIrrelevant(spaces: map<nat, Space>, ptes: map<Key, Pte>, spaces': map<nat, Space>, ptes': map<Key, Pte>,
                         store: Store, s: nat, q: Range, r: Range, r': Range, backing: Backing, keeps: bool)
    requires r' == r.(cookie := r'.cookie)
    ensures MovedAway(spaces, ptes, spaces', ptes', store, s, q, r, backing, keeps) ==>
              MovedAway(spaces, ptes, spaces', ptes', store, s, q, r', backing, keeps)
  {
    hide Origins, Seg;
  }

  lemma PageBelow(ptes: map<Key, Pte>, counts: map<nat, Counts>, k: Key)
    requires Counted(ptes, counts) && k in ptes
    ensures k.page < MAX_PAGE
  {
  }

  lemma GrownAlways(store: Store)
    ensures Grown(store, store)
  {
  }

  lemma GrownTwice(a: Store, b: Store, c: Store)
    requires Grown(a, b) && Grown(b, c)
    ensures Grown(a, c)
  {
    hide ObjectPage;
  }

  /** The page after the last one a lock of `length` bytes at `address` touches */
  function LockEnd(address: nat, length: nat): nat {
    address / PAGE_SIZE + (address % PAGE_SIZE + length + (PAGE_SIZE - 1)) / PAGE_SIZE
  }

  /** The pages [first, page) are locked, no entry has gone, and all others are as before. */
  ghost predicate LockedSoFar(was: map<Key, Pte>, now: map<Key, Pte>, s: nat, first: nat, page: nat) {
    && SameOutside(was, now, s, first, page)
    && (forall k :: k in was ==> k in now)
    && (forall p :: first <= p < page ==> Key(s, p) in now && now[Key(s, p)].locked)
  }

  lemma NoneLocked(ptes: map<Key, Pte>, s: nat, first: nat)
    ensures LockedSoFar(ptes, ptes, s, first, first)
  {
  }

  lemma OneMoreLocked(was: map<Key, Pte>, before: map<Key, Pte>, now: map<Key, Pte>, s: nat, first: nat, page: nat)
    requires LockedSoFar(was, before, s, first, page) && SameOutside(before, now, s, page, page + 1) && first <= page
    requires Key(s, page) in before ==> Key(s, page) in now
    ensures SameOutside(was, now, s, first, page + 1) && forall k :: k in was ==> k in now
    ensures Key(s, page) in now && now[Key(s, page)].locked ==> LockedSoFar(was, now, s, first, page + 1)
  {
    forall p | first <= p < page
      ensures Key(s, p) in now && now[Key(s, p)].locked
    {
      assert !InPages(Key(s, p), s, page, page + 1);
    }
  }

  lemma AllLocked(was: map<Key, Pte>, now: map<Key, Pte>, s: nat, first: nat, last: nat)
    requires LockedSoFar(was, now, s, first, last)
    ensures SameOutside(was, now, s, first, last)
    ensures forall p :: first <= p < last ==> Key(s, p) in now && now[Key(s, p)].locked
  {
  }

  /** The range checks of minimm_mlock and minimm_munlock, which round to whole pages */
  predicate LockRange(address: nat, length: nat) {
    && address < ADDRESS_LIMIT
    && (length > 0 ==> address % PAGE_SIZE + length + PAGE_SIZE <= UINT64_MAX + 1)
    && (length > 0 ==> LockEnd(address, length) <= MAX_PAGE)
  }

  /** The range checks of minimm_mprotect and minimm_madvise */
  predicate AlignedRange(address: nat, length: nat) {
    if length == 0 then address < ADDRESS_LIMIT && address % PAGE_SIZE == 0
    else AlignedLength(length).Some? && OperationRange(address, AlignedLength(length).value)
  }

  ghost predicate Mapped(vmas: Snapshot, start: nat, end: nat) {
    forall a: nat :: start <= a < end ==> At(vmas.ranges, a).Some?
  }

  ghost predicate Free(vmas: Snapshot, start: nat, end: nat) {
    forall a: nat :: start <= a < end ==> At(vmas.ranges, a) == None
  }

  lemma MappedPages(spaces: map<nat, Space>, s: nat, first: nat, last: nat)
    requires s in spaces
    requires forall a: nat :: first * PAGE_SIZE <= a < last * PAGE_SIZE ==> At(spaces[s].vmas.ranges, a).Some?
    ensures forall p: nat :: first <= p < last ==> Seg(spaces, Key(s, p)).Some?
  {
    hide At;
    forall p: nat | first <= p < last ensures Seg(spaces, Key(s, p)).Some? {
      assert At(spaces[s].vmas.ranges, p * PAGE_SIZE).Some?;
    }
  }

  lemma GrownMeaning(spaces: map<nat, Space>, ptes: map<Key, Pte>, was: Store, now: Store)
    requires AllRight(spaces, ptes, was) && StoreOk(was) && Grown(was, now)
    ensures SameMeaning(spaces, ptes, was, spaces, ptes, now)
  {
    GrowingKeeps(spaces, ptes, was, now);
  }

  ghost predicate SnapshotOf(pages: seq<Option<Pte>>, ptes: map<Key, Pte>, s: nat, first: nat) {
    forall i :: 0 <= i < |pages| ==>
                  pages[i] == if Key(s, first + i) in ptes then Some(ptes[Key(s, first + i)]) else None
  }

  /** Some entry of the range is locked, or names a frame that another entry locks. */
  ghost predicate Pinned(ptes: map<Key, Pte>, counts: map<nat, Counts>, s: nat, start: nat, end: nat) {
    exists k :: k in ptes && InRange(k, s, start, end)
                && (ptes[k].locked || ptes[k].frame !in counts || counts[ptes[k].frame].pins > 0)
  }

  datatype Advice = Normal | WillNeed | DontNeed | PageOut | Cold

  lemma EntriesCounted(ptes: map<Key, Pte>, counts: map<nat, Counts>)
    requires Counted(ptes, counts)
    ensures forall k :: k in ptes ==> ptes[k].frame in counts
  {
  }

  lemma PagesBelow(ptes: map<Key, Pte>, counts: map<nat, Counts>)
    requires Counted(ptes, counts)
    ensures forall k :: k in ptes ==> k.page < MAX_PAGE
  {
  }

  lemma EmptySpace(spaces: map<nat, Space>, ptes: map<Key, Pte>, store: Store, nextObj: nat, s: nat, sp: Space)
    requires AllRight(spaces, ptes, store) && SpacesOk(spaces, nextObj) && s !in spaces
    requires sp == Space(EMPTY, [], 1, 0x100000, sp.brkBase)
    ensures AllRight(spaces[s := sp], ptes, store) && SpacesOk(spaces[s := sp], nextObj)
    ensures forall k :: Origins(spaces[s := sp], ptes, store, k) == Origins(spaces, ptes, store, k)
  {
    assert SpaceOk(sp, nextObj);
    var now := spaces[s := sp];
    forall k ensures Seg(now, k) == Seg(spaces, k) {
    }
    forall k | k in ptes ensures PteOk(Seg(now, k), ptes, store, k) {
      assert PteOk(Seg(spaces, k), ptes, store, k);
    }
  }

  lemma DestroyedKeeps(spaces: map<nat, Space>, was: map<Key, Pte>, now: map<Key, Pte>, store: Store, nextObj: nat,
                       tlbs: map<nat, Tlb>, s: nat)
    requires AllRight(spaces, was, store) && SpacesOk(spaces, nextObj) && TlbsOk(tlbs, now)
    requires Dropped(was, now, s, 0, MAX_PAGE) && forall k :: k in was ==> k.page < MAX_PAGE
    ensures AllRight(spaces - {s}, now, store) && SpacesOk(spaces - {s}, nextObj) && TlbsOk(tlbs - {s}, now)
    ensures forall k :: Origins(spaces - {s}, now, store, k) == if k.space ==
              s then Unmapped else Origins(spaces, was, store, k)
  {
    hide SegmentOf, SpaceOk, TlbOk;
    forall k | k in now ensures PteOk(Seg(spaces - {s}, k), now, store, k) {
      assert PteOk(Seg(spaces, k), was, store, k);
    }
  }

  /** The pages of all other spaces come from where they came from. */
  ghost predicate OthersKeep(spaces: map<nat, Space>, ptes: map<Key, Pte>, store: Store,
                             spaces': map<nat, Space>, ptes': map<Key, Pte>, store': Store, s: nat) {
    forall k: Key :: k.space != s && k.space in spaces ==>
                       Origins(spaces', ptes', store', k) == Origins(spaces, ptes, store, k)
  }

  lemma OthersAlways(spaces: map<nat, Space>, ptes: map<Key, Pte>, store: Store, s: nat)
    ensures OthersKeep(spaces, ptes, store, spaces, ptes, store, s)
  {
  }

  lemma WritingOthers(spaces: map<nat, Space>, ptes0: map<Key, Pte>, store0: Store, ptes: map<Key, Pte>, store: Store,
                      ptes': map<Key, Pte>, store': Store, k: Key, offset: nat, data: seq<Byte>, wrote: bool, s: nat)
    requires OthersKeep(spaces, ptes0, store0, spaces, ptes, store, s) && k.space == s && offset + |data| <= PAGE_SIZE
    requires Stored(spaces, ptes, store, ptes', store', k, offset, data)
             || Faulted(spaces, ptes, store, ptes', store', k, wrote)
    ensures OthersKeep(spaces, ptes0, store0, spaces, ptes', store', s)
  {
    hide Origins, ObjectPage, Seg, View, Splice;
  }

  lemma UncachedWrite(spaces: map<nat, Space>, ptes: map<Key, Pte>, store: Store, ref: Ref, bytes: Page)
    requires AllRight(spaces, ptes, store) && StoreOk(store) && ref !in store.pages && ref.obj < store.nextObj
    ensures var now := store.(initial := store.initial[ref := bytes]);
            && AllRight(spaces, ptes, now) && StoreOk(now)
            && (forall k :: Origins(spaces, ptes, now, k) == Origins(spaces, ptes, store, k))
            && (forall r :: ObjectPage(now, r) == if r == ref then bytes else ObjectPage(store, r))
  {
    hide Seg;
    var now := store.(initial := store.initial[ref := bytes]);
    forall k | k in ptes ensures PteOk(Seg(spaces, k), ptes, now, k) {
      assert PteOk(Seg(spaces, k), ptes, store, k);
    }
  }

  datatype Op =
    | ReadAt(space: nat, address: nat, length: nat)
    | WriteAt(space: nat, address: nat, data: seq<Byte>, edit: bool)
    | Fault(space: nat, address: nat, access: Access)
    | Map(space: nat, args: MapArgs)
    | Unmap(space: nat, address: nat, length: nat)
    | SetProt(space: nat, address: nat, length: nat, prot: Prot)
    | Extend(space: nat, start: nat, end: nat)
    | ForkSpace(space: nat)
    | CopyMapping(space: nat, source: nat, length: nat, hint: Option<nat>)
    | Move(space: nat, address: nat, oldLength: nat, newLength: nat, mayMove: bool, fixed: bool, dontUnmap: bool,
           hint: Option<nat>, noteSize: nat)
    | Lock(space: nat, address: nat, length: nat)
    | Unlock(space: nat, address: nat, length: nat)
    | Advise(space: nat, address: nat, length: nat, advice: Advice)
    | Close(space: nat)

  datatype Action = By(op: Op) | NewSpace | NewNote | PutNote(ref: Ref, bytes: Page)

  predicate IsBy(action: Action, me: nat) {
    action.By? && action.op.space == me
  }

  ghost predicate Idle(actions: seq<Action>, me: nat) {
    forall i :: 0 <= i < |actions| ==> !IsBy(actions[i], me)
  }

  ghost predicate SpaceKept(spaces: map<nat, Space>, ptes: map<Key, Pte>, store: Store,
                            spaces': map<nat, Space>, ptes': map<Key, Pte>, store': Store, me: nat) {
    forall k: Key :: k.space == me ==> Origins(spaces', ptes', store', k) == Origins(spaces, ptes, store, k)
  }

  // ------------------------------------------------------------------
  // What a run means
  // ------------------------------------------------------------------

  /** Everything that decides what programs see */
  datatype World = World(spaces: map<nat, Space>, ptes: map<Key, Pte>, store: Store)

  /** What an operation answers: an address or the number of a new space, bytes read, the number of bytes written */
  datatype Reply = Skipped | Reply(status: Status, value: nat, bytes: seq<Byte>, count: nat)

  ghost function OriginAt(w: World, k: Key): Origin {
    Origins(w.spaces, w.ptes, w.store, k)
  }

  ghost function ObjectAt(w: World, r: Ref): Page {
    ObjectPage(w.store, r)
  }

  ghost function MeaningAt(w: World): (m: Meaning)
    ensures Everything(m.origins) && Everything(m.objects)
  {
    MeaningOf(w.spaces, w.ptes, w.store)
  }

  ghost predicate SameWorld(w: World, w': World) {
    w'.spaces == w.spaces && SameMeaning(w.spaces, w.ptes, w.store, w'.spaces, w'.ptes, w'.store)
  }

  ghost predicate ReadMeans(w: World, s: nat, address: nat, length: nat, r: Reply, w': World)
    requires r.Reply?
  {
    && SameWorld(w, w') && |r.bytes| <= length && (r.status == Ok ==> |r.bytes| == length)
    && BytesAre(w.spaces, w.ptes, w.store, s, address, r.bytes)
  }

  ghost predicate WriteMeans(w: World, s: nat, address: nat, data: seq<Byte>, r: Reply, w': World)
    requires r.Reply?
  {
    && w'.spaces == w.spaces && r.count <= |data| && (r.status == Ok ==> r.count == |data|)
    && SameBytes(Put(MeaningAt(w), w.spaces, s, address, data, r.count), MeaningAt(w'))
    && (r.status == Ok ==> MeaningAt(w') == Put(MeaningAt(w), w.spaces, s, address, data, r.count))
  }

  ghost predicate FaultMeans(w: World, s: nat, address: nat, access: Access, r: Reply, w': World)
    requires r.Reply?
  {
    && w'.spaces == w.spaces && FaultStatus(r.status, Seg(w.spaces, KeyAt(s, address)), address, access)
    && Faulted(w.spaces, w.ptes, w.store, w'.ptes, w'.store, KeyAt(s, address), Writes(access) && r.status == Ok)
  }

  ghost predicate MapMeans(w: World, s: nat, args: MapArgs, address: nat, w': World) {
    && (args.placement != Anywhere ==> args.hint == Some(address))
    && (args.placement != Fixed ==> Vacant(w.spaces, w.ptes, w.store, s, address, address + MapLength(args)))
    && forall k :: OriginAt(w', k) ==
                   if InRange(k, s, address, address + MapLength(args)) then
                     MappedOrigin(args, w.store.nextObj, address, k.page)
                   else OriginAt(w, k)
  }

  ghost predicate UnmapMeans(w: World, s: nat, address: nat, length: nat, w': World) {
    forall k :: OriginAt(w', k) ==
                if InRange(k, s, address, address + RoundedLength(length)) then Unmapped else OriginAt(w, k)
  }

  /** The length in whole pages */
  function RoundedLength(length: nat): nat {
    if AlignedLength(length).Some? then AlignedLength(length).value else 0
  }

  ghost predicate ProtectMeans(w: World, s: nat, address: nat, length: nat, prot: Prot, w': World) {
    && (forall k :: OriginAt(w', k) == OriginAt(w, k))
    && forall k :: Seg(w'.spaces, k) ==
                   if InRange(k, s, address, address + RoundedLength(length)) && Seg(w.spaces, k).Some? then
                     Some(Seg(w.spaces, k).value.(prot := prot))
                   else Seg(w.spaces, k)
  }

  ghost predicate ExtendMeans(w: World, s: nat, start: nat, end: nat, w': World) {
    && Vacant(w.spaces, w.ptes, w.store, s, start, end)
    && forall k :: OriginAt(w', k) == if InRange(k, s, start, end) then Own(ZERO) else OriginAt(w, k)
  }

  ghost predicate ForkMeans(w: World, parent: nat, child: nat, w': World) {
    && child !in w.spaces && w'.spaces.Keys == w.spaces.Keys + {child}
    && forall k :: OriginAt(w', k) == OriginAt(w, if k.space == child then Key(parent, k.page) else k)
  }

  ghost predicate CopyMeans(w: World, s: nat, source: nat, length: nat, address: nat, w': World) {
    && (forall k :: AtDest(k, Copying(s, source, length, address)) ==> OriginAt(w, k) == Unmapped)
    && forall k :: OriginAt(w', k) == OriginAt(w, Back(k, Copying(s, source, length, address)))
  }

  /** The mapping that is moved, and its backing, are those found in the space. */
  ghost predicate Found(w: World, s: nat, q: Range, backing: Backing, address: nat, length: nat) {
    && s in w.spaces && q.start == address && q.end == address + RoundedLength(length) && MappedBy(w.spaces[s], q)
    && BindingOf(w.spaces[s].bindings, q.cookie) == Some(backing)
  }

  ghost predicate MoveMeans(w: World, op: Op, q: Range, backing: Backing, address: nat, w': World)
    requires op.Move?
  {
    && Found(w, op.space, q, backing, op.address, op.oldLength) && w'.store == w.store
    && (op.fixed ==> op.hint == Some(address)) && (!op.mayMove ==> address == op.address)
    && (!op.fixed ==> RoomWasVacant(w.spaces, w.ptes, w.store, op.space, q, address, RoundedLength(op.newLength)))
    && if address == op.address then
         Resized(w.spaces, w.ptes, w'.spaces, w'.ptes, w.store, op.space, q, RoundedLength(op.newLength), backing)
       else
         MovedAway(w.spaces, w.ptes, w'.spaces, w'.ptes, w.store, op.space, q,
                   q.(start := address, end := address + RoundedLength(op.newLength)), backing, op.dontUnmap)
  }

  ghost predicate CloseMeans(w: World, s: nat, w': World) {
    && w'.spaces.Keys == w.spaces.Keys - {s}
    && forall k :: OriginAt(w', k) == if k.space == s then Unmapped else OriginAt(w, k)
  }

  /** Operations on mappings change no object, and change nothing at all if they fail. */
  ghost predicate LayoutMeans(w: World, op: Op, r: Reply, w': World)
    requires r.Reply?
  {
    && (forall ref :: ObjectAt(w', ref) == ObjectAt(w, ref))
    && (r.status != Ok ==> w' == w)
    && (r.status == Ok ==>
          match op
          case Map(s, args) => MapMeans(w, s, args, r.value, w')
          case Unmap(s, address, length) => UnmapMeans(w, s, address, length, w')
          case SetProt(s, address, length, prot) =>
            if length == 0 then w' == w else ProtectMeans(w, s, address, length, prot, w')
          case Extend(s, start, end) => ExtendMeans(w, s, start, end, w')
          case ForkSpace(s) => ForkMeans(w, s, r.value, w')
          case CopyMapping(s, source, length, _) => CopyMeans(w, s, source, length, r.value, w')
          case Move(_, _, _, _, _, _, _, _, _) => exists q, backing :: MoveMeans(w, op, q, backing, r.value, w')
          case Close(s) => CloseMeans(w, s, w')
          case _ => true)
  }

  ghost predicate DiscardMeans(w: World, s: nat, start: nat, end: nat, w': World) {
    && w'.spaces == w.spaces && (forall ref :: ObjectAt(w', ref) == ObjectAt(w, ref))
    && forall k :: OriginAt(w', k) ==
                   if InRange(k, s, start, end) then Initial(Seg(w.spaces, k))
                   else OriginAt(w, k)
  }

  /**
   * What advice does: pages that are not needed start anew from their backing unless one of
   * them is locked; no other advice changes a page, and pages that are pinned stay.
   */
  ghost predicate Advised(w: World, counts: map<nat, Counts>, s: nat, start: nat, end: nat, advice: Advice,
                          status: Status, w': World) {
    && w'.spaces == w.spaces
    && (if advice == DontNeed && status == Ok then DiscardMeans(w, s, start, end, w') else SameWorld(w, w'))
    && (advice == DontNeed ==> (status == Busy <==> SomeLocked(w.ptes, s, start, end)))
    && (advice == DontNeed && status == Busy ==> w' == w)
    && (advice == PageOut && Pinned(w.ptes, counts, s, start, end) ==> status == Busy && w' == w)
  }

  ghost predicate SomeLocked(ptes: map<Key, Pte>, s: nat, start: nat, end: nat) {
    exists k :: k in ptes && ptes[k].locked && InRange(k, s, start, end)
  }

  predicate IsLayout(op: Op) {
    op.Map? || op.Unmap? || op.SetProt? || op.Extend? || op.ForkSpace? || op.CopyMapping? || op.Move? || op.Close?
  }

  /** What an operation does to the origin of every page of every space and to every page of every object */
  /** A call is made in a space that exists, and maps a note that exists. */
  ghost predicate Callable(w: World, op: Op) {
    op.space in w.spaces && (op.Map? && op.args.note.Some? ==> op.args.note.value.obj < w.store.nextObj)
  }

  ghost predicate OpMeans(w: World, op: Op, r: Reply, w': World) {
    if !Callable(w, op) then r.Skipped? && w' == w
    else if r.Skipped? then false
    else if IsLayout(op) then LayoutMeans(w, op, r, w')
    else match op
      case ReadAt(s, address, length) => ReadMeans(w, s, address, length, r, w')
      case WriteAt(s, address, data, _) => WriteMeans(w, s, address, data, r, w')
      case Fault(s, address, access) => FaultMeans(w, s, address, access, r, w')
      case Advise(s, address, length, advice) =>
        if advice == DontNeed && r.status == Ok && length > 0 then
          DiscardMeans(w, s, address, address + RoundedLength(length), w')
        else SameWorld(w, w')
      case _ => SameWorld(w, w')
  }

  ghost predicate ActionMeans(w: World, action: Action, r: Reply, w': World) {
    match action
    case By(op) => OpMeans(w, op, r, w')
    case NewSpace =>
      && w'.store == w.store && (forall k :: OriginAt(w', k) == OriginAt(w, k))
      && r.Reply?
      && if r.status == Ok then r.value !in w.spaces && w'.spaces.Keys == w.spaces.Keys + {r.value} else w' == w
    case NewNote =>
      && SameWorld(w, w') && r.Reply? && r.value == w.store.nextObj && w'.store.nextObj == r.value + 1
      && forall offset :: ObjectAt(w', Ref(r.value, offset)) == ZERO
    case PutNote(ref, bytes) =>
      if ref.obj >= w.store.nextObj then r.Skipped? && w' == w
      else
        && r.Reply? && w'.spaces == w.spaces && (forall k :: OriginAt(w', k) == OriginAt(w, k))
        && forall o :: ObjectAt(w', o) == if o == ref then bytes else ObjectAt(w, o)
  }

  /** The worlds before, between and after the actions of a run, with the answers given */
  ghost predicate RunMeans(trace: seq<World>, actions: seq<Action>, rs: seq<Reply>) {
    && |trace| == |actions| + 1 && |rs| == |actions|
    && forall i {:trigger rs[i]} :: 0 <= i < |actions| ==> ActionMeans(trace[i], actions[i], rs[i], trace[i + 1])
  }

  /** An operation on the mappings of one space leaves the others alone. */
  lemma LayoutOthers(w: World, op: Op, r: Reply, w': World)
    requires IsLayout(op) && OpMeans(w, op, r, w')
    ensures OthersKeep(w.spaces, w.ptes, w.store, w'.spaces, w'.ptes, w'.store, op.space)
  {
    hide Origins, ObjectPage, Seg, MappedBy, MappedOrigin, Initial, BindingOf;
    if op.Move? && r.Reply? && r.status == Ok {
      MoveOthers(w, op, r.value, w');
    } else {
      forall k: Key | k.space != op.space && k.space in w.spaces
        ensures Origins(w'.spaces, w'.ptes, w'.store, k) == Origins(w.spaces, w.ptes, w.store, k)
      {
        assert OriginAt(w', k) == OriginAt(w, k);
      }
    }
  }

  lemma MoveOthers(w: World, op: Op, address: nat, w': World)
    requires op.Move? && exists q, backing :: MoveMeans(w, op, q, backing, address, w')
    ensures OthersKeep(w.spaces, w.ptes, w.store, w'.spaces, w'.ptes, w'.store, op.space)
  {
    hide Origins, Seg, MappedBy, Initial, BindingOf, Found;
    var q, backing :| MoveMeans(w, op, q, backing, address, w');
  }

  lemma AdviceOthers(w: World, op: Op, r: Reply, w': World)
    requires (op.Lock? || op.Unlock? || op.Advise?) && OpMeans(w, op, r, w')
    ensures OthersKeep(w.spaces, w.ptes, w.store, w'.spaces, w'.ptes, w'.store, op.space)
  {
    hide Origins, ObjectPage, Seg, Initial;
    forall k: Key | k.space != op.space && k.space in w.spaces
      ensures Origins(w'.spaces, w'.ptes, w'.store, k) == Origins(w.spaces, w.ptes, w.store, k)
    {
      assert OriginAt(w', k) == OriginAt(w, k);
    }
  }

  lemma NothingMeant(w: World, op: Op)
    requires !Callable(w, op)
    ensures OpMeans(w, op, Skipped, w) && OthersKeep(w.spaces, w.ptes, w.store, w.spaces, w.ptes, w.store, op.space)
  {
  }

  lemma RunExtends(trace: seq<World>, actions: seq<Action>, rs: seq<Reply>, w: World, action: Action, r: Reply)
    requires RunMeans(trace, actions, rs) && ActionMeans(trace[|actions|], action, r, w)
    ensures RunMeans(trace + [w], actions + [action], rs + [r])
  {
    hide ActionMeans;
    var t, a, q := trace + [w], actions + [action], rs + [r];
    forall i | 0 <= i < |a|
      ensures ActionMeans(t[i], a[i], q[i], t[i + 1])
    {
      if i < |actions| {
        assert rs[i] == q[i] && t[i] == trace[i] && t[i + 1] == trace[i + 1] && a[i] == actions[i];
      }
    }
  }

  // ------------------------------------------------------------------
  // Only writes change objects
  // ------------------------------------------------------------------

  /** The byte at an address of a space is a byte of the object page `ref`, shared. */
  ghost predicate SharedAt(spaces: map<nat, Space>, s: nat, a: nat, ref: Ref) {
    var seg := Seg(spaces, KeyAt(s, a));
    seg.Some? && seg.value.shared && seg.value.source == Some(ref)
  }

  /** A write through a shared mapping of the page, or to the note itself */
  ghost predicate WritesObject(w: World, action: Action, ref: Ref) {
    || (action.PutNote? && action.ref == ref)
    || (action.By? && action.op.WriteAt?
        && exists a :: action.op.address <= a < action.op.address + |action.op.data|
                       && SharedAt(w.spaces, action.op.space, a, ref))
  }

  lemma {:induction false} PutTouches(m: Meaning, spaces: map<nat, Space>, s: nat, address: nat, data: seq<Byte>,
                                      done: nat, ref: Ref)
    requires Everything(m.origins) && Everything(m.objects) && done <= |data|
    requires Put(m, spaces, s, address, data, done).objects[ref] != m.objects[ref]
    ensures exists a :: address <= a < address + done && SharedAt(spaces, s, a, ref)
    decreases done
  {
    hide Seg, KeyAt;
    if done > 0 {
      var b := LastChunk(address, done);
      if Put(m, spaces, s, address, data, b).objects[ref] != m.objects[ref] {
        PutTouches(m, spaces, s, address, data, b, ref);
      } else {
        assert SharedAt(spaces, s, address + b, ref);
      }
    }
  }

  lemma ObjectChange(w: World, action: Action, r: Reply, w': World, ref: Ref)
    requires ActionMeans(w, action, r, w') && ObjectAt(w', ref) != ObjectAt(w, ref)
    ensures WritesObject(w, action, ref)
  {
    hide Seg, Origins, KeyAt, Put, InRange, BytesAre;
    if action.By? && action.op.WriteAt? && r.Reply? {
      var op := action.op;
      assert MeaningAt(w').objects[ref] == ObjectAt(w', ref) && MeaningAt(w).objects[ref] == ObjectAt(w, ref);
      PutTouches(MeaningAt(w), w.spaces, op.space, op.address, op.data, r.count, ref);
    }
  }

  /** Over every run, an object page changes only where a note is written or a shared mapping of that page is. */
  lemma {:induction false} ObjectsChangeByWrites(trace: seq<World>, actions: seq<Action>, rs: seq<Reply>, ref: Ref)
    requires RunMeans(trace, actions, rs)
    ensures || ObjectAt(trace[|actions|], ref) == ObjectAt(trace[0], ref)
            || exists i :: 0 <= i < |actions| && WritesObject(trace[i], actions[i], ref)
    decreases |actions|
  {
    hide ActionMeans, WritesObject, ObjectAt;
    if actions != [] {
      var n := |actions| - 1;
      assert rs[n] == rs[n];
      if ObjectAt(trace[n + 1], ref) != ObjectAt(trace[n], ref) {
        ObjectChange(trace[n], actions[n], rs[n], trace[n + 1], ref);
      } else {
        ShorterRun(trace, actions, rs);
        ObjectsChangeByWrites(trace[..n + 1], actions[..n], rs[..n], ref);
        if i :| 0 <= i < n && WritesObject(trace[..n + 1][i], actions[..n][i], ref) {
          assert WritesObject(trace[i], actions[i], ref);
        }
      }
    }
  }

  lemma ShorterRun(trace: seq<World>, actions: seq<Action>, rs: seq<Reply>)
    requires RunMeans(trace, actions, rs) && actions != []
    ensures RunMeans(trace[..|actions|], actions[..|actions| - 1], rs[..|actions| - 1])
  {
    hide ActionMeans;
    var n := |actions| - 1;
    forall i | 0 <= i < n
      ensures ActionMeans(trace[..n + 1][i], actions[..n][i], rs[..n][i], trace[..n + 1][i + 1])
    {
      assert rs[i] == rs[..n][i];
    }
  }

  class Machine {
    const tlbEntries: nat
    var spaces: map<nat, Space>
    var ptes: map<Key, Pte>
    var counts: map<nat, Counts>
    var store: Store
    var tlbs: map<nat, Tlb>
    var nextSpace: nat

    /** What programs see of the machine */
    function Now(): World
      reads this
    {
      World(spaces, ptes, store)
    }

    /** Counts match entries, and entries name live frames. */
    ghost predicate Tabled()
      reads this
    {
      Counted(ptes, counts) && counts.Keys == store.contents.Keys && StoreOk(store)
    }

    /** Everything but the translation caches. */
    ghost predicate Core()
      reads this
    {
      && Tabled() && AllRight(spaces, ptes, store)
      && SpacesOk(spaces, store.nextObj) && (forall s :: s in spaces ==> s < nextSpace)
      && tlbs.Keys == spaces.Keys && tlbEntries > 0
    }

    ghost predicate Valid()
      reads this
    {
      Core() && TlbsOk(tlbs, ptes)
    }

    // ----------------------------------------------------------------
    // Page-table entries
    // ----------------------------------------------------------------

    /** minimm_page_table_map */
    method MapPage(k: Key, p: Pte) returns (status: Status)
      requires Counted(ptes, counts) && p.frame in counts
      modifies `ptes, `counts
      ensures Counted(ptes, counts) && counts.Keys == old(counts.Keys)
      ensures status in {Ok, InvalidArgument, AddressInUse, OutOfMemory}
      ensures status == InvalidArgument <==> k.page >= MAX_PAGE
      ensures status == AddressInUse <==> k.page < MAX_PAGE && k in old(ptes)
      ensures ptes == if status == Ok then old(ptes)[k := p.(prot := Effective(p.prot, p.cow))] else old(ptes)
      ensures status != Ok ==> counts == old(counts)
    {
      if k.page >= MAX_PAGE {
        return InvalidArgument;
      }
      if k in ptes {
        return AddressInUse;
      }
      var available: bool := *;
      if !available {
        return OutOfMemory;
      }
      var entry := p.(prot := Effective(p.prot, p.cow));
      MappingCounts(ptes, counts, k, entry);
      hide Counted;
      counts := Counting(counts, entry);
      ptes := ptes[k := entry];
      return Ok;
    }

    /** minimm_page_table_unmap */
    method UnmapPage(k: Key) returns (status: Status)
      requires Counted(ptes, counts)
      modifies `ptes, `counts
      ensures Counted(ptes, counts) && counts.Keys == old(counts.Keys)
      ensures status == if k.page >= MAX_PAGE then InvalidArgument else if k in old(ptes) then Ok else NotFound
      ensures ptes == if status == Ok then old(ptes) - {k} else old(ptes)
    {
      hide Counted;
      if k.page >= MAX_PAGE {
        return InvalidArgument;
      }
      if k !in ptes {
        return NotFound;
      }
      UnmappingCounts(ptes, counts, k);
      counts := Uncounting(counts, ptes[k]);
      ptes := ptes - {k};
      return Ok;
    }

    /** minimm_page_table_commit_attributes: a changed lock flag moves one pin. */
    method CommitAttributes(k: Key, p: Pte) returns (status: Status)
      requires Counted(ptes, counts) && (k in ptes ==> p.frame == ptes[k].frame)
      modifies `ptes, `counts
      ensures Counted(ptes, counts) && counts.Keys == old(counts.Keys)
      ensures status == if k.page >= MAX_PAGE then InvalidArgument else if k in old(ptes) then Ok else NotFound
      ensures ptes == if status == Ok then old(ptes)[k := p.(prot := Effective(p.prot, p.cow))] else old(ptes)
    {
      hide Counted, Moved, Repinned, Effective;
      if k.page >= MAX_PAGE {
        return InvalidArgument;
      }
      if k !in ptes {
        return NotFound;
      }
      var was, entry := ptes[k], p.(prot := Effective(p.prot, p.cow));
      if was == entry {
        assert ptes == ptes[k := entry];
        return Ok;
      }
      RepinningCounts(ptes, counts, k, entry);
      counts := Repinned(counts, was, entry);
      ptes := ptes[k := entry];
      return Ok;
    }

    /** minimm_page_table_replace_frame: pins and map counts follow the entry to its new frame. */
    method ReplaceFrame(k: Key, p: Pte) returns (status: Status)
      requires Counted(ptes, counts) && p.frame in counts
      modifies `ptes, `counts
      ensures Counted(ptes, counts) && counts.Keys == old(counts.Keys)
      ensures status == if k.page >= MAX_PAGE then InvalidArgument else if k in old(ptes) then Ok else NotFound
      ensures ptes == if status == Ok then old(ptes)[k := p.(prot := Effective(p.prot, p.cow))] else old(ptes)
    {
      hide Counted, Moved, Repinned, Effective;
      if k.page >= MAX_PAGE {
        return InvalidArgument;
      }
      if k !in ptes {
        return NotFound;
      }
      var was, entry := ptes[k], p.(prot := Effective(p.prot, p.cow));
      MovingCounts(ptes, counts, k, entry);
      counts := Moved(counts, was, entry);
      ptes := ptes[k := entry];
      return Ok;
    }

    /** minimm_page_table_find_next, on the meaning of the table */
    method FindNextPage(s: nat, first: nat, last: nat) returns (page: Option<nat>)
      ensures page.None? ==> forall p :: first <= p < last ==> Key(s, p) !in ptes
      ensures page.Some? ==> first <= page.value < last && Key(s, page.value) in ptes
      ensures page.Some? ==> forall p :: first <= p < page.value ==> Key(s, p) !in ptes
    {
      var p := first;
      while p < last
        invariant first <= p && (first <= last ==> p <= last)
        invariant forall q :: first <= q < p ==> Key(s, q) !in ptes
      {
        if Key(s, p) in ptes {
          return Some(p);
        }
        p := p + 1;
      }
      return None;
    }

    // ----------------------------------------------------------------
    // Frames and backings
    // ----------------------------------------------------------------

    /** minimm_frame_create_zero and minimm_frame_copy */
    method NewFrame(bytes: Page) returns (status: Status, frame: nat)
      requires Tabled()
      modifies `store, `counts
      ensures Tabled() && FrameStatus(status) && Grown(old(store), store) && store.nextObj == old(store.nextObj)
      ensures status != Ok ==> store == old(store) && counts == old(counts)
      ensures status == Ok ==> && frame !in old(store.contents) && frame in store.contents
                               && Content(store, frame) == bytes && NoObjectFrame(store, frame)
    {
      status, frame := *, 0;
      if status != Ok {
        if !FrameStatus(status) {
          status := OutOfMemory;
        }
        return;
      }
      frame := store.nextFrame;
      FramesGrow(store, bytes);
      NewFrameCounts(ptes, counts, frame);
      hide Counted, StoreOk, Grown, NoObjectFrame;
      counts := counts[frame := Counts(0, 0)];
      store := WithFrame(store, frame, bytes);
    }

    /** minimm_mapping_backing_get_frame */
    method GetFrame(source: Option<Ref>) returns (status: Status, frame: nat)
      requires Tabled() && (source.Some? ==> source.value.obj < store.nextObj)
      modifies `store, `counts
      ensures Tabled() && FrameStatus(status) && Grown(old(store), store) && store.nextObj == old(store.nextObj)
      ensures status == Ok ==> frame in store.contents
      ensures status == Ok && source.Some? ==> IsObjectFrame(store, source, frame)
      ensures status == Ok && source.None? ==> && frame !in old(store.contents)
                                               && Content(store, frame) == ZERO && NoObjectFrame(store, frame)
    {
      if source.None? {
        status, frame := NewFrame(ZERO);
        return;
      }
      var r := source.value;
      if r in store.pages {
        return Ok, store.pages[r];
      }
      status, frame := *, 0;
      if status != Ok {
        if !FrameStatus(status) {
          status := OutOfMemory;
        }
        return;
      }
      frame := store.nextFrame;
      PagesGrow(store, r);
      NewFrameCounts(ptes, counts, frame);
      hide Counted, StoreOk, Grown, ObjectPage;
      counts := counts[frame := Counts(0, 0)];
      store := WithPage(store, r, frame);
    }

    /** minimm_frame_ensure_resident: invisible here, but it can fail. */
    method EnsureResident(frame: nat) returns (status: Status)
      ensures FrameStatus(status)
    {
      status := *;
      if !FrameStatus(status) {
        status := IoError;
      }
    }

    // ----------------------------------------------------------------
    // Faults
    // ----------------------------------------------------------------

    /** minimm_vma_snapshot_lookup, then minimm_space_binding_find */
    method Locate(s: nat, page: nat) returns (seg: Option<Segment>)
      requires s in spaces && SpaceOk(spaces[s], store.nextObj)
      ensures seg == Seg(spaces, Key(s, page))
    {
      hide At;
      var range := Lookup(spaces[s].vmas, page * PAGE_SIZE);
      if range.None? {
        return None;
      }
      var a := AttrAt(range.value, page * PAGE_SIZE);
      var backing := FindBinding(spaces[s].bindings, a.cookie);
      seg := Some(Segment(a.prot, a.max, a.shared, SourceOf(backing, a.offset)));
    }

    /** minimm_populate_page_locked: a page gets its entry, and nothing changes. */
    method Populate(s: nat, page: nat) returns (status: Status)
      requires Valid() && s in spaces
      modifies `ptes, `counts, `store
      ensures Valid() && store.nextObj == old(store.nextObj) && Grown(old(store), store)
      ensures SameMeaning(spaces, old(ptes), old(store), spaces, ptes, store)
      ensures status == InvalidArgument <==> page >= MAX_PAGE
      ensures status == NotFound <==> page < MAX_PAGE && Seg(spaces, Key(s, page)).None?
      ensures status == Ok ==> Key(s, page) in ptes && ptes == old(ptes)[Key(s, page) := ptes[Key(s, page)]]
      ensures status == Ok && Key(s, page) !in old(ptes) ==> !ptes[Key(s, page)].locked
      ensures status != Ok || Key(s, page) in old(ptes) ==> ptes == old(ptes)
    {
      hide Counted, StoreOk, AllRight, Seg, Origins, ObjectPage, SpaceOk, TlbsOk;
      if page >= MAX_PAGE {
        return InvalidArgument;
      }
      var k := Key(s, page);
      var seg := Locate(s, page);
      if seg.None? {
        return NotFound;
      }
      if k in ptes {
        assert ptes == ptes[k := ptes[k]];
        status := EnsureResident(ptes[k].frame);
        return;
      }
      SegFacts(spaces, store.nextObj, k);
      var frame;
      status, frame := GetFrame(seg.value.source);
      GrowingKeeps(spaces, ptes, old(store), store);
      if status == Ok {
        status := EnsureResident(frame);
      }
      if status != Ok {
        return;
      }
      if seg.value.source.None? {
        FreshIsUnused(ptes, old(counts), frame);
      }
      var cow := seg.value.source.Some? && PrivateWritable(seg.value);
      var p := Pte(frame, seg.value.prot, cow, seg.value.shared, false, false, false);
      PopulatingKeeps(spaces, ptes, store, k, p.(prot := Effective(p.prot, cow)));
      status := MapPage(k, p);
      MoreEntriesOk(tlbs, old(ptes), ptes);
    }

    /** The fault finds no entry: the page comes from its backing, copied at once if a private note page is written. */
    method FirstTouch(k: Key, seg: Segment, access: Access) returns (status: Status)
      requires Core() && Seg(spaces, k) == Some(seg) && k !in ptes && Allowed(seg.prot, access)
      modifies `ptes, `counts, `store
      ensures Core() && store.nextObj == old(store.nextObj) && (FrameStatus(status) || status == OutOfMemory)
      ensures Faulted(spaces, old(ptes), old(store), ptes, store, k, Writes(access) && status == Ok)
      ensures if status == Ok then OnlyAt(old(ptes), ptes, k) && Usable(ptes[k], access) else ptes == old(ptes)
    {
      hide Counted, StoreOk, AllRight, Seg, Origins, ObjectPage, SpaceOk, IsObjectFrame, Content;
      SegFacts(spaces, store.nextObj, k);
      var frame;
      status, frame := GetFrame(seg.source);
      GrowingKeeps(spaces, ptes, old(store), store);
      if status != Ok {
        return;
      }
      var copy := seg.source.Some? && !seg.shared && Writes(access);
      if copy {
        status := CopyFirst(k, seg, frame, access);
        return;
      }
      status := EnsureResident(frame);
      if status != Ok {
        return;
      }
      if seg.source.None? {
        FreshIsUnused(ptes, old(counts), frame);
      }
      var cow := seg.source.Some? && PrivateWritable(seg);
      var p := Pte(frame, seg.prot, cow, seg.shared, true, Writes(access), false);
      PopulatingKeeps(spaces, ptes, store, k, p.(prot := Effective(p.prot, cow)));
      if Writes(access) {
        UntouchedByWrite(spaces, ptes, old(store), k);
      }
      status := MapPage(k, p);
    }

    /** minimm_frame_copy of a note page for its first private write */
    method CopyFirst(k: Key, seg: Segment, frame: nat, access: Access) returns (status: Status)
      requires Core() && Seg(spaces, k) == Some(seg) && k !in ptes && Allowed(seg.prot, access) && Writes(access)
      requires !seg.shared && IsObjectFrame(store, seg.source, frame) && k.page < MAX_PAGE
      modifies `ptes, `counts, `store
      ensures Core() && store.nextObj == old(store.nextObj) && FrameStatus(status)
      ensures Faulted(spaces, old(ptes), old(store), ptes, store, k, status == Ok)
      ensures if status == Ok then OnlyAt(old(ptes), ptes, k) && Usable(ptes[k], access) else ptes == old(ptes)
    {
      hide Counted, StoreOk, AllRight, Seg, Origins, ObjectPage, SpaceOk, IsObjectFrame, Content, Privatised;
      PrivatisedByCopy(spaces, ptes, store, k, frame);
      var copied;
      status, copied := NewFrame(Content(store, frame));
      GrowingKeeps(spaces, ptes, old(store), store);
      if status != Ok {
        return;
      }
      FreshIsUnused(ptes, old(counts), copied);
      var p := Pte(copied, seg.prot, false, false, true, true, false);
      CopyingKeeps(spaces, ptes, store, k, p);
      status := MapPage(k, p);
    }

    /** A write to a copy-on-write page gets a frame of its own. */
    method BreakCow(k: Key, seg: Segment, access: Access) returns (status: Status)
      requires Core() && Seg(spaces, k) == Some(seg) && k in ptes && ptes[k].cow
      requires Allowed(seg.prot, access) && Writes(access) && k.page < MAX_PAGE
      modifies `ptes, `counts, `store
      ensures Core() && store.nextObj == old(store.nextObj) && FrameStatus(status)
      ensures Faulted(spaces, old(ptes), old(store), ptes, store, k, status == Ok)
      ensures if status == Ok then OnlyAt(old(ptes), ptes, k) && Usable(ptes[k], access) else ptes == old(ptes)
    {
      hide Counted, StoreOk, AllRight, Seg, Origins, ObjectPage, SpaceOk, IsObjectFrame, Content, Privatised;
      CowFacts(spaces, ptes, store, k);
      var copied;
      status, copied := NewFrame(Content(store, ptes[k].frame));
      GrowingKeeps(spaces, ptes, old(store), store);
      if status != Ok {
        return;
      }
      FreshIsUnused(ptes, old(counts), copied);
      var p := ptes[k].(frame := copied, prot := seg.prot, cow := false, accessed := true, dirty := true);
      CopyingKeeps(spaces, ptes, store, k, p);
      status := ReplaceFrame(k, p);
    }

    /** The entry suffices: only its flags change. */
    method Retouch(k: Key, seg: Segment, access: Access) returns (status: Status)
      requires Core() && Seg(spaces, k) == Some(seg) && k in ptes && k.page < MAX_PAGE
      requires Allowed(seg.prot, access) && !(ptes[k].cow && Writes(access))
      modifies `ptes, `counts
      ensures Core() && FrameStatus(status)
      ensures Faulted(spaces, old(ptes), store, ptes, store, k, Writes(access) && status == Ok)
      ensures ptes == if status == Ok then old(ptes)[k := Recorded(old(ptes)[k], access)] else old(ptes)
      ensures if status == Ok then OnlyAt(old(ptes), ptes, k) && Usable(ptes[k], access) else ptes == old(ptes)
    {
      hide Counted, StoreOk, AllRight, Seg, Origins, ObjectPage, SpaceOk, IsObjectFrame, Content, Privatised;
      SegFacts(spaces, store.nextObj, k);
      RetouchFacts(spaces, ptes, store, k, access);
      status := EnsureResident(ptes[k].frame);
      if status != Ok {
        return;
      }
      var p := Recorded(ptes[k], access);
      MarkingKeeps(spaces, ptes, store, k, p);
      status := CommitAttributes(k, p);
    }

    /** minimm_tlb_invalidate_range; the caller's pages are [first, last). */
    method InvalidateRange(s: nat, first: nat, last: nat)
      requires s in tlbs
      modifies `tlbs
      ensures tlbs == old(tlbs)[s := Invalidated(old(tlbs)[s], first, last)]
    {
      var t := tlbs[s];
      var i := 0;
      while i < |t|
        invariant i <= |t| == |tlbs[s]|
        invariant forall j :: i <= j < |t| ==> t[j] == tlbs[s][j]
        invariant forall j :: 0 <= j < i ==> t[j] == Invalidated(tlbs[s], first, last)[j]
      {
        if t[i].Some? && first <= t[i].value.page < last {
          t := t[i := None];
        }
        i := i + 1;
      }
      assert t == Invalidated(tlbs[s], first, last);
      tlbs := tlbs[s := t];
    }

    /** What the fault handler does once the access is known to be allowed. */
    method Resolve(k: Key, seg: Segment, access: Access) returns (status: Status)
      requires Core() && Seg(spaces, k) == Some(seg) && Allowed(seg.prot, access) && k.page < MAX_PAGE
      modifies `ptes, `counts, `store
      ensures Core() && store.nextObj == old(store.nextObj) && FrameStatus(status)
      ensures Faulted(spaces, old(ptes), old(store), ptes, store, k, Writes(access) && status == Ok)
      ensures Walked(old(ptes), old(store), ptes, store, k, access, status == Ok)
      ensures if status == Ok then OnlyAt(old(ptes), ptes, k) && Usable(ptes[k], access) else ptes == old(ptes)
    {
      hide Counted, StoreOk, AllRight, Seg, SpacesOk, Faulted, Usable, Allowed;
      if k !in ptes {
        status := FirstTouch(k, seg, access);
      } else if ptes[k].cow && Writes(access) {
        status := BreakCow(k, seg, access);
      } else {
        status := Retouch(k, seg, access);
      }
    }

    /** The entry of one page changed: drop its translation and cache the new one. */
    method Retranslate(k: Key, ghost was: map<Key, Pte>)
      requires k.space in tlbs && TlbsOk(tlbs, was) && OnlyAt(was, ptes, k)
      modifies `tlbs
      ensures TlbsOk(tlbs, ptes) && tlbs.Keys == old(tlbs.Keys)
    {
      hide TlbsOk;
      InvalidatedOk(tlbs, was, ptes, k.space, k.page, k.page + 1);
      InvalidateRange(k.space, k.page, k.page + 1);
      InsertedOk(tlbs, ptes, ptes, k);
      tlbs := Inserted(tlbs, k, ptes[k]);
    }

    /** minimm_handle_page_fault_locked */
    method HandleFault(s: nat, address: nat, access: Access) returns (status: Status)
      requires Valid() && s in spaces
      modifies `ptes, `counts, `store, `tlbs
      ensures Valid() && store.nextObj == old(store.nextObj)
      ensures FaultStatus(status, Seg(spaces, KeyAt(s, address)), address, access)
      ensures Faulted(spaces, old(ptes), old(store), ptes, store, KeyAt(s, address), Writes(access) && status == Ok)
      ensures Walked(old(ptes), old(store), ptes, store, KeyAt(s, address), access, status == Ok)
      ensures if status == Ok then OnlyAt(old(ptes), ptes, KeyAt(s, address))
                                   && Usable(ptes[KeyAt(s, address)], access)
              else ptes == old(ptes)
    {
      hide KeyAt, Counted, StoreOk, AllRight, Seg, Origins, ObjectPage, SpaceOk, TlbsOk, SpacesOk, Privatised, Usable,
           Walked;
      NotWalked(ptes, store, KeyAt(s, address), access);
      if address >= ADDRESS_LIMIT {
        return InvalidArgument;
      }
      var k := KeyAt(s, address);
      KeyBelow(s, address);
      OneSpace(spaces, store.nextObj, s);
      var seg := Locate(s, k.page);
      if seg.None? {
        return NotFound;
      }
      if !Allowed(seg.value.prot, access) {
        return Permission;
      }
      status := Resolve(k, seg.value, access);
      if status == Ok {
        hide Faulted;
        Retranslate(k, old(ptes));
      }
    }

    // ----------------------------------------------------------------
    // Memory accesses
    // ----------------------------------------------------------------

    /** An entry that suffices: record the access and cache the translation. */
    method Touch(k: Key, access: Access)
      requires Valid() && k in ptes && k.space in spaces && k.page < MAX_PAGE
      requires Seg(spaces, k).Some? && Allowed(Seg(spaces, k).value.prot, access)
      requires Allowed(ptes[k].prot, access) && !(Writes(access) && ptes[k].cow)
      modifies `ptes, `counts, `tlbs
      ensures Valid() && OnlyAt(old(ptes), ptes, k) && Usable(ptes[k], access)
      ensures ptes == old(ptes)[k := Recorded(old(ptes)[k], access)]
      ensures Faulted(spaces, old(ptes), store, ptes, store, k, Writes(access))
    {
      hide Counted, StoreOk, AllRight, Seg, Origins, ObjectPage, TlbsOk, SpacesOk, Privatised;
      SegFacts(spaces, store.nextObj, k);
      RetouchFacts(spaces, ptes, store, k, access);
      var p := Recorded(ptes[k], access);
      MarkingKeeps(spaces, ptes, store, k, p);
      var _ := CommitAttributes(k, p);
      InsertedOk(tlbs, old(ptes), ptes, k);
      tlbs := Inserted(tlbs, k, ptes[k]);
    }

    /**
     * minimm_access_refill_locked.  Eviction may win the race between the residency
     * check and the pin; `races` bounds how often it does in one call.
     */
    method Refill(k: Key, address: nat, access: Access) returns (status: Status, ghost wrote: bool)
      requires Valid() && k.space in spaces && k == KeyAt(k.space, address) && address < ADDRESS_LIMIT
      requires Seg(spaces, k).Some? && Allowed(Seg(spaces, k).value.prot, access)
      modifies `ptes, `counts, `store, `tlbs
      ensures Valid() && store.nextObj == old(store.nextObj) && FrameStatus(status)
      ensures Faulted(spaces, old(ptes), old(store), ptes, store, k, wrote) && (wrote ==> Writes(access))
      ensures status == Ok ==> k in ptes && Usable(ptes[k], access) && (Writes(access) ==> wrote)
      ensures Walked(old(ptes), old(store), ptes, store, k, access, status == Ok)
      ensures SameOutside(old(ptes), ptes, k.space, k.page, k.page + 1)
    {
      hide KeyAt, Counted, StoreOk, AllRight, Seg, TlbsOk, SpacesOk, Faulted, SameOutside, OnlyAt, Usable, Walked,
           Recorded;
      KeyBelow(k.space, address);
      var races: nat := *;
      var pinned := false;
      wrote, status := false, Ok;
      NoFault(spaces, ptes, store, k);
      NotWalked(ptes, store, k, access);
      while !pinned
        invariant Valid() && store.nextObj == old(store.nextObj) && status == Ok
        invariant Faulted(spaces, old(ptes), old(store), ptes, store, k, wrote) && (wrote ==> Writes(access))
        invariant Walked(old(ptes), old(store), ptes, store, k, access, pinned)
        invariant SameOutside(old(ptes), ptes, k.space, k.page, k.page + 1)
        invariant pinned ==> k in ptes && Usable(ptes[k], access) && (Writes(access) ==> wrote)
        decreases races, !pinned
      {
        var resident: bool := *;
        pinned := *;
        pinned := pinned || races == 0;
        ghost var before, stored := ptes, store;
        if k !in ptes || !resident || (Writes(access) && ptes[k].cow) || !Allowed(ptes[k].prot, access) {
          status := HandleFault(k.space, address, access);
          FaultedTwice(spaces, old(ptes), old(store), before, stored, ptes, store, k, wrote,
                       Writes(access) && status == Ok);
          wrote := wrote || (Writes(access) && status == Ok);
          WalkedTwice(old(ptes), old(store), before, stored, ptes, store, k, access, status == Ok);
          OnlyAtOutside(old(ptes), before, ptes, k);
          if status != Ok {
            FaultFailure(status, Seg(spaces, k), address, access);
            return;
          }
        } else if pinned {
          Touch(k, access);
          FaultedTwice(spaces, old(ptes), old(store), before, stored, ptes, store, k, wrote, Writes(access));
          wrote := wrote || Writes(access);
          TouchWalks(before, stored, ptes, k, access);
          WalkedTwice(old(ptes), old(store), before, stored, ptes, store, k, access, true);
          OnlyAtOutside(old(ptes), before, ptes, k);
        }
        races := if pinned then races else races - 1;
      }
    }

    /**
     * The translation of one chunk in minimm_access_memory.  A usable cached
     * translation skips the walk; the contract does not tell the two apart.
     */
    method Translate(k: Key, address: nat, access: Access) returns (status: Status, frame: nat, ghost wrote: bool)
      requires Valid() && k.space in spaces && k == KeyAt(k.space, address) && address < ADDRESS_LIMIT
      modifies `ptes, `counts, `store, `tlbs
      ensures Valid() && store.nextObj == old(store.nextObj)
      ensures FaultStatus(status, Seg(spaces, k), address, access)
      ensures Faulted(spaces, old(ptes), old(store), ptes, store, k, wrote) && (wrote ==> Writes(access))
      ensures status == Ok ==>
                k in ptes && Usable(ptes[k], access) && frame == ptes[k].frame && (Writes(access) ==> wrote)
      ensures Walked(old(ptes), old(store), ptes, store, k, access, status == Ok)
      ensures k in old(ptes) && Usable(old(ptes)[k], access) ==>
                ptes == old(ptes) && store == old(store) && (status == Ok ==> frame == old(ptes)[k].frame)
      ensures SameOutside(old(ptes), ptes, k.space, k.page, k.page + 1)
    {
      hide KeyAt, Counted, StoreOk, AllRight, Seg, TlbsOk, SpacesOk, SpaceOk, Faulted, SameOutside, Walked;
      KeyBelow(k.space, address);
      frame, wrote := 0, false;
      NoFault(spaces, ptes, store, k);
      NotWalked(ptes, store, k, access);
      OneSpace(spaces, store.nextObj, k.space);
      var seg := Locate(k.space, k.page);
      if seg.None? || !Allowed(seg.value.prot, access) {
        hide Usable;
        status := HandleFault(k.space, address, access);
        WalkKeepsUsable(old(ptes), old(store), ptes, store, k, access, status == Ok);
        return;
      }
      CachedIsEntry(tlbs, ptes, k);
      var cached := tlbs[k.space][k.page % |tlbs[k.space]|];
      if cached.Some? && cached.value.page == k.page {
        var resident: bool := *;
        if !resident {
          InvalidatedOk(tlbs, ptes, ptes, k.space, k.page, k.page + 1);
          InvalidateRange(k.space, k.page, k.page + 1);
        } else if Usable(cached.value.pte, access) {
          var pinned: bool := *;
          if pinned {
            SegFacts(spaces, store.nextObj, k);
            HitIsInvisible(spaces, ptes, store, k, access);
            return Ok, cached.value.pte.frame, Writes(access);
          }
        }
      }
      hide Usable;
      status, wrote := Refill(k, address, access);
      WalkKeepsUsable(old(ptes), old(store), ptes, store, k, access, status == Ok);
      if status == Ok {
        frame := ptes[k].frame;
      }
    }

    /** One chunk of minimm_read: the bytes seen, and nothing changes. */
    method ReadPage(s: nat, address: nat, wanted: nat) returns (status: Status, bytes: seq<Byte>)
      requires Valid() && s in spaces && address < ADDRESS_LIMIT
      modifies `ptes, `counts, `store, `tlbs
      ensures Valid() && store.nextObj == old(store.nextObj)
      ensures SameMeaning(spaces, old(ptes), old(store), spaces, ptes, store)
      ensures FaultStatus(status, Seg(spaces, KeyAt(s, address)), address, Read)
      ensures status == Ok ==> ChunkOf(spaces, ptes, store, s, address, bytes) && |bytes| == Chunk(address, wanted)
    {
      hide KeyAt, Counted, StoreOk, AllRight, Seg, TlbsOk, SpacesOk, Origins, ObjectPage, View, FaultStatus;
      var frame;
      ghost var wrote;
      bytes := [];
      var k := KeyAt(s, address);
      KeyBelow(s, address);
      status, frame, wrote := Translate(k, address, Read);
      if status == Ok {
        AllowedStatus(status, Seg(spaces, k), address, Read);
        status := EnsureResident(frame);
        if status == Ok {
          ViewIsFrame(spaces, ptes, store, k);
          ChunkFits(address, wanted);
          var offset := address % PAGE_SIZE;
          bytes := Content(store, frame)[offset..offset + Chunk(address, wanted)];
        }
      }
    }

    /**
     * One chunk of minimm_write or minimm_edit.  A private page changes for this
     * space alone; a shared page changes in its object and nowhere else.
     */
    method WritePage(s: nat, address: nat, data: seq<Byte>, access: Access) returns (status: Status, ghost wrote: bool)
      requires Valid() && s in spaces && address < ADDRESS_LIMIT && address % PAGE_SIZE + |data| <= PAGE_SIZE
      requires Writes(access)
      modifies `ptes, `counts, `store, `tlbs
      ensures Valid() && store.nextObj == old(store.nextObj)
      ensures FaultStatus(status, Seg(spaces, KeyAt(s, address)), address, access)
      ensures status != Ok ==> Faulted(spaces, old(ptes), old(store), ptes, store, KeyAt(s, address), wrote)
      ensures status == Ok ==>
                Stored(spaces, old(ptes), old(store), ptes, store, KeyAt(s, address), address % PAGE_SIZE, data)
    {
      hide KeyAt, Counted, StoreOk, AllRight, Seg, TlbsOk, SpacesOk, Origins, ObjectPage, View, FaultStatus, Stored,
           Usable, Faulted;
      var frame;
      var k := KeyAt(s, address);
      KeyBelow(s, address);
      status, frame, wrote := Translate(k, address, access);
      if status == Ok {
        AllowedStatus(status, Seg(spaces, k), address, access);
        status := EnsureResident(frame);
        if status == Ok {
          WritingStores(spaces, old(ptes), old(store), ptes, store, k, address % PAGE_SIZE, data, access,
                        store.nextObj);
          WritingKeeps(spaces, ptes, store, frame, Splice(Content(store, frame), address % PAGE_SIZE, data));
          hide Splice, Content;
          store := Written(store, frame, Splice(Content(store, frame), address % PAGE_SIZE, data));
        }
      }
    }

    /** minimm_read */
    method ReadBytes(s: nat, address: nat, length: nat) returns (status: Status, bytes: seq<Byte>)
      requires Valid() && s in spaces
      modifies `ptes, `counts, `store, `tlbs
      ensures Valid() && store.nextObj == old(store.nextObj)
      ensures SameMeaning(spaces, old(ptes), old(store), spaces, ptes, store)
      ensures address + length > ADDRESS_LIMIT <==> status == InvalidArgument
      ensures |bytes| <= length && (status == Ok ==> |bytes| == length)
      ensures status != Ok && status != InvalidArgument ==>
                var at := address + |bytes|; FaultStatus(status, Seg(spaces, KeyAt(s, at)), at, Read)
      ensures BytesAre(spaces, old(ptes), old(store), s, address, bytes)
    {
      hide KeyAt, Counted, StoreOk, AllRight, Seg, TlbsOk, SpacesOk, Origins, ObjectPage, View, BytesAre, ChunkOf,
           SameMeaning, FaultStatus;
      SameMeaningAlways(spaces, ptes, store);
      NoBytes(spaces, ptes, store, s, address);
      bytes, status := [], Ok;
      if address + length > ADDRESS_LIMIT {
        return InvalidArgument, [];
      }
      while |bytes| < length
        invariant Valid() && store.nextObj == old(store.nextObj) && |bytes| <= length && status == Ok
        invariant SameMeaning(spaces, old(ptes), old(store), spaces, ptes, store)
        invariant BytesAre(spaces, old(ptes), old(store), s, address, bytes)
      {
        var at := address + |bytes|;
        ghost var before, stored := ptes, store;
        var chunk;
        status, chunk := ReadPage(s, at, length - |bytes|);
        SameMeaningTwice(spaces, old(ptes), old(store), before, stored, ptes, store);
        if status != Ok {
          NotInvalid(status, Seg(spaces, KeyAt(s, at)), at, Read);
          return;
        }
        ChunkRead(spaces, old(ptes), old(store), ptes, store, s, address, bytes, chunk);
        bytes := bytes + chunk;
      }
    }

    /** minimm_write and minimm_edit: whole pages at a time, up to the first that fails. */
    method WriteBytes(s: nat, address: nat, data: seq<Byte>, access: Access) returns (status: Status, completed: nat)
      requires Valid() && s in spaces && Writes(access)
      modifies `ptes, `counts, `store, `tlbs
      ensures Valid() && store.nextObj == old(store.nextObj)
      ensures address + |data| > ADDRESS_LIMIT <==> status == InvalidArgument
      ensures completed <= |data| && (status == Ok ==> completed == |data|)
      ensures status != Ok && status != InvalidArgument ==>
                var at := address + completed; FaultStatus(status, Seg(spaces, KeyAt(s, at)), at, access)
      ensures SameBytes(Put(MeaningOf(spaces, old(ptes), old(store)), spaces, s, address, data, completed),
                        MeaningOf(spaces, ptes, store))
      ensures status == Ok ==> MeaningOf(spaces, ptes, store) ==
                               Put(MeaningOf(spaces, old(ptes), old(store)), spaces, s, address, data, completed)
      ensures OthersKeep(spaces, old(ptes), old(store), spaces, ptes, store, s)
    {
      hide KeyAt, Counted, StoreOk, AllRight, Seg, TlbsOk, SpacesOk, MeaningOf, SameBytes, FaultStatus, Stored, Faulted,
           Laid, Chunk, OthersKeep;
      completed, status := 0, Ok;
      OthersAlways(spaces, ptes, store, s);
      ghost var m := MeaningOf(spaces, ptes, store);
      SameBytesAlways(m);
      if address + |data| > ADDRESS_LIMIT {
        return InvalidArgument, 0;
      }
      while completed < |data|
        invariant Valid() && store.nextObj == old(store.nextObj) && completed <= |data| && status == Ok
        invariant completed == |data| || completed == 0 || (address + completed) % PAGE_SIZE == 0
        invariant MeaningOf(spaces, ptes, store) == Put(m, spaces, s, address, data, completed)
        invariant OthersKeep(spaces, old(ptes), old(store), spaces, ptes, store, s)
      {
        var at := address + completed;
        var n := Chunk(at, |data| - completed);
        ChunkFits(at, |data| - completed);
        ghost var before, stored := ptes, store;
        ghost var wrote;
        status, wrote := WritePage(s, at, data[completed..completed + n], access);
        KeyBelow(s, at);
        WritingOthers(spaces, old(ptes), old(store), before, stored, ptes, store, KeyAt(s, at), at % PAGE_SIZE,
                      data[completed..completed + n], wrote, s);
        if status != Ok {
          NotInvalid(status, Seg(spaces, KeyAt(s, at)), at, access);
          FaultedBytes(spaces, before, stored, ptes, store, KeyAt(s, at), wrote);
          return;
        }
        StoredIsLaid(spaces, before, stored, ptes, store, KeyAt(s, at), at % PAGE_SIZE, data[completed..completed + n]);
        ChunkStart(address, completed, n);
        completed := completed + n;
      }
      SameBytesAlways(MeaningOf(spaces, ptes, store));
    }

    // ----------------------------------------------------------------
    // Mappings
    // ----------------------------------------------------------------

    /** minimm_mapping_unmap_pages_locked: exactly the entries of the range go, with their translations. */
    method UnmapPages(s: nat, first: nat, last: nat)
      requires Counted(ptes, counts) && s in tlbs && TlbsOk(tlbs, ptes) && last <= MAX_PAGE
      modifies `ptes, `counts, `tlbs
      ensures Counted(ptes, counts) && counts.Keys == old(counts.Keys)
      ensures TlbsOk(tlbs, ptes) && tlbs.Keys == old(tlbs.Keys)
      ensures Dropped(old(ptes), ptes, s, first, last)
    {
      hide Counted, TlbsOk;
      InvalidateRange(s, first, last);
      var cursor := first;
      while cursor < last
        invariant first <= cursor
        invariant Counted(ptes, counts) && counts.Keys == old(counts.Keys)
        invariant tlbs == old(tlbs)[s := Invalidated(old(tlbs)[s], first, last)]
        invariant Dropped(old(ptes), ptes, s, first, if cursor < last then cursor else last)
      {
        var page := FindNextPage(s, cursor, last);
        if page.None? {
          break;
        }
        var _ := UnmapPage(Key(s, page.value));
        cursor := page.value + 1;
      }
      DroppedOutside(old(ptes), ptes, s, first, last);
      InvalidatedOk(old(tlbs), old(ptes), ptes, s, first, last);
    }

    /** minimm_munmap */
    method Munmap(s: nat, address: nat, length: nat) returns (status: Status)
      requires Valid() && s in spaces
      modifies `spaces, `ptes, `counts, `tlbs
      ensures Valid() && spaces.Keys == old(spaces.Keys)
      ensures status == InvalidArgument <==>
                AlignedLength(length).None? || !OperationRange(address, AlignedLength(length).value)
      ensures status != Ok ==> spaces == old(spaces) && ptes == old(ptes)
      ensures status == Ok ==> UnmapMeans(old(Now()), s, address, length, Now())
    {
      hide Counted, StoreOk, AllRight, Seg, TlbsOk, SpacesOk, Origins, SpaceOk, SnapshotOk, AlignedLength;
      var aligned := AlignedLength(length);
      if aligned.None? || !OperationRange(address, aligned.value) {
        return InvalidArgument;
      }
      AlignedFacts(length);
      var end := address + aligned.value;
      OneSpace(spaces, store.nextObj, s);
      SpaceSnapshot(spaces[s], store.nextObj);
      var next;
      status, next := Remove(spaces[s].vmas, address, end);
      if status != Ok {
        return;
      }
      RemovedLayout(spaces, store.nextObj, s, next, address, end);
      UnmapPages(s, address / PAGE_SIZE, end / PAGE_SIZE);
      var kept := Prune(spaces[s].bindings, next);
      DroppingKeeps(spaces, old(ptes), spaces[s := Published(spaces[s], next, kept, spaces[s].nextCookie)], ptes, store,
                    s, address / PAGE_SIZE, end / PAGE_SIZE);
      spaces := spaces[s := Published(spaces[s], next, kept, spaces[s].nextCookie)];
    }

    /** Where minimm_mmap and minimm_mapping_copy put a mapping of `r`'s length, and the snapshot with it. */
    method FindRoom(s: nat, hint: Option<nat>, r: Range) returns (status: Status, address: nat, next: Snapshot)
      requires s in spaces && SpaceOk(spaces[s], store.nextObj) && r.start == 0 && r.end % PAGE_SIZE == 0
      ensures status in {Ok, InvalidArgument, NoSpace, OutOfMemory}
      ensures status == Ok ==> Inserts(spaces[s], next, PlacedAt(r, address))
      ensures status == Ok ==> forall a: nat :: address <= a < address + r.end ==> At(spaces[s].vmas.ranges, a) == None
      ensures status == Ok && hint.None? ==>
                forall y: nat ::
                  IsGap(spaces[s].vmas.ranges, spaces[s].mmapBase, ADDRESS_LIMIT, r.end, PAGE_SIZE, y) ==> address <= y
    {
      hide At, SnapshotOk, SpaceOk, RangeValid, IsPowerOfTwo, Aligned;
      SpaceSnapshot(spaces[s], store.nextObj);
      var vmas, lower := spaces[s].vmas, spaces[s].mmapBase;
      if hint.Some? && MappingRange(hint.value, r.end) {
        address := hint.value;
        status, next := Insert(vmas, PlacedAt(r, address));
        if status != AddressInUse {
          assert status == Ok ==> forall a: nat :: Covers(PlacedAt(r, address), a) ==> At(vmas.ranges, a) == None;
          return;
        }
        lower := if hint.value > lower then hint.value else lower;
      }
      status, address := FindGap(vmas, lower, ADDRESS_LIMIT, r.end, PAGE_SIZE);
      if status == NoSpace && lower != spaces[s].mmapBase {
        status, address := FindGap(vmas, spaces[s].mmapBase, ADDRESS_LIMIT, r.end, PAGE_SIZE);
      }
      next := EMPTY;
      if status != Ok {
        return;
      }
      status, next := Insert(vmas, PlacedAt(r, address));
      assert forall a: nat :: Covers(PlacedAt(r, address), a) ==> At(vmas.ranges, a) == None;
    }

    /** Unmap what a fixed mapping replaces, then publish the mapping with its binding. */
    method Install(s: nat, next: Snapshot, r: Range, backing: Backing, replace: bool)
      requires Valid() && s in spaces && Inserts(spaces[s], next, r) && r.cookie == spaces[s].nextCookie
      requires IsShared(backing) == r.shared && (backing.AnonPrivate? || backing.obj < store.nextObj)
      requires !replace ==> forall a: nat :: r.start <= a < r.end ==> At(spaces[s].vmas.ranges, a) == None
      modifies `spaces, `ptes, `counts, `tlbs
      ensures Valid() && spaces.Keys == old(spaces.Keys)
      ensures forall k :: Origins(spaces, ptes, store, k) ==
                          if InRange(k, s, r.start, r.end) then Initial(Some(MappedSegment(r, backing, k.page)))
                          else Origins(old(spaces), old(ptes), store, k)
    {
      hide Counted, StoreOk, AllRight, Seg, TlbsOk, SpacesOk, Origins, SpaceOk, SnapshotOk, At, Kept, MappedSegment,
           Inserts, InRange;
      RangeFacts(spaces[s], next, r);
      var first, last := r.start / PAGE_SIZE, r.end / PAGE_SIZE;
      InsertedLayout(spaces, store.nextObj, s, next, r, backing);
      if replace {
        UnmapPages(s, first, last);
      } else {
        UnmappedRange(spaces, s, r.start, r.end);
        NothingThere(spaces, ptes, store, s, first, last);
      }
      var kept := Prune([Binding(r.cookie, backing)] + spaces[s].bindings, next);
      var sp := Published(spaces[s], next, kept, r.cookie + 1);
      InPagesIsInRange(s, r.start, r.end);
      DroppingKeeps(spaces, old(ptes), spaces[s := sp], ptes, store, s, first, last);
      spaces := spaces[s := sp];
    }

    /** MINIMM_MAP_POPULATE: a best-effort prefault */
    method Prefault(s: nat, first: nat, last: nat)
      requires Valid() && s in spaces
      modifies `ptes, `counts, `store
      ensures Valid() && store.nextObj == old(store.nextObj)
      ensures SameMeaning(spaces, old(ptes), old(store), spaces, ptes, store)
    {
      hide Counted, StoreOk, AllRight, Seg, TlbsOk, SpacesOk, SameMeaning;
      SameMeaningAlways(spaces, ptes, store);
      var page := first;
      while page < last
        invariant Valid() && store.nextObj == old(store.nextObj)
        invariant SameMeaning(spaces, old(ptes), old(store), spaces, ptes, store)
      {
        ghost var before, stored := ptes, store;
        var status := Populate(s, page);
        SameMeaningTwice(spaces, old(ptes), old(store), before, stored, ptes, store);
        if status != Ok {
          break;
        }
        page := page + 1;
      }
    }

    /** MINIMM_MAP_FIXED replaces what is there, MINIMM_MAP_FIXED_NOREPLACE refuses to. */
    method PlaceFixed(s: nat, r: Range, replace: bool) returns (status: Status, next: Snapshot)
      requires s in spaces && SpaceOk(spaces[s], store.nextObj) && PageRange(r.start, r.end)
      ensures status in {Ok, InvalidArgument, AddressInUse, NoSpace, OutOfMemory}
      ensures status == AddressInUse ==> !replace && !Free(spaces[s].vmas, r.start, r.end)
      ensures status == Ok ==> Inserts(spaces[s], next, r)
      ensures status == Ok && !replace ==>
                forall a: nat :: r.start <= a < r.end ==> At(spaces[s].vmas.ranges, a) == None
    {
      hide At, SnapshotOk, SpaceOk, RangeValid;
      SpaceSnapshot(spaces[s], store.nextObj);
      var vmas := spaces[s].vmas;
      if !replace {
        status, next := Insert(vmas, r);
        assert status == Ok ==> forall a: nat :: Covers(r, a) ==> At(vmas.ranges, a) == None;
        return;
      }
      var without;
      status, without := Remove(vmas, r.start, r.end);
      next := EMPTY;
      if status == Ok {
        status, next := Insert(without, r);
      }
    }

    /** minimm_mmap */
    method Mmap(s: nat, args: MapArgs) returns (status: Status, address: nat)
      requires Valid() && s in spaces && (args.note.Some? ==> args.note.value.obj < store.nextObj)
      modifies `spaces, `ptes, `counts, `store, `tlbs
      ensures Valid() && spaces.Keys == old(spaces.Keys)
      ensures Checked(args) != Ok ==> status == Checked(args)
      ensures status in {Ok, InvalidArgument, Permission, AddressInUse, NoSpace, OutOfMemory}
      ensures status == AddressInUse ==>
                && args.placement == NoReplace && args.hint.Some?
                && !Free(old(spaces)[s].vmas, args.hint.value, args.hint.value + MapLength(args))
      ensures status != Ok ==> spaces == old(spaces) && ptes == old(ptes) && store == old(store)
      ensures status == Ok && args.placement != Anywhere ==> args.hint == Some(address)
      ensures status == Ok && args.placement != Fixed ==>
                Vacant(old(spaces), old(ptes), old(store), s, address, address + MapLength(args))
      ensures status == Ok ==> MapMeans(old(Now()), s, args, address, Now())
      ensures forall r :: ObjectPage(store, r) == ObjectPage(old(store), r)
    {
      hide Counted, StoreOk, AllRight, Seg, TlbsOk, SpacesOk, Origins, SpaceOk, At, Inserts, InRange, MappedSegment,
           MappedOrigin, Checked, MapLength, ObjectPage;
      address := 0;
      status := Checked(args);
      CheckedFacts(args);
      if status != Ok {
        return;
      }
      if spaces[s].nextCookie == UINT64_MAX {
        return NoSpace, 0;
      }
      var r := Range(0, MapLength(args), spaces[s].nextCookie, args.offset, args.prot, MaxProt(args), args.shared);
      OneSpace(spaces, store.nextObj, s);
      var next;
      if args.placement == Anywhere {
        status, address, next := FindRoom(s, args.hint, r);
      } else if args.hint.None? || !MappingRange(args.hint.value, r.end) {
        return InvalidArgument, 0;
      } else {
        address := args.hint.value;
        status, next := PlaceFixed(s, PlacedAt(r, address), args.placement == Fixed);
      }
      if status != Ok {
        return;
      }
      Establish(s, args, PlacedAt(r, address), next);
    }

    /** The committing half of minimm_mmap */
    method Establish(s: nat, args: MapArgs, r: Range, next: Snapshot)
      requires Valid() && s in spaces && (args.note.Some? ==> args.note.value.obj < store.nextObj)
      requires Inserts(spaces[s], next, r) && r.cookie == spaces[s].nextCookie
      requires r.offset == args.offset && r.shared == args.shared
      requires args.placement != Fixed ==>
                 forall a: nat :: r.start <= a < r.end ==> At(spaces[s].vmas.ranges, a) == None
      modifies `spaces, `ptes, `counts, `store, `tlbs
      ensures Valid() && spaces.Keys == old(spaces.Keys)
      ensures args.placement != Fixed ==> Vacant(old(spaces), old(ptes), old(store), s, r.start, r.end)
      ensures forall k :: Origins(spaces, ptes, store, k) ==
                          if InRange(k, s, r.start, r.end) then MappedOrigin(args, old(store.nextObj), r.start, k.page)
                          else Origins(old(spaces), old(ptes), old(store), k)
      ensures forall r :: ObjectPage(store, r) == ObjectPage(old(store), r)
    {
      hide Counted, StoreOk, AllRight, Seg, TlbsOk, SpacesOk, Origins, SpaceOk, At, Inserts, InRange, MappedSegment,
           MappedOrigin, ObjectPage, BackingFor;
      MappedFacts(args, store.nextObj, r);
      RangeFacts(spaces[s], next, r);
      if args.placement != Fixed {
        UnmappedOrigins(spaces, ptes, store, s, r.start, r.end);
      }
      var backing := BackingFor(args, store.nextObj);
      MoreObjects(spaces, store.nextObj, store.nextObj + 1);
      MoreObjectsStore(spaces, ptes, store);
      store := store.(nextObj := store.nextObj + 1);
      Install(s, next, r, backing, args.placement == Fixed);
      if args.populate && args.prot != NO_ACCESS {
        Prefault(s, r.start / PAGE_SIZE, r.end / PAGE_SIZE);
      }
    }

    /** The loop of minimm_mprotect over the entries of the range */
    method ProtectPages(s: nat, first: nat, last: nat, prot: Prot)
      requires Counted(ptes, counts) && s in tlbs && TlbsOk(tlbs, ptes) && last <= MAX_PAGE
      modifies `ptes, `counts, `tlbs
      ensures Counted(ptes, counts) && counts.Keys == old(counts.Keys)
      ensures TlbsOk(tlbs, ptes) && tlbs.Keys == old(tlbs.Keys)
      ensures Reprotected(old(ptes), ptes, s, first, last, prot)
    {
      hide Counted, TlbsOk;
      var cursor := first;
      while cursor < last
        invariant first <= cursor && tlbs == old(tlbs)
        invariant Counted(ptes, counts) && counts.Keys == old(counts.Keys)
        invariant Reprotected(old(ptes), ptes, s, first, if cursor < last then cursor else last, prot)
      {
        var page := FindNextPage(s, cursor, last);
        if page.None? {
          break;
        }
        var k := Key(s, page.value);
        var _ := CommitAttributes(k, ptes[k].(prot := prot));
        cursor := page.value + 1;
      }
      assert SameOutside(old(ptes), ptes, s, first, last);
      InvalidateRange(s, first, last);
      InvalidatedOk(old(tlbs), old(ptes), ptes, s, first, last);
    }

    /** minimm_mprotect */
    method Mprotect(s: nat, address: nat, length: nat, prot: Prot) returns (status: Status)
      requires Valid() && s in spaces
      modifies `spaces, `ptes, `counts, `tlbs
      ensures Valid() && spaces.Keys == old(spaces.Keys)
      ensures status == InvalidArgument <==> !ProtValid(prot) || !AlignedRange(address, length)
      ensures status != InvalidArgument && length > 0 ==>
                (status in {Ok, NoSpace, OutOfMemory} <==>
                   forall a: nat :: address <= a < address + AlignedLength(length).value ==>
                     At(old(spaces)[s].vmas.ranges, a).Some?
                     && Within(prot, At(old(spaces)[s].vmas.ranges, a).value.max))
      ensures status != Ok || length == 0 ==> spaces == old(spaces) && ptes == old(ptes)
      ensures status == Ok && length > 0 ==> ProtectMeans(old(Now()), s, address, length, prot, Now())
    {
      hide Counted, StoreOk, AllRight, Seg, TlbsOk, SpacesOk, Origins, SpaceOk, SnapshotOk, AlignedLength, InRange, At,
           Reprotected, ProtValid, InPages, Within;
      if !ProtValid(prot) {
        return InvalidArgument;
      }
      if length == 0 {
        return if address >= ADDRESS_LIMIT || address % PAGE_SIZE != 0 then InvalidArgument else Ok;
      }
      var aligned := AlignedLength(length);
      if aligned.None? || !OperationRange(address, aligned.value) {
        return InvalidArgument;
      }
      AlignedFacts(length);
      var end := address + aligned.value;
      OneSpace(spaces, store.nextObj, s);
      SpaceSnapshot(spaces[s], store.nextObj);
      var next;
      status, next := Protect(spaces[s].vmas, address, end, prot);
      if status != Ok {
        return;
      }
      ProtectedLayout(spaces, store.nextObj, s, next, address, end, prot);
      InPagesIsInRange(s, address, end);
      ProtectPages(s, address / PAGE_SIZE, end / PAGE_SIZE, prot);
      ProtectingKeeps(spaces, old(ptes), spaces[s := spaces[s].(vmas := next)], ptes, store,
                      s, address / PAGE_SIZE, end / PAGE_SIZE, prot);
      spaces := spaces[s := spaces[s].(vmas := next)];
    }

    /** The heap fragments from brk_base on must all belong to the mapping that is extended. */
    method OneHeap(vmas: Snapshot, from: nat, start: nat, cookie: nat) returns (one: bool)
      requires SnapshotOk(vmas)
      ensures one <==> OneCookie(vmas, from, start, cookie)
    {
      hide At, SnapshotOk;
      var cursor := from;
      while cursor < start
        invariant from <= cursor && (from <= start ==> cursor <= start)
        invariant forall a: nat :: from <= a < cursor ==>
                    At(vmas.ranges, a).Some? && At(vmas.ranges, a).value.cookie == cookie
      {
        var fragment := FindNext(vmas, cursor);
        if fragment.None? || fragment.value.start > cursor {
          assert At(vmas.ranges, cursor) == None;
          return false;
        }
        FragmentMeans(vmas, fragment.value);
        if fragment.value.cookie != cookie {
          assert At(vmas.ranges, cursor).value.cookie != cookie;
          return false;
        }
        cursor := if fragment.value.end < start then fragment.value.end else start;
      }
      return true;
    }

    /** minimm_mapping_extend_heap */
    method ExtendHeap(s: nat, start: nat, end: nat) returns (status: Status)
      requires Valid() && s in spaces
      modifies `spaces
      ensures Valid() && spaces.Keys == old(spaces.Keys)
      ensures !HeapRange(start, end) ==> status == InvalidArgument
      ensures HeapRange(start, end) ==> (status == Unsupported <==> !HeapEndsAt(old(spaces)[s], start))
      ensures status == AddressInUse ==> !Free(old(spaces)[s].vmas, start, end)
      ensures status in {Ok, InvalidArgument, Unsupported, AddressInUse, NoSpace, OutOfMemory}
      ensures status != Ok ==> spaces == old(spaces)
      ensures status == Ok ==> ExtendMeans(old(Now()), s, start, end, Now())
      ensures status == Ok ==> Vacant(old(spaces), ptes, store, s, start, end)
    {
      hide Counted, StoreOk, AllRight, Seg, TlbsOk, SpacesOk, Origins, SpaceOk, SnapshotOk, InRange, At, RangeValid,
           Inserts;
      if !HeapRange(start, end) {
        return InvalidArgument;
      }
      OneSpace(spaces, store.nextObj, s);
      SpaceSnapshot(spaces[s], store.nextObj);
      var sp := spaces[s];
      var tail := Lookup(sp.vmas, start - 1);
      OneEnd(sp, start, tail);
      if tail.None? || tail.value.end != start || tail.value.shared {
        return Unsupported;
      }
      var one := OneHeap(sp.vmas, sp.brkBase, start, tail.value.cookie);
      var backing := FindBinding(sp.bindings, tail.value.cookie);
      if !one || backing != Some(AnonPrivate) {
        return Unsupported;
      }
      var r := Range(start, end, tail.value.cookie, tail.value.offset + (start - tail.value.start),
                     Prot(true, true, false, false), Prot(true, true, true, false), false);
      var next;
      status, next := Insert(sp.vmas, r);
      if status != Ok {
        return;
      }
      assert forall a: nat :: Covers(r, a) ==> At(sp.vmas.ranges, a) == None;
      GrowSpace(s, next, r, AnonPrivate);
    }

    /** Publish more pages of a mapping that is already bound. */
    method GrowSpace(s: nat, next: Snapshot, r: Range, backing: Backing)
      requires Valid() && s in spaces && SnapshotOk(next) && RangeValid(r)
      requires forall a: nat :: At(next.ranges, a) ==
                 if Covers(r, a) then Some(AttrAt(r, a)) else At(spaces[s].vmas.ranges, a)
      requires forall a: nat :: Covers(r, a) ==> At(spaces[s].vmas.ranges, a) == None
      requires BindingOf(spaces[s].bindings, r.cookie) == Some(backing) && IsShared(backing) == r.shared
      requires exists a: nat ::
                 At(spaces[s].vmas.ranges, a).Some? && At(spaces[s].vmas.ranges, a).value.cookie == r.cookie
      modifies `spaces
      ensures Valid() && spaces.Keys == old(spaces.Keys)
      ensures forall k :: Origins(spaces, ptes, store, k) ==
                          if InRange(k, s, r.start, r.end) then Initial(Some(MappedSegment(r, backing, k.page)))
                          else Origins(old(spaces), ptes, store, k)
      ensures Vacant(old(spaces), ptes, store, s, r.start, r.end)
    {
      hide Counted, StoreOk, AllRight, Seg, TlbsOk, SpacesOk, Origins, SpaceOk, SnapshotOk, InRange, At, MappedSegment;
      assert Inserts(spaces[s], next, r);
      RangeFacts(spaces[s], next, r);
      hide RangeValid, Inserts;
      OneSpace(spaces, store.nextObj, s);
      BoundHere(spaces[s], store.nextObj);
      ExtendedLayout(spaces, store.nextObj, s, next, r, backing);
      UnmappedRange(spaces, s, r.start, r.end);
      UnmappedOrigins(spaces, ptes, store, s, r.start, r.end);
      NothingThere(spaces, ptes, store, s, r.start / PAGE_SIZE, r.end / PAGE_SIZE);
      InPagesIsInRange(s, r.start, r.end);
      DroppingKeeps(spaces, ptes, spaces[s := spaces[s].(vmas := next)], ptes, store, s, r.start / PAGE_SIZE,
                    r.end / PAGE_SIZE);
      spaces := spaces[s := spaces[s].(vmas := next)];
    }

    // ----------------------------------------------------------------
    // Copies of whole ranges: fork and minimm_mapping_copy
    // ----------------------------------------------------------------

    /** Unmap the clones made so far: nothing is left of them. */
    method UndoClones(x: Transfer, n: nat, ghost was: map<Key, Pte>)
      requires Counted(ptes, counts) && n <= x.n && x.dest + x.n <= MAX_PAGE
      requires HalfCloned(spaces, was, ptes, x.(n := n)) && forall k :: k in was ==> !AtDest(k, x)
      modifies `ptes, `counts
      ensures Counted(ptes, counts) && counts.Keys == old(counts.Keys) && ptes == was
    {
      hide Counted, Seg, Twin;
      var i := 0;
      while i < n
        invariant i <= n && Counted(ptes, counts) && counts.Keys == old(counts.Keys)
        invariant forall k :: k in ptes <==> k in old(ptes) && !InPages(k, x.t, x.dest, x.dest + i)
        invariant forall k :: k in ptes ==> ptes[k] == old(ptes)[k]
      {
        if Key(x.t, x.dest + i) in ptes {
          var _ := UnmapPage(Key(x.t, x.dest + i));
        }
        i := i + 1;
      }
      UndoneIsBefore(spaces, was, old(ptes), ptes, x, n);
    }

    /** minimm_fork_copy_pte over all entries; minimm_mapping_copy_ptes_locked */
    method ClonePages(x: Transfer, forked: bool) returns (status: Status)
      requires Counted(ptes, counts) && counts.Keys == store.contents.Keys && AllRight(spaces, ptes, store)
      requires x.s in spaces && SpaceOk(spaces[x.s], store.nextObj)
      requires Apart(x) && x.dest + x.n <= MAX_PAGE && forall k :: k in ptes ==> !AtDest(k, x)
      modifies `ptes, `counts
      ensures Counted(ptes, counts) && counts.Keys == old(counts.Keys) && status in {Ok, OutOfMemory}
      ensures if status == Ok then HalfCloned(spaces, old(ptes), ptes, x) else ptes == old(ptes)
    {
      hide Counted, Seg, AllRight, SpaceOk, Apart, HalfCloned, AtDest, Twin, CloneEntry, Effective;
      var i := 0;
      NoClones(spaces, ptes, x);
      while i < x.n
        invariant i <= x.n && Counted(ptes, counts) && counts.Keys == old(counts.Keys)
        invariant HalfCloned(spaces, old(ptes), ptes, x.(n := i))
      {
        var k := Key(x.s, x.first + i);
        SourceStays(spaces, old(ptes), ptes, x, i);
        if k in ptes {
          var seg := Locate(x.s, k.page);
          EntryFacts(spaces, old(ptes), store, k);
          TwinEntry(seg.value, ptes[k], forked);
          ghost var before := ptes;
          status := MapPage(Key(x.t, x.dest + i), CloneEntry(seg.value, ptes[k], forked));
          if status != Ok {
            UndoClones(x, i, old(ptes));
            return;
          }
          OneMoreClone(spaces, old(ptes), before, ptes, x, i);
        } else {
          NoMoreClone(spaces, old(ptes), ptes, x, i);
        }
        i := i + 1;
      }
      assert x.(n := i) == x;
      status := Ok;
    }

    /** minimm_fork_commit_parent_cow over all entries; minimm_mapping_update_source_copy_state_locked */
    method MarkSource(x: Transfer, ghost was: map<Key, Pte>)
      requires Counted(ptes, counts) && x.s in spaces && SpaceOk(spaces[x.s], store.nextObj)
      requires x.first + x.n <= MAX_PAGE
      requires AllRight(spaces, was, store) && HalfCloned(spaces, was, ptes, x) && Apart(x)
      modifies `ptes, `counts
      ensures Counted(ptes, counts) && counts.Keys == old(counts.Keys)
      ensures SourceMarked(spaces, old(ptes), ptes, x.s, x.first, x.n)
    {
      hide Counted, Seg, AllRight, SpaceOk, Apart, HalfCloned, Twin, MarkedEntry, Effective, SourceMarked;
      var i := 0;
      NoMarks(spaces, ptes, x.s, x.first);
      while i < x.n
        invariant i <= x.n && Counted(ptes, counts) && counts.Keys == old(counts.Keys)
        invariant SourceMarked(spaces, old(ptes), ptes, x.s, x.first, i)
      {
        var k := Key(x.s, x.first + i);
        NotYetMarked(spaces, old(ptes), ptes, x.s, x.first, i);
        if k in ptes {
          SourceKept(spaces, was, old(ptes), x, i);
          EntryFacts(spaces, was, store, k);
          var seg := Locate(x.s, k.page);
          MarkedIsTwin(seg.value, ptes[k]);
          ghost var before := ptes;
          var _ := CommitAttributes(k, MarkedEntry(seg.value, ptes[k]));
          OneMoreMark(spaces, old(ptes), before, ptes, x.s, x.first, i);
        } else {
          NoMoreMark(spaces, old(ptes), ptes, x.s, x.first, i);
        }
        i := i + 1;
      }
    }

    /** Clone the pages of a range, mark both sides, and drop stale translations of the source. */
    method CloneRange(x: Transfer, forked: bool) returns (status: Status)
      requires Counted(ptes, counts) && counts.Keys == store.contents.Keys && AllRight(spaces, ptes, store)
      requires x.s in spaces && SpaceOk(spaces[x.s], store.nextObj) && x.s in tlbs && TlbsOk(tlbs, ptes)
      requires Apart(x) && x.first + x.n <= MAX_PAGE && x.dest + x.n <= MAX_PAGE
      requires forall k :: k in ptes ==> !AtDest(k, x)
      modifies `ptes, `counts, `tlbs
      ensures Counted(ptes, counts) && counts.Keys == old(counts.Keys) && status in {Ok, OutOfMemory}
      ensures TlbsOk(tlbs, ptes) && tlbs.Keys == old(tlbs.Keys)
      ensures if status == Ok then Cloned(spaces, old(ptes), ptes, x) else ptes == old(ptes) && tlbs == old(tlbs)
    {
      hide Counted, Seg, AllRight, SpaceOk, Apart, HalfCloned, Twin, SourceMarked, TlbsOk, AtDest, Cloned;
      status := ClonePages(x, forked);
      if status != Ok {
        return;
      }
      ghost var mid := ptes;
      ClonesOnlyAdd(spaces, old(ptes), mid, x);
      MoreEntriesOk(tlbs, old(ptes), mid);
      MarkSource(x, old(ptes));
      CloneComplete(spaces, old(ptes), mid, ptes, x);
      MarkedOutside(spaces, mid, ptes, x.s, x.first, x.n);
      InvalidatedOk(tlbs, mid, ptes, x.s, x.first, x.first + x.n);
      InvalidateRange(x.s, x.first, x.first + x.n);
    }

    /** minimm_space_fork: the child starts with every page of the parent, and nobody else notices. */
    method Fork(parent: nat) returns (status: Status, child: nat)
      requires Valid() && parent in spaces
      modifies this
      ensures Valid() && store == old(store)
      ensures status != Ok ==> spaces == old(spaces) && ptes == old(ptes)
      ensures status == Ok ==> ForkMeans(old(Now()), parent, child, Now())
    {
      hide Counted, Seg, AllRight, SpacesOk, SpaceOk, TlbsOk, StoreOk, Origins, Cloned, Apart, AtDest, Back;
      status, child := *, nextSpace;
      if status != Ok {
        return;
      }
      var x := Transfer(parent, 0, MAX_PAGE, child, 0);
      OneSpace(spaces, store.nextObj, parent);
      NewSpaceFacts(spaces, ptes, store, store.nextObj, x);
      tlbs := tlbs[child := NoTranslations(tlbEntries)];
      NewTlbOk(old(tlbs), ptes, child, tlbEntries);
      status := CloneRange(x, true);
      if status != Ok {
        tlbs := tlbs - {child};
        assert tlbs == old(tlbs);
        return;
      }
      var spaces' := spaces[child := spaces[parent]];
      ForkedLayout(spaces, store.nextObj, x);
      OneSpaceChanged(spaces, store.nextObj, child, spaces[parent]);
      CloningKeeps(spaces, old(ptes), spaces', ptes, store, x);
      ForkedOrigins(spaces, store.nextObj, old(ptes), store, x);
      spaces := spaces';
      nextSpace := nextSpace + 1;
    }

    /** The copying part of minimm_mapping_copy: entries first, then the new mapping is published. */
    method CopyInto(s: nat, q: Range, r: Range, next: Snapshot, backing: Backing) returns (status: Status)
      requires Valid() && s in spaces && Inserts(spaces[s], next, r) && r.cookie == spaces[s].nextCookie
      requires MappedBy(spaces[s], q) && Replaces(r, q) && r.end - r.start == q.end - q.start
      requires BindingOf(spaces[s].bindings, q.cookie) == Some(backing)
      requires IsShared(backing) == r.shared && (backing.AnonPrivate? || backing.obj < store.nextObj)
      requires forall a: nat :: Covers(r, a) ==> At(spaces[s].vmas.ranges, a) == None
      modifies `spaces, `ptes, `counts, `tlbs
      ensures Valid() && spaces.Keys == old(spaces.Keys) && status in {Ok, OutOfMemory}
      ensures status != Ok ==> spaces == old(spaces) && ptes == old(ptes)
      ensures status == Ok ==>
                forall k :: Origins(spaces, ptes, store, k) ==
                    Origins(old(spaces), old(ptes), store, Back(k, CopyOf(s, q, r)))
      ensures forall k :: AtDest(k, CopyOf(s, q, r)) ==> Origins(old(spaces), old(ptes), store, k) == Unmapped
    {
      hide Counted, Seg, AllRight, SpacesOk, SpaceOk, TlbsOk, StoreOk, Cloned, Apart, AtDest, Back, At, Inserts,
           MappedBy, BindingOf, Kept;
      var x := CopyOf(s, q, r);
      CopiedLayout(spaces, store.nextObj, s, next, q, r, backing);
      DestFree(spaces, ptes, store, x);
      hide Origins;
      OneSpace(spaces, store.nextObj, s);
      CopyBounds(s, spaces[s], q, next, r);
      hide CopyOf;
      status := CloneRange(x, false);
      if status != Ok {
        return;
      }
      InvalidatedOk(tlbs, ptes, ptes, s, x.dest, x.dest + x.n);
      InvalidateRange(s, x.dest, x.dest + x.n);
      AllUsed(spaces[s], store.nextObj, next, r, backing);
      var sp := Published(spaces[s], next, [Binding(r.cookie, backing)] + spaces[s].bindings, r.cookie + 1);
      CloningKeeps(spaces, old(ptes), spaces[s := sp], ptes, store, x);
      spaces := spaces[s := sp];
    }

    /** minimm_mapping_copy */
    method MappingCopy(s: nat, source: nat, length: nat, hint: Option<nat>) returns (status: Status, address: nat)
      requires Valid() && s in spaces
      modifies `spaces, `ptes, `counts, `tlbs
      ensures Valid() && spaces.Keys == old(spaces.Keys)
      ensures status in {Ok, InvalidArgument, Unsupported, NoSpace, OutOfMemory}
      ensures status != Ok ==> spaces == old(spaces) && ptes == old(ptes)
      ensures status == Ok ==> AlignedLength(length).Some? && CopyMeans(old(Now()), s, source, length, address, Now())
      ensures status == Ok ==>
                forall k :: AtDest(k, Copying(s, source, length, address)) ==>
                              Origins(old(spaces), old(ptes), store, k) == Unmapped
    {
      hide Counted, Seg, AllRight, SpacesOk, SpaceOk, TlbsOk, StoreOk, Origins, Cloned, Apart, AtDest, Back, SnapshotOk,
           At, AlignedLength, Inserts, MappedBy, RangeValid, MappedSegment, Kept;
      address := 0;
      var aligned := AlignedLength(length);
      if aligned.None? || !MappingRange(source, aligned.value)
         || (hint.Some? && !MappingRange(hint.value, aligned.value)) {
        return InvalidArgument, 0;
      }
      AlignedFacts(length);
      if spaces[s].nextCookie == UINT64_MAX {
        return NoSpace, 0;
      }
      OneSpace(spaces, store.nextObj, s);
      SpaceSnapshot(spaces[s], store.nextObj);
      var q := Lookup(spaces[s].vmas, source);
      if q.None? || q.value.start != source || q.value.end != source + aligned.value || q.value.shared {
        return Unsupported, 0;
      }
      var backing := FindBinding(spaces[s].bindings, q.value.cookie);
      // Every mapping has its binding, so the source's check for a missing one never fires.
      BackingFacts(spaces[s], store.nextObj, source);
      assert backing.Some?;
      var r := q.value.(start := 0, end := aligned.value, cookie := spaces[s].nextCookie);
      var next;
      status, address, next := FindRoom(s, hint, r);
      if status != Ok {
        return;
      }
      FragmentMapped(spaces[s], q.value);
      assert CopyOf(s, q.value, PlacedAt(r, address)) == Copying(s, source, length, address);
      status := CopyInto(s, q.value, PlacedAt(r, address), next, backing.value);
    }

    // ----------------------------------------------------------------
    // Moving entries
    // ----------------------------------------------------------------

    /** minimm_mapping_replace_pte_locked: it can fail only where there is no entry yet. */
    method ReplacePte(k: Key, p: Pte) returns (status: Status)
      requires Counted(ptes, counts) && p.frame in counts && k.page < MAX_PAGE && Effective(p.prot, p.cow) == p.prot
      modifies `ptes, `counts
      ensures Counted(ptes, counts) && counts.Keys == old(counts.Keys) && status in {Ok, OutOfMemory}
      ensures k in old(ptes) ==> status == Ok
      ensures ptes == if status == Ok then old(ptes)[k := p] else old(ptes)
    {
      hide Counted;
      if k !in ptes {
        status := MapPage(k, p);
      } else {
        status := ReplaceFrame(k, p);
      }
    }

    /** The placing loops of minimm_mapping_move_ptes_locked and minimm_mapping_move_ptes_fixed_locked */
    method PlaceEntries(x: Transfer) returns (status: Status, ghost done: nat)
      requires Counted(ptes, counts) && counts.Keys == store.contents.Keys && AllRight(spaces, ptes, store)
      requires Apart(x) && x.dest + x.n <= MAX_PAGE
      modifies `ptes, `counts
      ensures Counted(ptes, counts) && counts.Keys == old(counts.Keys) && status in {Ok, OutOfMemory}
      ensures done <= x.n && Placed(old(ptes), ptes, x, done) && (status == Ok ==> done == x.n)
    {
      hide Counted, Seg, AllRight, Apart, Placed, Effective;
      var i := 0;
      NonePlaced(ptes, x);
      while i < x.n
        invariant i <= x.n && Counted(ptes, counts) && counts.Keys == old(counts.Keys)
        invariant Placed(old(ptes), ptes, x, i)
      {
        var k := Key(x.s, x.first + i);
        NotYetPlaced(old(ptes), ptes, x, i);
        if k in ptes {
          MaskedEntry(spaces, old(ptes), store, k);
          ghost var before := ptes;
          status := ReplacePte(Key(x.t, x.dest + i), ptes[k]);
          if status != Ok {
            return status, i;
          }
          OneMorePlaced(old(ptes), before, ptes, x, i);
        } else {
          NoMorePlaced(old(ptes), ptes, x, i);
        }
        i := i + 1;
      }
      return Ok, i;
    }

    /** minimm_mapping_move_ptes_locked: into free pages, undone by unmapping them. */
    method MoveEntries(x: Transfer, newPages: nat) returns (status: Status)
      requires Counted(ptes, counts) && counts.Keys == store.contents.Keys && AllRight(spaces, ptes, store)
      requires x.s == x.t && x.s in tlbs && TlbsOk(tlbs, ptes) && x.n <= newPages
      requires x.dest + newPages <= MAX_PAGE && x.first + x.n <= MAX_PAGE
      requires x.dest + newPages <= x.first || x.first + x.n <= x.dest
      requires forall k :: k in ptes ==> !InPages(k, x.t, x.dest, x.dest + newPages)
      modifies `ptes, `counts, `tlbs
      ensures Counted(ptes, counts) && counts.Keys == old(counts.Keys) && status in {Ok, OutOfMemory}
      ensures TlbsOk(tlbs, ptes) && tlbs.Keys == old(tlbs.Keys)
      ensures if status == Ok then MovedTo(old(ptes), ptes, x, x.n, newPages) else ptes == old(ptes)
    {
      hide Counted, Seg, AllRight, TlbsOk, Placed, MovedTo, Dropped, Holed, InPages;
      ghost var done;
      ApartRanges(x, x.n, newPages);
      status, done := PlaceEntries(x);
      ghost var placed := ptes;
      PlacedAdds(old(ptes), placed, x, done, newPages);
      MoreEntriesOk(tlbs, old(ptes), placed);
      if status != Ok {
        UnmapPages(x.t, x.dest, x.dest + x.n);
        UnplacedIsBefore(old(ptes), placed, ptes, x, done, newPages);
        return;
      }
      InvalidatedOk(tlbs, ptes, ptes, x.t, x.dest, x.dest + x.n);
      InvalidateRange(x.t, x.dest, x.dest + x.n);
      UnmapPages(x.s, x.first, x.first + x.n);
      MoveComplete(old(ptes), placed, placed, ptes, x, x.n, newPages);
    }

    /** minimm_mapping_collect_copy_pages_locked */
    method Collect(s: nat, first: nat, last: nat) returns (saved: seq<Saved>)
      ensures Saves(saved, ptes, s, first, last)
    {
      saved := [];
      var cursor := first;
      while cursor < last
        invariant first <= cursor && (first <= last ==> cursor <= last)
        invariant Saves(saved, ptes, s, first, if first <= last then cursor else first)
      {
        var page := FindNextPage(s, cursor, last);
        if page.None? {
          NothingMoreSaved(saved, ptes, s, first, cursor, last);
          return;
        }
        SavedOneMore(saved, ptes, s, first, cursor, page.value);
        saved := saved + [Saved(page.value, ptes[Key(s, page.value)])];
        cursor := page.value + 1;
      }
    }

    /** minimm_mapping_restore_fixed_destination_locked: the entries are exactly what they were. */
    method RestoreDestination(s: nat, first: nat, last: nat, saved: seq<Saved>, ghost was: map<Key, Pte>)
      requires Counted(ptes, counts) && last <= MAX_PAGE && s in tlbs && TlbsOk(tlbs, was)
      requires Saves(saved, was, s, first, last) && SameOutside(was, ptes, s, first, last)
      requires forall k :: k in was ==>
                 k in ptes && was[k].frame in counts && Effective(was[k].prot, was[k].cow) == was[k].prot
      modifies `ptes, `counts, `tlbs
      ensures Counted(ptes, counts) && counts.Keys == old(counts.Keys) && ptes == was
      ensures TlbsOk(tlbs, ptes) && tlbs.Keys == old(tlbs.Keys)
    {
      hide Counted, TlbsOk, Effective, InPages;
      var i := 0;
      while i < |saved|
        invariant i <= |saved| && Counted(ptes, counts) && counts.Keys == old(counts.Keys) && tlbs == old(tlbs)
        invariant SameOutside(was, ptes, s, first, last) && forall k :: k in was ==> k in ptes
        invariant forall j :: 0 <= j < i ==> ptes[Key(s, saved[j].page)] == saved[j].pte
      {
        var k := Key(s, saved[i].page);
        InPagesHere(s, saved[i].page, first, last);
        var _ := ReplacePte(k, saved[i].pte);
        i := i + 1;
      }
      RestoredValues(saved, was, ptes, s, first, last);
      DropUnsaved(s, first, last, saved, was);
      InvalidatedOk(tlbs, was, ptes, s, first, last);
      InvalidateRange(s, first, last);
    }

    /** The second loop of the restore: whatever was not there before goes. */
    method DropUnsaved(s: nat, first: nat, last: nat, saved: seq<Saved>, ghost was: map<Key, Pte>)
      requires Counted(ptes, counts) && last <= MAX_PAGE && Saves(saved, was, s, first, last)
      requires forall k :: k in was ==> k in ptes && ptes[k] == was[k]
      requires forall k :: k in ptes && !InPages(k, s, first, last) ==> k in was
      modifies `ptes, `counts
      ensures Counted(ptes, counts) && counts.Keys == old(counts.Keys) && ptes == was
    {
      hide Counted;
      var cursor := first;
      while cursor < last
        invariant first <= cursor && Counted(ptes, counts) && counts.Keys == old(counts.Keys)
        invariant forall k :: k in was ==> k in ptes && ptes[k] == was[k]
        invariant forall k :: k in ptes && !InPages(k, s, cursor, last) ==> k in was
      {
        var page := FindNextPage(s, cursor, last);
        if page.None? {
          break;
        }
        var found := FindSaved(saved, page.value);
        if !found {
          var _ := UnmapPage(Key(s, page.value));
        }
        cursor := page.value + 1;
      }
      assert forall k :: k in ptes ==> k in was;
      assert ptes == was;
    }

    /** Source holes and a grown tail replace any old destination entries with holes. */
    method ClearHoles(x: Transfer, newPages: nat)
      requires Counted(ptes, counts) && x.s == x.t && x.n <= newPages && x.dest + newPages <= MAX_PAGE
      requires x.dest + newPages <= x.first || x.first + x.n <= x.dest
      modifies `ptes, `counts
      ensures Counted(ptes, counts) && counts.Keys == old(counts.Keys)
      ensures Holed(old(ptes), ptes, x, newPages)
    {
      hide Counted;
      var i := 0;
      while i < newPages
        invariant i <= newPages && Counted(ptes, counts) && counts.Keys == old(counts.Keys)
        invariant forall k :: k in ptes <==> k in old(ptes) && !(Hole(old(ptes), x, k, newPages) && k.page < x.dest + i)
        invariant forall k :: k in ptes ==> ptes[k] == old(ptes)[k]
      {
        var k := Key(x.t, x.dest + i);
        if k in ptes && (i >= x.n || Key(x.s, x.first + i) !in ptes) {
          var _ := UnmapPage(k);
        }
        i := i + 1;
      }
    }

    /** minimm_mapping_move_ptes_fixed_locked: over what is there, with an exact way back. */
    method MoveEntriesFixed(x: Transfer, oldPages: nat, newPages: nat) returns (status: Status)
      requires Counted(ptes, counts) && counts.Keys == store.contents.Keys && AllRight(spaces, ptes, store)
      requires x.s == x.t && x.s in tlbs && TlbsOk(tlbs, ptes) && x.n <= newPages && x.n <= oldPages
      requires x.dest + newPages <= MAX_PAGE && x.first + oldPages <= MAX_PAGE
      requires x.dest + newPages <= x.first || x.first + oldPages <= x.dest
      modifies `ptes, `counts, `tlbs
      ensures Counted(ptes, counts) && counts.Keys == old(counts.Keys) && status in {Ok, OutOfMemory, Busy}
      ensures TlbsOk(tlbs, ptes) && tlbs.Keys == old(tlbs.Keys)
      ensures if status == Ok then MovedTo(old(ptes), ptes, x, oldPages, newPages) else ptes == old(ptes)
    {
      hide Counted, Seg, AllRight, TlbsOk, Placed, MovedTo, Dropped, Holed, InPages, Saves, SameOutside, Effective;
      ApartRanges(x, oldPages, newPages);
      var saved := Collect(x.t, x.dest, x.dest + newPages);
      var busy: bool := *;
      if busy && exists i :: 0 <= i < |saved| && saved[i].pte.locked {
        return Busy;
      }
      ghost var done;
      status, done := PlaceEntries(x);
      ghost var placed := ptes;
      PlacedOutside(old(ptes), placed, x, done, newPages);
      if status != Ok {
        AllMasked(spaces, old(ptes), store);
        RestoreDestination(x.t, x.dest, x.dest + newPages, saved, old(ptes));
        return;
      }
      ClearHoles(x, newPages);
      ghost var holed := ptes;
      HoledOutside(old(ptes), placed, holed, x, newPages);
      InvalidatedOk(tlbs, old(ptes), holed, x.t, x.dest, x.dest + newPages);
      InvalidateRange(x.t, x.dest, x.dest + newPages);
      UnmapPages(x.s, x.first, x.first + oldPages);
      MoveComplete(old(ptes), placed, holed, ptes, x, oldPages, newPages);
    }

    /** Shrinking or growing a mapping where it is */
    method ShrinkInPlace(s: nat, q: Range, newSize: nat, backing: Backing) returns (status: Status)
      requires Valid() && s in spaces && MappedBy(spaces[s], q) && 0 < newSize < q.end - q.start
      requires newSize % PAGE_SIZE == 0
      modifies `spaces, `ptes, `counts, `tlbs
      ensures Valid() && spaces.Keys == old(spaces.Keys)
      ensures if status == Ok then Resized(old(spaces), old(ptes), spaces, ptes, store, s, q, newSize, backing)
              else spaces == old(spaces) && ptes == old(ptes)
    {
      hide Counted, Seg, AllRight, SpacesOk, SpaceOk, TlbsOk, StoreOk, Origins, SnapshotOk, At, InRange, MappedSegment;
      var start, end := q.start + newSize, q.end;
      OneSpace(spaces, store.nextObj, s);
      SpaceSnapshot(spaces[s], store.nextObj);
      var next;
      status, next := Remove(spaces[s].vmas, start, end);
      if status != Ok {
        return;
      }
      ShrunkLayout(spaces, store.nextObj, s, next, start, end, q.start);
      UnmapPages(s, start / PAGE_SIZE, end / PAGE_SIZE);
      InPagesIsInRange(s, start, end);
      EmptyRange(s, end, start);
      DroppingKeeps(spaces, old(ptes), spaces[s := spaces[s].(vmas := next)], ptes, store, s, start / PAGE_SIZE,
                    end / PAGE_SIZE);
      spaces := spaces[s := spaces[s].(vmas := next)];
    }

    method GrowInPlace(s: nat, q: Range, newSize: nat, backing: Backing) returns (status: Status)
      requires Valid() && s in spaces && MappedBy(spaces[s], q) && newSize > q.end - q.start && newSize % PAGE_SIZE == 0
      requires BindingOf(spaces[s].bindings, q.cookie) == Some(backing) && IsShared(backing) == q.shared
      modifies `spaces
      ensures Valid() && spaces.Keys == old(spaces.Keys)
      ensures if status == Ok then Resized(old(spaces), ptes, spaces, ptes, store, s, q, newSize, backing)
              else spaces == old(spaces)
      ensures status == Ok ==> RoomWasVacant(old(spaces), ptes, store, s, q, q.start, newSize)
    {
      hide Counted, Seg, AllRight, SpacesOk, SpaceOk, TlbsOk, StoreOk, Origins, SnapshotOk, At, InRange, MappedSegment,
           RangeValid;
      OneSpace(spaces, store.nextObj, s);
      SpaceSnapshot(spaces[s], store.nextObj);
      var without, next;
      status, without := Remove(spaces[s].vmas, q.start, q.end);
      if status != Ok {
        return;
      }
      var grown := q.(end := q.start + newSize);
      status, next := Insert(without, grown);
      if status != Ok {
        return;
      }
      var tail := q.(start := q.end, end := q.start + newSize, offset := q.offset + (q.end - q.start));
      TailFacts(spaces[s], without, next, q, grown, tail);
      GrowSpace(s, next, tail, backing);
      EmptyRange(s, q.start + newSize, q.end);
      TailSegments(q, tail, backing);
    }

    /** The snapshot a move publishes: the destination replaced if fixed, the source removed unless kept. */
    method MoveSnapshot(s: nat, q: Range, r: Range, fixed: bool, dontUnmap: bool)
      returns (status: Status, next: Snapshot)
      requires s in spaces && SpaceOk(spaces[s], store.nextObj) && PageRange(q.start, q.end)
      requires PageRange(r.start, r.end)
      requires r.end <= q.start || q.end <= r.start
      requires !fixed ==> forall a: nat :: Covers(r, a) ==> At(spaces[s].vmas.ranges, a) == None
      ensures status == Ok ==> if dontUnmap then Inserts(spaces[s], next, r) else Moves(spaces[s], next, q, r)
    {
      hide At, SnapshotOk, SpaceOk, RangeValid;
      SpaceSnapshot(spaces[s], store.nextObj);
      var vmas := spaces[s].vmas;
      next := EMPTY;
      status := Ok;
      if !dontUnmap {
        status, vmas := Remove(vmas, q.start, q.end);
      }
      if status == Ok && fixed {
        status, vmas := Remove(vmas, r.start, r.end);
      }
      if status == Ok {
        status, next := Insert(vmas, r);
      }
    }

    /** The moving half of minimm_mremap: entries, then the binding of a kept source, then the snapshot. */
    method MoveMapping(s: nat, q: Range, r: Range, backing: Backing, fixed: bool, dontUnmap: bool, next: Snapshot)
      returns (status: Status)
      requires Valid() && s in spaces && MappedBy(spaces[s], q) && PageRange(r.start, r.end) && Replaces(r, q)
      requires if dontUnmap then Inserts(spaces[s], next, r) && r.cookie == spaces[s].nextCookie
               else Moves(spaces[s], next, q, r) && r.cookie == q.cookie
      requires BindingOf(spaces[s].bindings, q.cookie) == Some(backing)
      requires IsShared(backing) == r.shared && (backing.AnonPrivate? || backing.obj < store.nextObj)
      requires r.end <= q.start || q.end <= r.start
      requires !fixed ==> q.end - q.start <= r.end - r.start
      requires !fixed ==> forall a: nat :: Covers(r, a) ==> At(spaces[s].vmas.ranges, a) == None
      modifies `spaces, `ptes, `counts, `tlbs
      ensures Valid() && spaces.Keys == old(spaces.Keys)
      ensures if status == Ok then MovedAway(old(spaces), old(ptes), spaces, ptes, store, s, q, r, backing, dontUnmap)
              else spaces == old(spaces) && ptes == old(ptes)
    {
      hide Counted, Seg, AllRight, SpacesOk, SpaceOk, TlbsOk, StoreOk, Origins, SnapshotOk, At, Inserts, Moves,
           MappedBy, BindingOf, MovedTo, MovedSegs, Kept, MovedAway, InPages;
      var x, oldPages, newPages := MoveOf(s, q, r), Pages(q), Pages(r);
      MoveBounds(s, spaces[s], q, r);
      if !fixed {
        FreeDestination(spaces, ptes, store, s, q, r);
      }
      hide MoveOf, Pages;
      if fixed {
        status := MoveEntriesFixed(x, oldPages, newPages);
      } else {
        status := MoveEntries(x, newPages);
      }
      if status != Ok {
        return;
      }
      PublishMove(s, q, r, backing, dontUnmap, next, old(ptes));
    }

    method PublishMove(s: nat, q: Range, r: Range, backing: Backing, dontUnmap: bool, next: Snapshot,
                       ghost was: map<Key, Pte>)
      requires Tabled() && AllRight(spaces, was, store) && SpacesOk(spaces, store.nextObj)
      requires (forall s :: s in spaces ==> s < nextSpace)
      requires tlbs.Keys == spaces.Keys && tlbEntries > 0 && TlbsOk(tlbs, ptes) && s in spaces
      requires MappedBy(spaces[s], q) && PageRange(r.start, r.end) && Replaces(r, q)
      requires if dontUnmap then Inserts(spaces[s], next, r) && r.cookie == spaces[s].nextCookie
               else Moves(spaces[s], next, q, r) && r.cookie == q.cookie
      requires BindingOf(spaces[s].bindings, q.cookie) == Some(backing)
      requires IsShared(backing) == r.shared && (backing.AnonPrivate? || backing.obj < store.nextObj)
      requires r.end <= q.start || q.end <= r.start
      requires MovedTo(was, ptes, MoveOf(s, q, r), Pages(q), Pages(r))
      modifies `spaces
      ensures Valid() && spaces.Keys == old(spaces.Keys)
      ensures MovedAway(old(spaces), was, spaces, ptes, store, s, q, r, backing, dontUnmap)
    {
      hide Counted, Seg, AllRight, SpacesOk, SpaceOk, TlbsOk, StoreOk, Origins, SnapshotOk, At, Inserts, Moves,
           MappedBy, BindingOf, MovedTo, MovedSegs, Kept, MovedAway, MoveOf, Pages;
      var bindings, nextCookie := spaces[s].bindings, spaces[s].nextCookie;
      if dontUnmap {
        KeptLayout(spaces, store.nextObj, s, next, q, r, backing);
        bindings, nextCookie := [Binding(r.cookie, backing)] + bindings, nextCookie + 1;
      } else {
        MovedLayout(spaces, store.nextObj, s, next, q, r, backing);
      }
      MovedSnapshotOk(spaces[s], next, q, r, dontUnmap);
      bindings := Prune(bindings, next);
      var sp := Published(spaces[s], next, bindings, nextCookie);
      MovingIsMovedAway(spaces, was, spaces[s := sp], ptes, store, s, q, r, backing, dontUnmap);
      spaces := spaces[s := sp];
    }

    /** minimm_mremap; `noteSize` is the size of the mapping's note, if it has one. */
    method Mremap(s: nat, oldAddress: nat, oldLength: nat, newLength: nat, mayMove: bool, fixed: bool, dontUnmap: bool,
                  hint: Option<nat>, noteSize: nat)
      returns (status: Status, address: nat, ghost q: Range, ghost backing: Backing)
      requires Valid() && s in spaces
      modifies `spaces, `ptes, `counts, `tlbs
      ensures Valid() && spaces.Keys == old(spaces.Keys)
      ensures (fixed && !mayMove) || (!fixed && hint.Some?) || (dontUnmap && !mayMove) ==> status == InvalidArgument
      ensures status != Ok ==> spaces == old(spaces) && ptes == old(ptes)
      ensures status == Ok ==>
                && AlignedLength(oldLength).Some? && AlignedLength(newLength).Some?
                && q.start == oldAddress && q.end == oldAddress + AlignedLength(oldLength).value
                && MappedBy(old(spaces)[s], q) && BindingOf(old(spaces)[s].bindings, q.cookie) == Some(backing)
      ensures status == Ok && address == oldAddress ==>
                Resized(old(spaces), old(ptes), spaces, ptes, store, s, q, AlignedLength(newLength).value, backing)
      ensures status == Ok && address != oldAddress ==>
                MovedAway(old(spaces), old(ptes), spaces, ptes, store, s, q,
                          q.(start := address, end := address + AlignedLength(newLength).value), backing, dontUnmap)
      ensures status == Ok ==> (fixed ==> Some(address) == hint) && (!mayMove ==> address == oldAddress)
      ensures status == Ok && !fixed ==>
                RoomWasVacant(old(spaces), old(ptes), store, s, q, address, AlignedLength(newLength).value)
    {
      hide Counted, Seg, AllRight, SpacesOk, SpaceOk, TlbsOk, StoreOk, Origins, SnapshotOk, At, Inserts, Moves,
           MappedBy, BindingOf, Resized, MovedAway, AlignedLength, InRange, RoomWasVacant;
      address, q, backing := 0, NO_RANGE, AnonPrivate;
      if (fixed && !mayMove) || (!fixed && hint.Some?) || (dontUnmap && !mayMove) {
        status := InvalidArgument;
        return;
      }
      var oldSize, newSize := AlignedLength(oldLength), AlignedLength(newLength);
      AlignedFacts(oldLength);
      AlignedFacts(newLength);
      status := RemapChecked(oldAddress, oldLength, oldSize, newSize, if fixed then hint else None, fixed);
      if status != Ok {
        return;
      }
      OneSpace(spaces, store.nextObj, s);
      SpaceSnapshot(spaces[s], store.nextObj);
      var found := Lookup(spaces[s].vmas, oldAddress);
      if found.None? || found.value.start != oldAddress || found.value.end != oldAddress + oldSize.value {
        status := Unsupported;
        return;
      }
      var m := found.value;
      var b := FindBinding(spaces[s].bindings, m.cookie);
      FragmentMapped(spaces[s], m);
      BackingFacts(spaces[s], store.nextObj, oldAddress);
      q, backing := m, b.value;
      if dontUnmap && (newSize != oldSize || m.shared || b.value != AnonPrivate) {
        status := Unsupported;
        return;
      }
      if (b.value.NoteShared? || b.value.NotePrivate?) && (m.offset > noteSize || newSize.value > noteSize - m.offset) {
        status := InvalidArgument;
        return;
      }
      status, address := Remap(s, m, newSize.value, b.value, mayMove, if fixed then hint else None, dontUnmap);
    }

    /** Which of the ways of minimm_mremap is taken */
    method Remap(s: nat, q: Range, newSize: nat, backing: Backing, mayMove: bool, fixed: Option<nat>, dontUnmap: bool)
      returns (status: Status, address: nat)
      requires Valid() && s in spaces && MappedBy(spaces[s], q)
      requires BindingOf(spaces[s].bindings, q.cookie) == Some(backing)
      requires IsShared(backing) == q.shared && (backing.AnonPrivate? || backing.obj < store.nextObj)
      requires 0 < newSize <= ADDRESS_LIMIT && newSize % PAGE_SIZE == 0
      requires fixed.Some? ==>
                 MappingRange(fixed.value, newSize) && (fixed.value + newSize <= q.start || q.end <= fixed.value)
                 && mayMove
      requires dontUnmap ==> mayMove && newSize == q.end - q.start
      modifies `spaces, `ptes, `counts, `tlbs
      ensures Valid() && spaces.Keys == old(spaces.Keys)
      ensures status != Ok ==> spaces == old(spaces) && ptes == old(ptes)
      ensures status == Ok && address == q.start ==>
                Resized(old(spaces), old(ptes), spaces, ptes, store, s, q, newSize, backing)
      ensures status == Ok && address != q.start ==>
                MovedAway(old(spaces), old(ptes), spaces, ptes, store, s, q,
                          q.(start := address, end := address + newSize), backing, dontUnmap)
      ensures status == Ok ==> (fixed.Some? ==> Some(address) == fixed) && (!mayMove ==> address == q.start)
      ensures status == Ok && fixed.None? ==> RoomWasVacant(old(spaces), old(ptes), store, s, q, address, newSize)
    {
      hide Counted, Seg, AllRight, SpacesOk, SpaceOk, TlbsOk, StoreOk, Origins, SnapshotOk, At, Inserts, Moves,
           BindingOf, Resized, MovedAway, InRange, RoomWasVacant;
      address := q.start;
      if fixed.None? && !dontUnmap {
        if newSize == q.end - q.start {
          NotResized(spaces, ptes, store, s, q, backing);
          NoRoomTaken(spaces, ptes, store, s, q, newSize);
          status := Ok;
          return;
        }
        if newSize < q.end - q.start {
          NoRoomTaken(spaces, ptes, store, s, q, newSize);
          status := ShrinkInPlace(s, q, newSize, backing);
          return;
        }
        status := NoSpace;
        if newSize <= ADDRESS_LIMIT - q.start {
          status := GrowInPlace(s, q, newSize, backing);
          if status != AddressInUse {
            return;
          }
        }
        if !mayMove {
          return;
        }
      }
      status, address := Relocate(s, q, newSize, backing, fixed, dontUnmap);
    }

    method Relocate(s: nat, q: Range, newSize: nat, backing: Backing, fixed: Option<nat>, dontUnmap: bool)
      returns (status: Status, address: nat)
      requires Valid() && s in spaces && MappedBy(spaces[s], q)
      requires BindingOf(spaces[s].bindings, q.cookie) == Some(backing)
      requires IsShared(backing) == q.shared && (backing.AnonPrivate? || backing.obj < store.nextObj)
      requires 0 < newSize <= ADDRESS_LIMIT && newSize % PAGE_SIZE == 0
      requires fixed.Some? ==>
                 MappingRange(fixed.value, newSize) && (fixed.value + newSize <= q.start || q.end <= fixed.value)
      requires fixed.None? ==> newSize >= q.end - q.start
      modifies `spaces, `ptes, `counts, `tlbs
      ensures Valid() && spaces.Keys == old(spaces.Keys)
      ensures status != Ok ==> spaces == old(spaces) && ptes == old(ptes)
      ensures status == Ok ==>
                && address != q.start && (fixed.Some? ==> Some(address) == fixed)
                && MovedAway(old(spaces), old(ptes), spaces, ptes, store, s, q,
                             q.(start := address, end := address + newSize), backing, dontUnmap)
      ensures status == Ok && fixed.None? ==> RoomWasVacant(old(spaces), old(ptes), store, s, q, address, newSize)
    {
      hide Counted, Seg, AllRight, SpacesOk, SpaceOk, TlbsOk, StoreOk, Origins, SnapshotOk, At, Inserts, Moves,
           BindingOf, MovedAway, InRange, Aligned, IsPowerOfTwo, Vacant;
      OneSpace(spaces, store.nextObj, s);
      SpaceSnapshot(spaces[s], store.nextObj);
      if fixed.Some? {
        status, address := Ok, fixed.value;
      } else {
        status, address := FindGap(spaces[s].vmas, spaces[s].mmapBase, ADDRESS_LIMIT, newSize, PAGE_SIZE);
        if status != Ok {
          return;
        }
        GapFacts(spaces[s], q, address, newSize);
        UnmappedOrigins(spaces, ptes, store, s, address, address + newSize);
      }
      if dontUnmap && spaces[s].nextCookie == UINT64_MAX {
        status := NoSpace;
        return;
      }
      var cookie := if dontUnmap then spaces[s].nextCookie else q.cookie;
      var r := q.(start := address, end := address + newSize, cookie := cookie);
      var next;
      status, next := MoveSnapshot(s, q, r, fixed.Some?, dontUnmap);
      if status != Ok {
        return;
      }
      status := MoveMapping(s, q, r, backing, fixed.Some?, dontUnmap, next);
      CookieIrrelevant(old(spaces), old(ptes), spaces, ptes, store, s, q, r, r.(cookie := q.cookie), backing,
                       dontUnmap);
    }

    // ----------------------------------------------------------------
    // Locking and advice
    // ----------------------------------------------------------------

    /** minimm_memory_validate_mapped_locked */
    method AllMapped(s: nat, start: nat, end: nat) returns (mapped: bool)
      requires s in spaces && SpaceOk(spaces[s], store.nextObj)
      ensures mapped <==> Mapped(spaces[s].vmas, start, end)
    {
      hide At, SnapshotOk, SpaceOk;
      SpaceSnapshot(spaces[s], store.nextObj);
      var vmas, cursor := spaces[s].vmas, start;
      while cursor < end
        invariant start <= cursor && (start <= end ==> cursor <= end)
        invariant forall a: nat :: start <= a < cursor ==> At(vmas.ranges, a).Some?
      {
        var range := FindNext(vmas, cursor);
        if range.None? || range.value.start > cursor {
          assert !At(spaces[s].vmas.ranges, cursor).Some?;
          return false;
        }
        FragmentMeans(vmas, range.value);
        cursor := if range.value.end < end then range.value.end else end;
      }
      return true;
    }

    /** Flags that carry no meaning change, and the translation is dropped. */
    method MarkPage(k: Key, p: Pte)
      requires Valid() && k in ptes && k.space in spaces && p == Marked(ptes[k], p.accessed, p.dirty, p.locked)
      modifies `ptes, `counts, `tlbs
      ensures Valid() && ptes == old(ptes)[k := p]
      ensures SameMeaning(spaces, old(ptes), store, spaces, ptes, store)
    {
      hide Counted, Seg, AllRight, SpacesOk, TlbsOk, StoreOk, Origins, ObjectPage, SameMeaning, Effective;
      MarkingKeeps(spaces, ptes, store, k, p);
      MaskedEntry(spaces, ptes, store, k);
      PageBelow(ptes, counts, k);
      var _ := CommitAttributes(k, p);
      InvalidatedOk(tlbs, old(ptes), ptes, k.space, k.page, k.page + 1);
      InvalidateRange(k.space, k.page, k.page + 1);
    }

    /** One page of minimm_mlock: populated, locked, and resident under the lock. */
    method LockPage(k: Key) returns (status: Status)
      requires Valid() && k.space in spaces && Seg(spaces, k).Some? && k.page < MAX_PAGE
      modifies `ptes, `counts, `store, `tlbs
      ensures status !in {InvalidArgument, NotFound}
      ensures Valid() && store.nextObj == old(store.nextObj) && Grown(old(store), store)
      ensures SameMeaning(spaces, old(ptes), old(store), spaces, ptes, store)
      ensures SameOutside(old(ptes), ptes, k.space, k.page, k.page + 1)
      ensures k in old(ptes) ==> k in ptes && ptes[k] == old(ptes)[k].(locked := ptes[k].locked)
      ensures status == Ok ==> k in ptes && ptes[k].locked
    {
      hide Counted, Seg, AllRight, SpacesOk, TlbsOk, StoreOk, SameMeaning, Grown;
      SameMeaningAlways(spaces, ptes, store);
      GrownAlways(store);
      if k !in ptes {
        status := Populate(k.space, k.page);
        if status != Ok {
          return;
        }
      }
      ghost var populated, stored := ptes, store;
      SameMeaningAlways(spaces, ptes, store);
      if !ptes[k].locked {
        MarkPage(k, ptes[k].(locked := true));
      }
      SameMeaningTwice(spaces, old(ptes), old(store), populated, stored, ptes, store);
      ghost var locked := ptes;
      status := Populate(k.space, k.page);
      SameMeaningTwice(spaces, old(ptes), old(store), locked, stored, ptes, store);
      GrownTwice(old(store), stored, store);
    }

    /** minimm_mlock: all pages of the range or none. */
    method Mlock(s: nat, address: nat, length: nat) returns (status: Status)
      requires Valid() && s in spaces
      modifies `ptes, `counts, `store, `tlbs
      ensures Valid() && SameMeaning(spaces, old(ptes), old(store), spaces, ptes, store)
      ensures status == InvalidArgument <==> !LockRange(address, length)
      ensures status == NotFound ==>
                !Mapped(spaces[s].vmas, address / PAGE_SIZE * PAGE_SIZE, LockEnd(address, length) * PAGE_SIZE)
      ensures status != Ok || length == 0 ==> ptes == old(ptes)
      ensures status == Ok && length > 0 ==>
                && SameOutside(old(ptes), ptes, s, address / PAGE_SIZE, LockEnd(address, length))
                && forall p :: address / PAGE_SIZE <= p < LockEnd(address, length) ==>
                                 Key(s, p) in ptes && ptes[Key(s, p)].locked
    {
      hide Counted, Seg, AllRight, SpacesOk, SpaceOk, TlbsOk, StoreOk, SameMeaning, At, Grown;
      SameMeaningAlways(spaces, ptes, store);
      if !LockRange(address, length) {
        return InvalidArgument;
      }
      if length == 0 {
        return Ok;
      }
      var first, last := address / PAGE_SIZE, LockEnd(address, length);
      var available: bool := *;
      if !available {
        return OutOfMemory;
      }
      OneSpace(spaces, store.nextObj, s);
      var mapped := AllMapped(s, first * PAGE_SIZE, last * PAGE_SIZE);
      if !mapped {
        return NotFound;
      }
      MappedPages(spaces, s, first, last);
      status := LockPages(s, first, last);
    }

    /** The locking loop of minimm_mlock and its way back */
    method LockPages(s: nat, first: nat, last: nat) returns (status: Status)
      requires Valid() && s in spaces && first <= last <= MAX_PAGE
      requires forall p: nat :: first <= p < last ==> Seg(spaces, Key(s, p)).Some?
      modifies `ptes, `counts, `store, `tlbs
      ensures status !in {InvalidArgument, NotFound}
      ensures Valid() && SameMeaning(spaces, old(ptes), old(store), spaces, ptes, store)
      ensures status != Ok ==> ptes == old(ptes)
      ensures status == Ok ==> SameOutside(old(ptes), ptes, s, first, last)
      ensures status == Ok ==> forall p :: first <= p < last ==> Key(s, p) in ptes && ptes[Key(s, p)].locked
    {
      hide Counted, Seg, AllRight, SpacesOk, SpaceOk, TlbsOk, StoreOk, SameMeaning, Grown, SnapshotOf, LockedSoFar,
           SameOutside;
      SameMeaningAlways(spaces, ptes, store);
      GrownAlways(store);
      var pages := SnapshotPages(s, first, last);
      var page := first;
      status := Ok;
      NoneLocked(ptes, s, first);
      while page < last
        invariant Valid() && store.nextObj == old(store.nextObj) && Grown(old(store), store) && status == Ok
        invariant first <= page <= last
        invariant SameMeaning(spaces, old(ptes), old(store), spaces, ptes, store)
        invariant LockedSoFar(old(ptes), ptes, s, first, page)
      {
        ghost var before, stored := ptes, store;
        status := LockPage(Key(s, page));
        SameMeaningTwice(spaces, old(ptes), old(store), before, stored, ptes, store);
        GrownTwice(old(store), stored, store);
        OneMoreLocked(old(ptes), before, ptes, s, first, page);
        if status != Ok {
          GrowingKeeps(spaces, old(ptes), old(store), store);
          AllMasked(spaces, old(ptes), store);
          RestoreLocks(s, first, pages, page + 1 - first, old(ptes));
          GrownMeaning(spaces, ptes, old(store), store);
          return;
        }
        page := page + 1;
      }
      AllLocked(old(ptes), ptes, s, first, last);
    }

    /** minimm_memory_snapshot_mlock_pages_locked */
    method SnapshotPages(s: nat, first: nat, last: nat) returns (pages: seq<Option<Pte>>)
      ensures SnapshotOf(pages, ptes, s, first) && (first <= last ==> |pages| == last - first)
    {
      pages := [];
      while first + |pages| < last
        invariant SnapshotOf(pages, ptes, s, first) && (first <= last ==> |pages| <= last - first)
      {
        var k := Key(s, first + |pages|);
        pages := pages + [if k in ptes then Some(ptes[k]) else None];
      }
    }

    /** minimm_memory_restore_mlock_pages_locked: never fails, since no entry has gone. */
    method RestoreLocks(s: nat, first: nat, pages: seq<Option<Pte>>, attempted: nat, ghost was: map<Key, Pte>)
      requires Counted(ptes, counts) && s in tlbs && TlbsOk(tlbs, ptes) && first + attempted <= MAX_PAGE
      requires SnapshotOf(pages, was, s, first) && attempted <= |pages|
      requires SameOutside(was, ptes, s, first, first + attempted)
      requires forall k :: k in was ==>
                 k in ptes && was[k].frame in counts && Effective(was[k].prot, was[k].cow) == was[k].prot
      modifies `ptes, `counts, `tlbs
      ensures Counted(ptes, counts) && counts.Keys == old(counts.Keys) && ptes == was
      ensures TlbsOk(tlbs, ptes) && tlbs.Keys == old(tlbs.Keys)
    {
      hide Counted, TlbsOk, Effective;
      var i := 0;
      while i < attempted
        invariant i <= attempted && Counted(ptes, counts) && counts.Keys == old(counts.Keys)
        invariant TlbsOk(tlbs, ptes) && tlbs.Keys == old(tlbs.Keys)
        invariant SameOutside(was, ptes, s, first + i, first + attempted) && forall k :: k in was ==> k in ptes
      {
        RestoreOne(Key(s, first + i), pages[i]);
        i := i + 1;
      }
      assert ptes == was;
    }

    method RestoreOne(k: Key, saved: Option<Pte>)
      requires Counted(ptes, counts) && k.space in tlbs && TlbsOk(tlbs, ptes) && k.page < MAX_PAGE
      requires saved.Some? ==>
                 && k in ptes && saved.value.frame in counts
                 && Effective(saved.value.prot, saved.value.cow) == saved.value.prot
      modifies `ptes, `counts, `tlbs
      ensures Counted(ptes, counts) && counts.Keys == old(counts.Keys)
      ensures TlbsOk(tlbs, ptes) && tlbs.Keys == old(tlbs.Keys)
      ensures ptes == if saved.Some? then old(ptes)[k := saved.value] else old(ptes) - {k}
    {
      hide Counted, TlbsOk, Effective;
      if saved.Some? && saved.value == ptes[k] {
        assert ptes == ptes[k := saved.value];
        return;
      }
      InvalidateRange(k.space, k.page, k.page + 1);
      if saved.None? {
        if k in ptes {
          var _ := UnmapPage(k);
        }
      } else {
        var _ := ReplaceFrame(k, saved.value);
      }
      InvalidatedOk(old(tlbs), old(ptes), ptes, k.space, k.page, k.page + 1);
    }

    /** minimm_munlock */
    method Munlock(s: nat, address: nat, length: nat) returns (status: Status)
      requires Valid() && s in spaces
      modifies `ptes, `counts, `tlbs
      ensures Valid() && SameMeaning(spaces, old(ptes), store, spaces, ptes, store)
      ensures status == if !LockRange(address, length) then InvalidArgument
                        else if length == 0 || Mapped(spaces[s].vmas, address / PAGE_SIZE * PAGE_SIZE,
                                                      LockEnd(address, length) * PAGE_SIZE) then Ok
                        else NotFound
      ensures status != Ok || length == 0 ==> ptes == old(ptes)
      ensures status == Ok && length > 0 ==>
                forall k :: && (k in ptes <==> k in old(ptes))
                            && (k in ptes ==> ptes[k] == if InPages(k, s, address / PAGE_SIZE, LockEnd(address, length))
                                                         then old(ptes)[k].(locked := false) else old(ptes)[k])
    {
      hide Counted, Seg, AllRight, SpacesOk, SpaceOk, TlbsOk, StoreOk, SameMeaning, At;
      SameMeaningAlways(spaces, ptes, store);
      if !LockRange(address, length) {
        return InvalidArgument;
      }
      if length == 0 {
        return Ok;
      }
      var first, last := address / PAGE_SIZE, LockEnd(address, length);
      OneSpace(spaces, store.nextObj, s);
      var mapped := AllMapped(s, first * PAGE_SIZE, last * PAGE_SIZE);
      if !mapped {
        return NotFound;
      }
      hide LockEnd;
      var cursor := first;
      while cursor < last
        invariant first <= cursor && Valid() && SameMeaning(spaces, old(ptes), store, spaces, ptes, store)
        invariant forall k :: k in ptes <==> k in old(ptes)
        invariant forall k :: k in ptes ==>
                    ptes[k] == if InPages(k, s, first, last) && k.page < cursor then old(ptes)[k].(locked := false)
                               else old(ptes)[k]
      {
        var page := FindNextPage(s, cursor, last);
        if page.None? {
          break;
        }
        var k := Key(s, page.value);
        if ptes[k].locked {
          ghost var before := ptes;
          MarkPage(k, ptes[k].(locked := false));
          SameMeaningTwice(spaces, old(ptes), store, before, store, ptes, store);
        }
        cursor := page.value + 1;
      }
      return Ok;
    }

    /** minimm_memory_validate_reclaimable_locked */
    method Reclaimable(s: nat, first: nat, last: nat, includePins: bool) returns (ok: bool)
      requires Counted(ptes, counts)
      ensures ok <==> forall k :: k in ptes && InPages(k, s, first, last) ==>
                                    !ptes[k].locked
                                    && (includePins ==> ptes[k].frame in counts && counts[ptes[k].frame].pins == 0)
    {
      EntriesCounted(ptes, counts);
      hide Counted;
      var cursor := first;
      while cursor < last
        invariant first <= cursor
        invariant forall k :: k in ptes && InPages(k, s, first, last) && k.page < cursor ==>
                                !ptes[k].locked
                                && (includePins ==> ptes[k].frame in counts && counts[ptes[k].frame].pins == 0)
      {
        var page := FindNextPage(s, cursor, last);
        if page.None? {
          break;
        }
        var k := Key(s, page.value);
        if ptes[k].locked || (includePins && counts[ptes[k].frame].pins > 0) {
          assert InPages(k, s, first, last);
          return false;
        }
        cursor := page.value + 1;
      }
      return true;
    }

    /** minimm_memory_dontneed_locked, once nothing in the range is locked */
    method DropPages(s: nat, first: nat, last: nat)
      requires Counted(ptes, counts) && s in tlbs && TlbsOk(tlbs, ptes) && last <= MAX_PAGE
      requires forall k :: k in ptes && InPages(k, s, first, last) ==> !ptes[k].locked
      modifies `ptes, `counts, `tlbs
      ensures Counted(ptes, counts) && counts.Keys == old(counts.Keys)
      ensures TlbsOk(tlbs, ptes) && tlbs.Keys == old(tlbs.Keys)
      ensures Dropped(old(ptes), ptes, s, first, last)
    {
      hide Counted, TlbsOk;
      var cursor := first;
      while cursor < last
        invariant first <= cursor && Counted(ptes, counts) && counts.Keys == old(counts.Keys)
        invariant TlbsOk(tlbs, ptes) && tlbs.Keys == old(tlbs.Keys)
        invariant Dropped(old(ptes), ptes, s, first, if cursor < last then cursor else last)
      {
        var page := FindNextPage(s, cursor, last);
        if page.None? {
          break;
        }
        var k := Key(s, page.value);
        if !ptes[k].locked {
          RestoreOne(k, None);
        }
        cursor := page.value + 1;
      }
    }

    /** minimm_memory_cold_locked and minimm_memory_pageout_locked: flags only; a failed page-out stops the loop. */
    method ClearFlags(s: nat, first: nat, last: nat, pageOut: bool) returns (status: Status)
      requires Valid() && s in spaces
      modifies `ptes, `counts, `tlbs
      ensures Valid() && SameMeaning(spaces, old(ptes), store, spaces, ptes, store)
      ensures SameOutside(old(ptes), ptes, s, first, last) && FrameStatus(status) && (!pageOut ==> status == Ok)
    {
      hide Counted, Seg, AllRight, SpacesOk, TlbsOk, StoreOk, SameMeaning;
      SameMeaningAlways(spaces, ptes, store);
      var cursor := first;
      status := Ok;
      while cursor < last
        invariant first <= cursor && Valid() && SameMeaning(spaces, old(ptes), store, spaces, ptes, store)
        invariant SameOutside(old(ptes), ptes, s, first, last) && status == Ok
      {
        var page := FindNextPage(s, cursor, last);
        if page.None? {
          break;
        }
        var k := Key(s, page.value);
        ghost var before := ptes;
        if pageOut {
          status := EnsureResident(ptes[k].frame);
          if status != Ok {
            return;
          }
          MarkPage(k, ptes[k].(dirty := false));
        } else {
          MarkPage(k, ptes[k].(accessed := false));
        }
        SameMeaningTwice(spaces, old(ptes), store, before, store, ptes, store);
        cursor := page.value + 1;
      }
    }

    /** minimm_memory_willneed_locked: object pages are cached ahead, frames are made resident, no page changes. */
    method ReadAhead(s: nat, start: nat, end: nat) returns (status: Status)
      requires Valid() && s in spaces && Mapped(spaces[s].vmas, start, end)
      modifies `store, `counts
      ensures Valid() && store.nextObj == old(store.nextObj) && FrameStatus(status)
      ensures SameMeaning(spaces, ptes, old(store), spaces, ptes, store)
    {
      hide At, Counted, Seg, AllRight, SpacesOk, SpaceOk, SnapshotOk, TlbsOk, StoreOk, SameMeaning, BindingOf;
      SameMeaningAlways(spaces, ptes, store);
      status := Ok;
      var cursor := start;
      while cursor < end
        invariant Valid() && store.nextObj == old(store.nextObj) && status == Ok && start <= cursor
        invariant SameMeaning(spaces, ptes, old(store), spaces, ptes, store)
      {
        OneSpace(spaces, store.nextObj, s);
        SpaceSnapshot(spaces[s], store.nextObj);
        assert At(spaces[s].vmas.ranges, cursor).Some?;
        var q := FindNext(spaces[s].vmas, cursor);
        FragmentMeans(spaces[s].vmas, q.value);
        var backing := FindBinding(spaces[s].bindings, q.value.cookie);
        BackingFacts(spaces[s], store.nextObj, cursor);
        var chunkEnd := if q.value.end < end then q.value.end else end;
        ghost var before := store;
        if backing.value.AnonPrivate? {
          status := LoadEntries(s, cursor / PAGE_SIZE, chunkEnd / PAGE_SIZE);
        } else {
          status := LoadBacking(s, q.value, backing.value.obj, cursor, chunkEnd);
          SameMeaningTwice(spaces, ptes, old(store), ptes, before, ptes, store);
        }
        if status != Ok {
          return;
        }
        cursor := chunkEnd;
      }
    }

    method LoadEntries(s: nat, first: nat, last: nat) returns (status: Status)
      ensures FrameStatus(status)
    {
      status := Ok;
      var cursor := first;
      while cursor < last && status == Ok
        invariant FrameStatus(status)
        decreases last - cursor, status == Ok
      {
        var page := FindNextPage(s, cursor, last);
        if page.None? {
          return;
        }
        status := EnsureResident(ptes[Key(s, page.value)].frame);
        cursor := page.value + 1;
      }
    }

    method LoadBacking(s: nat, q: Range, obj: nat, start: nat, end: nat) returns (status: Status)
      requires Valid() && obj < store.nextObj && q.start <= start
      modifies `store, `counts
      ensures Valid() && store.nextObj == old(store.nextObj) && FrameStatus(status)
      ensures SameMeaning(spaces, ptes, old(store), spaces, ptes, store)
    {
      hide Counted, Seg, AllRight, SpacesOk, TlbsOk, StoreOk, SameMeaning, Grown;
      SameMeaningAlways(spaces, ptes, store);
      status := Ok;
      var address := start;
      while address < end
        invariant Valid() && store.nextObj == old(store.nextObj) && status == Ok && start <= address
        invariant SameMeaning(spaces, ptes, old(store), spaces, ptes, store)
      {
        var k := KeyAt(s, address);
        if k in ptes {
          status := EnsureResident(ptes[k].frame);
        } else {
          ghost var before := store;
          var frame;
          status, frame := GetFrame(Some(Ref(obj, q.offset + (address - q.start))));
          GrowingKeeps(spaces, ptes, before, store);
          GrownMeaning(spaces, ptes, before, store);
          SameMeaningTwice(spaces, ptes, old(store), ptes, before, ptes, store);
          if status == Ok {
            status := EnsureResident(frame);
          }
        }
        if status != Ok {
          return;
        }
        address := address + PAGE_SIZE;
      }
    }

    /** minimm_madvise */
    method Madvise(s: nat, address: nat, length: nat, advice: Advice) returns (status: Status)
      requires Valid() && s in spaces
      modifies `ptes, `counts, `tlbs, `store
      ensures Valid() && store.nextObj == old(store.nextObj) && (advice != WillNeed ==> store == old(store))
      ensures status == InvalidArgument <==> !AlignedRange(address, length)
      ensures status != InvalidArgument && length > 0 ==>
                (status == NotFound <==> !Mapped(spaces[s].vmas, address, address + RoundedLength(length)))
      ensures status in {InvalidArgument, NotFound} || length == 0 ==> ptes == old(ptes) && store == old(store)
      ensures status !in {InvalidArgument, NotFound} && length > 0 ==>
                Advised(old(Now()), old(counts), s, address, address + RoundedLength(length), advice, status, Now())
    {
      hide Counted, Seg, AllRight, SpacesOk, SpaceOk, TlbsOk, StoreOk, At, AlignedLength, Advised, Mapped;
      if length == 0 {
        return if address >= ADDRESS_LIMIT || address % PAGE_SIZE != 0 then InvalidArgument else Ok;
      }
      var aligned := AlignedLength(length);
      if aligned.None? || !OperationRange(address, aligned.value) {
        return InvalidArgument;
      }
      AlignedFacts(length);
      OneSpace(spaces, store.nextObj, s);
      var mapped := AllMapped(s, address, address + aligned.value);
      if !mapped {
        return NotFound;
      }
      status := Follow(s, address, address + aligned.value, advice);
    }

    /** What minimm_madvise does once the whole range is known to be mapped */
    method Follow(s: nat, start: nat, end: nat, advice: Advice) returns (status: Status)
      requires Valid() && s in spaces && Mapped(spaces[s].vmas, start, end) && end <= ADDRESS_LIMIT
      requires start % PAGE_SIZE == 0 && end % PAGE_SIZE == 0
      modifies `ptes, `counts, `tlbs, `store
      ensures Valid() && store.nextObj == old(store.nextObj) && (advice != WillNeed ==> store == old(store))
      ensures FrameStatus(status) && Advised(old(Now()), old(counts), s, start, end, advice, status, Now())
    {
      hide Counted, Seg, AllRight, SpacesOk, TlbsOk, StoreOk, SameMeaning, Origins, InRange, InPages, Mapped,
           ObjectPage;
      SameMeaningAlways(spaces, ptes, store);
      InPagesIsInRange(s, start, end);
      var first, last := start / PAGE_SIZE, end / PAGE_SIZE;
      status := Ok;
      if advice == WillNeed {
        status := ReadAhead(s, start, end);
      } else if advice == Cold {
        status := ClearFlags(s, first, last, false);
      } else if advice == DontNeed || advice == PageOut {
        var ok := Reclaimable(s, first, last, advice == PageOut);
        if !ok {
          return Busy;
        }
        if advice == PageOut {
          status := ClearFlags(s, first, last, true);
        } else {
          DropPages(s, first, last);
          DroppingKeeps(spaces, old(ptes), spaces, ptes, store, s, first, last);
        }
      }
    }

    // ----------------------------------------------------------------
    // Spaces come and go; every run keeps the machine right
    // ----------------------------------------------------------------

    constructor (entries: nat)
      requires entries > 0
      ensures Valid() && spaces == map[] && ptes == map[]
    {
      tlbEntries := entries;
      spaces, ptes, counts, tlbs, nextSpace := map[], map[], map[], map[], 0;
      store := Store(map[], map[], map[], 0, 0);
    }

    /** minimm_space_create */
    method CreateSpace() returns (status: Status, s: nat)
      requires Valid()
      modifies `spaces, `tlbs, `nextSpace
      ensures Valid() && status in {Ok, OutOfMemory, Busy}
      ensures status != Ok ==> spaces == old(spaces)
      ensures status == Ok ==> s !in old(spaces) && spaces.Keys == old(spaces.Keys) + {s}
      ensures forall k :: Origins(spaces, ptes, store, k) == Origins(old(spaces), ptes, store, k)
    {
      hide Counted, AllRight, SpacesOk, TlbsOk, StoreOk;
      status, s := *, nextSpace;
      if status != Ok {
        if status != Busy {
          status := OutOfMemory;
        }
        return;
      }
      var sp := Space(EMPTY, [], 1, 0x100000, 0x1_0000_0000);
      NewTlbOk(tlbs, ptes, s, tlbEntries);
      EmptySpace(spaces, ptes, store, store.nextObj, s, sp);
      tlbs := tlbs[s := NoTranslations(tlbEntries)];
      spaces := spaces[s := sp];
      nextSpace := nextSpace + 1;
    }

    /** minimm_space_destroy */
    method Destroy(s: nat)
      requires Valid() && s in spaces
      modifies `spaces, `ptes, `counts, `tlbs
      ensures Valid() && CloseMeans(old(Now()), s, Now())
    {
      hide Counted, AllRight, SpacesOk, TlbsOk, StoreOk, Seg, Origins, Dropped, InPages;
      PagesBelow(ptes, counts);
      UnmapPages(s, 0, MAX_PAGE);
      DestroyedKeeps(spaces, old(ptes), ptes, store, store.nextObj, tlbs, s);
      tlbs := tlbs - {s};
      spaces := spaces - {s};
    }

    /** A new note: all zero, like any new object. */
    method OpenNote() returns (obj: nat)
      requires Valid()
      modifies `store
      ensures Valid() && obj == old(store.nextObj) && store.nextObj == obj + 1
      ensures SameMeaning(spaces, ptes, old(store), spaces, ptes, store)
      ensures forall offset :: ObjectPage(store, Ref(obj, offset)) == ZERO
    {
      hide Counted, AllRight, SpacesOk, TlbsOk, Seg, StoreOk, Origins, ObjectPage;
      obj := store.nextObj;
      MoreObjectsStore(spaces, ptes, store);
      MoreObjects(spaces, store.nextObj, store.nextObj + 1);
      store := store.(nextObj := store.nextObj + 1);
    }

    /** minimm_note_pwrite of a whole page: seen wherever the page still comes from the note. */
    method WriteNote(ref: Ref, bytes: Page)
      requires Valid() && ref.obj < store.nextObj
      modifies `store
      ensures Valid() && store.nextObj == old(store.nextObj)
      ensures forall k :: Origins(spaces, ptes, store, k) == Origins(spaces, ptes, old(store), k)
      ensures forall r :: ObjectPage(store, r) == if r == ref then bytes else ObjectPage(old(store), r)
    {
      hide Counted, AllRight, SpacesOk, TlbsOk, Seg;
      if ref in store.pages {
        var frame := store.pages[ref];
        assert frame in store.contents;
        SharedWriteIsShared(spaces, ptes, store, frame, ref, bytes);
        WritingKeeps(spaces, ptes, store, frame, bytes);
        hide StoreOk, Origins, ObjectPage;
        store := Written(store, frame, bytes);
      } else {
        UncachedWrite(spaces, ptes, store, ref, bytes);
        hide StoreOk, Origins, ObjectPage;
        store := store.(initial := store.initial[ref := bytes]);
      }
    }

    /** One operation of one space, or nothing if there is no such space */
    method Step(op: Op) returns (r: Reply)
      requires Valid()
      modifies this
      ensures Valid() && OpMeans(old(Now()), op, r, Now())
      ensures OthersKeep(old(spaces), old(ptes), old(store), spaces, ptes, store, op.space)
      ensures forall s :: s in old(spaces) && s != op.space ==> s in spaces
    {
      hide Counted, AllRight, SpacesOk, TlbsOk, StoreOk, Seg, Origins, ObjectPage, OthersKeep, OpMeans;
      if op.space !in spaces {
        NothingMeant(Now(), op);
        return Skipped;
      }
      if IsLayout(op) {
        r := LayoutStep(op);
      } else if op.ReadAt? || op.WriteAt? || op.Fault? {
        r := AccessStep(op);
      } else {
        r := AdviceStep(op);
      }
    }

    method AccessStep(op: Op) returns (r: Reply)
      requires Valid() && op.space in spaces && (op.ReadAt? || op.WriteAt? || op.Fault?)
      modifies this
      ensures Valid() && OpMeans(old(Now()), op, r, Now()) && spaces == old(spaces)
      ensures OthersKeep(old(spaces), old(ptes), old(store), spaces, ptes, store, op.space)
    {
      hide Counted, AllRight, SpacesOk, TlbsOk, StoreOk, Seg, Origins, ObjectPage, BytesAre, Put, MeaningOf, SameBytes;
      match op {
        case ReadAt(s, address, length) =>
          var status, bytes := ReadBytes(s, address, length);
          r := Reply(status, 0, bytes, 0);
        case WriteAt(s, address, data, edit) =>
          var status, count := WriteBytes(s, address, data, if edit then Edit else Write);
          r := Reply(status, 0, [], count);
        case Fault(s, address, access) =>
          var status := HandleFault(s, address, access);
          r := Reply(status, 0, [], 0);
      }
    }

    method AdviceStep(op: Op) returns (r: Reply)
      requires Valid() && op.space in spaces && (op.Lock? || op.Unlock? || op.Advise?)
      modifies this
      ensures Valid() && OpMeans(old(Now()), op, r, Now()) && spaces == old(spaces)
      ensures OthersKeep(old(spaces), old(ptes), old(store), spaces, ptes, store, op.space)
    {
      hide Counted, AllRight, SpacesOk, TlbsOk, StoreOk, Seg, Origins, ObjectPage, Mapped, SameOutside, OthersKeep,
           SameMeaning, SomeLocked, Pinned, DiscardMeans, InPages, LockEnd, LockRange, AlignedRange, AlignedLength,
           LayoutMeans, ReadMeans, WriteMeans, FaultMeans;
      var status;
      match op {
        case Lock(s, address, length) => status := Mlock(s, address, length);
        case Unlock(s, address, length) => status := Munlock(s, address, length);
        case Advise(s, address, length, advice) => status := Madvise(s, address, length, advice);
      }
      SameMeaningAlways(old(spaces), old(ptes), old(store));
      r := Reply(status, 0, [], 0);
      AdviceOthers(old(Now()), op, r, Now());
    }

    method LayoutStep(op: Op) returns (r: Reply)
      requires Valid() && op.space in spaces && IsLayout(op)
      modifies this
      ensures Valid() && OpMeans(old(Now()), op, r, Now())
      ensures OthersKeep(old(spaces), old(ptes), old(store), spaces, ptes, store, op.space)
      ensures forall s :: s in old(spaces) && s != op.space ==> s in spaces
    {
      hide Counted, AllRight, SpacesOk, TlbsOk, StoreOk, Seg, Origins, ObjectPage, At, Free, MappedBy, BindingOf,
           AlignedLength, MappedOrigin, MapLength, OthersKeep, MapMeans, UnmapMeans, ProtectMeans, ExtendMeans,
           CopyMeans, MoveMeans, ReadMeans, WriteMeans, FaultMeans, SameWorld, DiscardMeans, Vacant, AtDest, Checked,
           AlignedRange, HeapRange, HeapEndsAt, ProtValid, Within;
      r := Skipped;
      match op {
        case Map(s, args) =>
          if args.note.None? || args.note.value.obj < store.nextObj {
            var status, address := Mmap(s, args);
            r := Reply(status, address, [], 0);
          }
        case Unmap(s, address, length) =>
          var status := Munmap(s, address, length);
          r := Reply(status, 0, [], 0);
        case SetProt(s, address, length, prot) =>
          var status := Mprotect(s, address, length, prot);
          r := Reply(status, 0, [], 0);
        case Extend(s, start, end) =>
          var status := ExtendHeap(s, start, end);
          r := Reply(status, 0, [], 0);
        case ForkSpace(s) =>
          var status, child := Fork(s);
          r := Reply(status, child, [], 0);
        case CopyMapping(s, source, length, hint) =>
          var status, address := MappingCopy(s, source, length, hint);
          r := Reply(status, address, [], 0);
        case Move(s, oldAddress, oldLength, newLength, mayMove, fixed, dontUnmap, hint, noteSize) =>
          r := MoveStep(op);
        case Close(s) =>
          Destroy(s);
          r := Reply(Ok, 0, [], 0);
      }
      LayoutOthers(old(Now()), op, r, Now());
    }

    method MoveStep(op: Op) returns (r: Reply)
      requires Valid() && op.space in spaces && op.Move?
      modifies this
      ensures Valid() && r.Reply? && LayoutMeans(old(Now()), op, r, Now()) && spaces.Keys == old(spaces).Keys
    {
      hide Counted, AllRight, SpacesOk, TlbsOk, StoreOk, Seg, Origins, ObjectPage, BindingOf, MappedBy, AlignedLength,
           Resized, MovedAway, RoomWasVacant;
      var status, address;
      ghost var q, backing;
      status, address, q, backing := Mremap(op.space, op.address, op.oldLength, op.newLength, op.mayMove, op.fixed,
                                            op.dontUnmap,
                                            op.hint, op.noteSize);
      if status == Ok {
        assert MoveMeans(old(Now()), op, q, backing, address, Now());
      }
      r := Reply(status, address, [], 0);
    }

    /** One action of the system: an operation of a space, or something no space does. */
    method Act(action: Action) returns (r: Reply)
      requires Valid()
      modifies this
      ensures Valid() && ActionMeans(old(Now()), action, r, Now())
      ensures forall me :: me in old(spaces) && !IsBy(action, me) ==>
                             me in spaces && SpaceKept(old(spaces), old(ptes), old(store), spaces, ptes, store, me)
    {
      hide Counted, AllRight, SpacesOk, TlbsOk, StoreOk, Origins, ObjectPage, OpMeans;
      r := Skipped;
      match action {
        case By(op) => r := Step(op);
        case NewSpace =>
          var status, s := CreateSpace();
          r := Reply(status, s, [], 0);
        case NewNote =>
          var obj := OpenNote();
          r := Reply(Ok, obj, [], 0);
        case PutNote(ref, bytes) =>
          if ref.obj < store.nextObj {
            WriteNote(ref, bytes);
            r := Reply(Ok, 0, [], 0);
          }
      }
    }

    /**
     * Every run keeps the machine right, and each of its actions does to the pages of all
     * spaces and objects exactly what it means; a space that does nothing itself keeps the
     * origin of each of its pages, whatever the others do in between.
     */
    method Run(actions: seq<Action>) returns (rs: seq<Reply>, ghost trace: seq<World>)
      requires Valid()
      modifies this
      ensures Valid() && RunMeans(trace, actions, rs) && trace[0] == old(Now()) && trace[|actions|] == Now()
      ensures forall me :: me in old(spaces) && Idle(actions, me) ==>
                             me in spaces && SpaceKept(old(spaces), old(ptes), old(store), spaces, ptes, store, me)
    {
      hide Counted, AllRight, SpacesOk, TlbsOk, StoreOk, Origins, IsBy, ActionMeans;
      rs, trace := [], [Now()];
      var i := 0;
      while i < |actions|
        invariant i <= |actions| && Valid()
        invariant RunMeans(trace, actions[..i], rs) && trace[0] == old(Now()) && trace[i] == Now()
        invariant forall me :: me in old(spaces) && Idle(actions[..i], me) ==>
                                 me in spaces && SpaceKept(old(spaces), old(ptes), old(store), spaces, ptes, store, me)
      {
        ghost var spaces1, ptes1, store1 := spaces, ptes, store;
        var r := Act(actions[i]);
        RunExtends(trace, actions[..i], rs, Now(), actions[i], r);
        assert actions[..i + 1] == actions[..i] + [actions[i]];
        rs, trace := rs + [r], trace + [Now()];
        forall me | me in old(spaces) && Idle(actions[..i + 1], me)
          ensures me in spaces && SpaceKept(old(spaces), old(ptes), old(store), spaces, ptes, store, me)
        {
          assert actions[..i + 1][..i] == actions[..i] && actions[..i + 1][i] == actions[i];
          assert Idle(actions[..i], me);
          assert SpaceKept(spaces1, ptes1, store1, spaces, ptes, store, me);
        }
        i := i + 1;
      }
      assert actions[..i] == actions;
    }
  }
}