/**
 * What the pages of all address spaces mean, and when the page-table entries that
 * implement them are right (src/fault.c, src/fork.c, src/mapping.c,
 * src/mapping_backing.c).  Spaces share frames lazily: copy-on-write entries, note
 * pages and shared objects.  The meaning below has no frames in it.
 */
module Sharing {
  import opened Base
  import opened Vma

  /** One page of one address space; `page` is the address divided by PAGE_SIZE. */
  datatype Key = Key(space: nat, page: nat)

  /** minimm_pte_t with its flags spelled out. */
  datatype Pte = Pte(
    frame: nat, prot: Prot, cow: bool, shared: bool, accessed: bool, dirty: bool, locked: bool)

  /** One page of a shared anonymous object or of a note. */
  datatype Ref = Ref(obj: nat, offset: nat)

  datatype Backing = AnonPrivate | AnonShared(obj: nat) | NoteShared(obj: nat) | NotePrivate(obj: nat)

  datatype Binding = Binding(cookie: nat, backing: Backing)

  datatype Space = Space(vmas: Snapshot, bindings: seq<Binding>, nextCookie: nat, mmapBase: nat, brkBase: nat)

  /** Frame contents, the frames cached by objects, and what uncached object pages hold. */
  datatype Store = Store(
    contents: map<nat, Page>, pages: map<Ref, nat>, initial: map<Ref, Page>, nextFrame: nat, nextObj: nat)

  /** What a VMA and its binding say about one page. */
  datatype Segment = Segment(prot: Prot, max: Prot, shared: bool, source: Option<Ref>)

  /** Where the bytes of a page come from, as a program can observe it. */
  datatype Origin = Unmapped | FromObject(ref: Ref) | Own(bytes: Page)

  predicate CanWrite(p: Prot) {
    p.write || p.edit
  }

  /** minimm_page_table_effective_protection */
  function Effective(p: Prot, cow: bool): Prot {
    if cow then p.(write := false, edit := false) else p
  }

  predicate IsShared(b: Backing) {
    b.AnonShared? || b.NoteShared?
  }

  /** minimm_space_binding_find */
  function BindingOf(bs: seq<Binding>, cookie: nat): Option<Backing> {
    if bs == [] then None
    else if bs[0].cookie == cookie then Some(bs[0].backing)
    else BindingOf(bs[1..], cookie)
  }

  function SourceOf(b: Option<Backing>, offset: nat): Option<Ref> {
    if b.None? || b.value.AnonPrivate? then None else Some(Ref(b.value.obj, offset))
  }

  function SegmentOf(sp: Space, page: nat): Option<Segment> {
    var attr := At(sp.vmas.ranges, page * PAGE_SIZE);
    if attr.None? then None
    else Some(Segment(attr.value.prot, attr.value.max, attr.value.shared,
                      SourceOf(BindingOf(sp.bindings, attr.value.cookie), attr.value.offset)))
  }

  function Seg(spaces: map<nat, Space>, k: Key): Option<Segment> {
    if k.space in spaces then SegmentOf(spaces[k.space], k.page) else None
  }

  function Content(store: Store, frame: nat): Page {
    if frame in store.contents then store.contents[frame] else ZERO
  }

  function ObjectPage(store: Store, r: Ref): Page {
    if r in store.pages then Content(store, store.pages[r])
    else if r in store.initial then store.initial[r]
    else ZERO
  }

  /** `frame` is the cached frame of the object page `source`. */
  predicate IsObjectFrame(store: Store, source: Option<Ref>, frame: nat) {
    source.Some? && source.value in store.pages && store.pages[source.value] == frame
  }

  function Initial(seg: Option<Segment>): Origin {
    if seg.None? then Unmapped
    else if seg.value.source.Some? then FromObject(seg.value.source.value)
    else Own(ZERO)
  }

  function OriginOf(seg: Option<Segment>, ptes: map<Key, Pte>, store: Store, k: Key): Origin {
    if seg.None? || k !in ptes then Initial(seg)
    else if IsObjectFrame(store, seg.value.source, ptes[k].frame) then FromObject(seg.value.source.value)
    else Own(Content(store, ptes[k].frame))
  }

  /** The meaning of one page of one space. */
  function Origins(spaces: map<nat, Space>, ptes: map<Key, Pte>, store: Store, k: Key): Origin {
    OriginOf(Seg(spaces, k), ptes, store, k)
  }

  /** The bytes a program reads there. */
  function View(spaces: map<nat, Space>, ptes: map<Key, Pte>, store: Store, k: Key): Option<Page> {
    match Origins(spaces, ptes, store, k)
    case Unmapped => None
    case FromObject(r) => Some(ObjectPage(store, r))
    case Own(p) => Some(p)
  }

  // ------------------------------------------------------------------
  // When the entries are right
  // ------------------------------------------------------------------

  ghost predicate NoObjectFrame(store: Store, frame: nat) {
    forall r :: r in store.pages ==> store.pages[r] != frame
  }

  /** No other entry and no object uses the frame of `k`. */
  ghost predicate Alone(ptes: map<Key, Pte>, store: Store, k: Key)
    requires k in ptes
  {
    && NoObjectFrame(store, ptes[k].frame)
    && forall o :: o in ptes && o != k ==> ptes[o].frame != ptes[k].frame
  }

  /** A page whose writes must stay invisible to everybody else. */
  predicate PrivateWritable(seg: Segment) {
    !seg.shared && CanWrite(seg.max)
  }

  /** The entry agrees with its segment, apart from who else may use its frame. */
  ghost predicate Agrees(seg: Option<Segment>, store: Store, p: Pte) {
    && seg.Some? && p.frame in store.contents
    && p.prot == Effective(seg.value.prot, p.cow)
    && p.shared == seg.value.shared
    && (p.cow ==> PrivateWritable(seg.value))
    && (seg.value.shared ==> IsObjectFrame(store, seg.value.source, p.frame))
    && (forall r :: r in store.pages && store.pages[r] == p.frame ==> seg.value.source == Some(r))
  }

  ghost predicate PteOk(seg: Option<Segment>, ptes: map<Key, Pte>, store: Store, k: Key)
    requires k in ptes
  {
    && Agrees(seg, store, ptes[k])
    && (PrivateWritable(seg.value) && !ptes[k].cow ==> Alone(ptes, store, k))
  }

  ghost predicate StoreOk(store: Store) {
    && (forall f :: f in store.contents ==> f < store.nextFrame)
    && (forall r :: r in store.pages ==> store.pages[r] in store.contents && r.obj < store.nextObj)
    && (forall r :: r in store.initial ==> r.obj < store.nextObj)
    && (forall r, q :: r in store.pages && q in store.pages && store.pages[r] == store.pages[q] ==> r == q)
  }

  ghost predicate AllRight(spaces: map<nat, Space>, ptes: map<Key, Pte>, store: Store) {
    forall k {:trigger PteOk(Seg(spaces, k), ptes, store, k)} :: k in ptes ==> PteOk(Seg(spaces, k), ptes, store, k)
  }

  /** A write can reach the frame of `k`: then no other page of any space changes unless it shares the object. */
  lemma WritableFrame(spaces: map<nat, Space>, ptes: map<Key, Pte>, store: Store, k: Key)
    requires AllRight(spaces, ptes, store) && k in ptes
    requires ptes[k].prot.write && !ptes[k].cow && ProtWithin(Seg(spaces, k))
    ensures Seg(spaces, k).Some?
    ensures Seg(spaces, k).value.shared ==>
              Seg(spaces, k).value.source.Some? && IsObjectFrame(store, Seg(spaces, k).value.source, ptes[k].frame)
    ensures !Seg(spaces, k).value.shared ==> Alone(ptes, store, k)
  {
    assert PteOk(Seg(spaces, k), ptes, store, k);
  }

  predicate ProtWithin(seg: Option<Segment>) {
    seg.Some? ==> Within(seg.value.prot, seg.value.max)
  }

  function Written(store: Store, frame: nat, bytes: Page): Store {
    store.(contents := store.contents[frame := bytes])
  }

  /** Isolation: writing a private page changes that page of that space and nothing else at all. */
  lemma PrivateWriteIsIsolated(spaces: map<nat, Space>, ptes: map<Key, Pte>, store: Store, k: Key, bytes: Page)
    requires AllRight(spaces, ptes, store) && k in ptes && Seg(spaces, k).Some? && !Seg(spaces, k).value.shared
    requires ptes[k].prot.write && !ptes[k].cow && ProtWithin(Seg(spaces, k))
    ensures forall o :: Origins(spaces, ptes, Written(store, ptes[k].frame, bytes), o) ==
                        if o == k then Own(bytes) else Origins(spaces, ptes, store, o)
    ensures forall r :: ObjectPage(Written(store, ptes[k].frame, bytes), r) == ObjectPage(store, r)
  {
    hide Seg;
    WritableFrame(spaces, ptes, store, k);
    assert PteOk(Seg(spaces, k), ptes, store, k);
  }

  /** Sharing: writing a shared page changes that page of the object and the origin of no page. */
  lemma SharedWriteIsShared(spaces: map<nat, Space>, ptes: map<Key, Pte>, store: Store, frame: nat, ref: Ref,
                            bytes: Page)
    requires AllRight(spaces, ptes, store) && StoreOk(store) && IsObjectFrame(store, Some(ref), frame)
    ensures forall o :: Origins(spaces, ptes, Written(store, frame, bytes), o) == Origins(spaces, ptes, store, o)
    ensures forall r :: ObjectPage(Written(store, frame, bytes), r) == if r == ref then bytes else ObjectPage(store, r)
  {
    hide Seg;
    var w := Written(store, frame, bytes);
    forall o ensures Origins(spaces, ptes, w, o) == Origins(spaces, ptes, store, o) {
      if o in ptes {
        assert PteOk(Seg(spaces, o), ptes, store, o);
      }
    }
  }

  lemma WritingKeeps(spaces: map<nat, Space>, ptes: map<Key, Pte>, store: Store, frame: nat, bytes: Page)
    requires AllRight(spaces, ptes, store) && StoreOk(store) && frame in store.contents
    ensures AllRight(spaces, ptes, Written(store, frame, bytes)) && StoreOk(Written(store, frame, bytes))
  {
    hide Seg;
    var w := Written(store, frame, bytes);
    forall k | k in ptes ensures PteOk(Seg(spaces, k), ptes, w, k) {
      assert PteOk(Seg(spaces, k), ptes, store, k);
    }
  }

  // ------------------------------------------------------------------
  // New frames and newly cached object pages
  // ------------------------------------------------------------------

  /** Frames and cached pages may appear; nothing that could be read before changes. */
  ghost predicate Grown(was: Store, now: Store) {
    && (forall f :: f in was.contents ==> f in now.contents && now.contents[f] == was.contents[f])
    && (forall r :: r in was.pages ==> r in now.pages && now.pages[r] == was.pages[r])
    && (forall r :: r in now.pages && r !in was.pages ==> now.pages[r] !in was.contents)
    && (forall r :: ObjectPage(now, r) == ObjectPage(was, r))
  }

  lemma GrowingKeeps(spaces: map<nat, Space>, ptes: map<Key, Pte>, was: Store, now: Store)
    requires AllRight(spaces, ptes, was) && StoreOk(was) && Grown(was, now)
    ensures AllRight(spaces, ptes, now)
    ensures forall k :: Origins(spaces, ptes, now, k) == Origins(spaces, ptes, was, k)
  {
    hide Seg, ObjectPage;
    forall k | k in ptes ensures PteOk(Seg(spaces, k), ptes, now, k) {
      assert PteOk(Seg(spaces, k), ptes, was, k);
    }
    forall k ensures Origins(spaces, ptes, now, k) == Origins(spaces, ptes, was, k) {
      if k in ptes {
        assert PteOk(Seg(spaces, k), ptes, was, k);
      }
    }
  }

  // ------------------------------------------------------------------
  // One entry installed or replaced
  // ------------------------------------------------------------------

  /** A frame nobody names yet. */
  ghost predicate Unused(ptes: map<Key, Pte>, store: Store, frame: nat) {
    NoObjectFrame(store, frame) && forall o :: o in ptes ==> ptes[o].frame != frame
  }

  /** An entry a fault may install: an unused frame, or the object's own page kept from private writes. */
  ghost predicate Installable(seg: Option<Segment>, ptes: map<Key, Pte>, store: Store, p: Pte) {
    && Agrees(seg, store, p)
    && (Unused(ptes, store, p.frame)
        || (IsObjectFrame(store, seg.value.source, p.frame) && (p.cow || !PrivateWritable(seg.value))))
  }

  lemma InstallingKeeps(spaces: map<nat, Space>, ptes: map<Key, Pte>, store: Store, k: Key, p: Pte)
    requires AllRight(spaces, ptes, store) && Installable(Seg(spaces, k), ptes, store, p)
    ensures AllRight(spaces, ptes[k := p], store)
    ensures forall o :: o != k ==> Origins(spaces, ptes[k := p], store, o) == Origins(spaces, ptes, store, o)
  {
    hide Seg;
    var now := ptes[k := p];
    forall o | o in now ensures PteOk(Seg(spaces, o), now, store, o) {
      if o != k {
        assert PteOk(Seg(spaces, o), ptes, store, o);
      }
    }
  }

  // ------------------------------------------------------------------
  // Entries renamed: unmap, protect, fork, copy and move are all of this form
  // ------------------------------------------------------------------

  /** Entry `p` at a page of segment `seg` stands for entry `q` at a page of segment `was`. */
  ghost predicate StandsFor(seg: Option<Segment>, p: Pte, was: Option<Segment>, q: Pte) {
    && seg.Some? && was.Some? && p.frame == q.frame && p.shared == q.shared
    && seg.value.max == was.value.max && seg.value.shared == was.value.shared && seg.value.source == was.value.source
    && p.prot == Effective(seg.value.prot, p.cow)
    && (p.cow ==> PrivateWritable(seg.value))
    && (q.cow ==> p.cow)
  }

  ghost predicate RenamedAt(spaces: map<nat, Space>, ptes: map<Key, Pte>,
                            spaces': map<nat, Space>, ptes': map<Key, Pte>, back: map<Key, Key>, k: Key) {
    k in ptes' ==>
      k in back && back[k] in ptes && StandsFor(Seg(spaces', k), ptes'[k], Seg(spaces, back[k]), ptes[back[k]])
  }

  ghost predicate NotBothWritable(spaces': map<nat, Space>, ptes': map<Key, Pte>, back: map<Key, Key>, k: Key, o: Key) {
    k in ptes' && o in ptes' && k != o && k in back && o in back && back[k] == back[o] ==>
      ptes'[k].cow || (Seg(spaces', k).Some? && !PrivateWritable(Seg(spaces', k).value))
  }

  /**
   * Every new entry stands for an old one, and an entry that several new ones
   * stand for is copied on write.
   */
  ghost predicate Renamed(spaces: map<nat, Space>, ptes: map<Key, Pte>,
                          spaces': map<nat, Space>, ptes': map<Key, Pte>, back: map<Key, Key>) {
    && (forall k {:trigger RenamedAt(spaces, ptes, spaces', ptes', back, k)} ::
          RenamedAt(spaces, ptes, spaces', ptes', back, k))
    && (forall k, o {:trigger NotBothWritable(spaces', ptes', back, k, o)} ::
          NotBothWritable(spaces', ptes', back, k, o))
  }

  lemma RenamingKeeps(spaces: map<nat, Space>, ptes: map<Key, Pte>, spaces': map<nat, Space>, ptes': map<Key, Pte>,
                      store: Store, back: map<Key, Key>)
    requires AllRight(spaces, ptes, store) && Renamed(spaces, ptes, spaces', ptes', back)
    ensures AllRight(spaces', ptes', store)
    ensures forall k :: k in ptes' ==>
              k in back && Origins(spaces', ptes', store, k) == Origins(spaces, ptes, store, back[k])
  {
    hide Seg;
    forall k | k in ptes'
      ensures PteOk(Seg(spaces', k), ptes', store, k)
      ensures k in back && Origins(spaces', ptes', store, k) == Origins(spaces, ptes, store, back[k])
    {
      assert RenamedAt(spaces, ptes, spaces', ptes', back, k);
      assert PteOk(Seg(spaces, back[k]), ptes, store, back[k]);
      if PrivateWritable(Seg(spaces', k).value) && !ptes'[k].cow {
        forall o | o in ptes' && o != k ensures ptes'[o].frame != ptes'[k].frame {
          assert RenamedAt(spaces, ptes, spaces', ptes', back, o) && NotBothWritable(spaces', ptes', back, k, o);
        }
      }
    }
  }

  /** Nothing a program can observe differs. */
  ghost predicate SameMeaning(spaces: map<nat, Space>, ptes: map<Key, Pte>, store: Store,
                              spaces': map<nat, Space>, ptes': map<Key, Pte>, store': Store) {
    && (forall k :: Origins(spaces', ptes', store', k) == Origins(spaces, ptes, store, k))
    && (forall r :: ObjectPage(store', r) == ObjectPage(store, r))
  }

  // ------------------------------------------------------------------
  // The entries a fault installs
  // ------------------------------------------------------------------

  /** The entry of a page that is read from its backing for the first time. */
  lemma PopulatingKeeps(spaces: map<nat, Space>, ptes: map<Key, Pte>, store: Store, k: Key, p: Pte)
    requires AllRight(spaces, ptes, store) && StoreOk(store) && k !in ptes && p.frame in store.contents
    requires Seg(spaces, k).Some? && p.prot == Effective(Seg(spaces, k).value.prot, p.cow)
    requires p.shared == Seg(spaces, k).value.shared && (p.shared ==> Seg(spaces, k).value.source.Some?)
    requires p.cow <==> PrivateWritable(Seg(spaces, k).value) && Seg(spaces, k).value.source.Some?
    requires Seg(spaces, k).value.source.Some? ==> IsObjectFrame(store, Seg(spaces, k).value.source, p.frame)
    requires Seg(spaces, k).value.source.None? ==> Unused(ptes, store, p.frame) && Content(store, p.frame) == ZERO
    ensures AllRight(spaces, ptes[k := p], store)
    ensures SameMeaning(spaces, ptes, store, spaces, ptes[k := p], store)
  {
    hide Seg, ObjectPage;
    InstallingKeeps(spaces, ptes, store, k, p);
  }

  /** The entry of a private page that has just been copied. */
  lemma CopyingKeeps(spaces: map<nat, Space>, ptes: map<Key, Pte>, store: Store, k: Key, p: Pte)
    requires AllRight(spaces, ptes, store) && p.frame in store.contents && Unused(ptes, store, p.frame)
    requires Seg(spaces, k).Some? && !Seg(spaces, k).value.shared && p.prot == Seg(spaces, k).value.prot
    requires !p.cow && !p.shared
    ensures AllRight(spaces, ptes[k := p], store)
    ensures forall o :: Origins(spaces, ptes[k := p], store, o) ==
                        if o == k then Own(Content(store, p.frame)) else Origins(spaces, ptes, store, o)
  {
    hide Seg;
    InstallingKeeps(spaces, ptes, store, k, p);
    assert Origins(spaces, ptes[k := p], store, k) == Own(Content(store, p.frame));
    hide Origins;
  }

  /** Flags that carry no meaning: accessed, dirty and locked. */
  function Marked(p: Pte, accessed: bool, dirty: bool, locked: bool): Pte {
    p.(accessed := accessed, dirty := dirty, locked := locked)
  }

  lemma MarkingKeeps(spaces: map<nat, Space>, ptes: map<Key, Pte>, store: Store, k: Key, p: Pte)
    requires AllRight(spaces, ptes, store) && k in ptes && p == Marked(ptes[k], p.accessed, p.dirty, p.locked)
    ensures AllRight(spaces, ptes[k := p], store)
    ensures SameMeaning(spaces, ptes, store, spaces, ptes[k := p], store)
  {
    hide Seg, ObjectPage;
    var now := ptes[k := p];
    forall o | o in now ensures PteOk(Seg(spaces, o), now, store, o) {
      assert PteOk(Seg(spaces, o), ptes, store, o);
    }
  }

  function WithFrame(store: Store, frame: nat, bytes: Page): Store {
    store.(contents := store.contents[frame := bytes], nextFrame := frame + 1)
  }

  function WithPage(store: Store, r: Ref, frame: nat): Store {
    WithFrame(store, frame, ObjectPage(store, r)).(pages := store.pages[r := frame])
  }

  lemma FramesGrow(store: Store, bytes: Page)
    requires StoreOk(store)
    ensures StoreOk(WithFrame(store, store.nextFrame, bytes)) && Grown(store, WithFrame(store, store.nextFrame, bytes))
    ensures NoObjectFrame(WithFrame(store, store.nextFrame, bytes), store.nextFrame)
  {
  }

  lemma PagesGrow(store: Store, r: Ref)
    requires StoreOk(store) && r !in store.pages && r.obj < store.nextObj
    ensures StoreOk(WithPage(store, r, store.nextFrame)) && Grown(store, WithPage(store, r, store.nextFrame))
  {
  }
}
