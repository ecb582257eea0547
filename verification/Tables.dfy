/**
 * Bookkeeping around page-table entries: the map and pin counts that frames carry
 * (src/page_table.c), the translation cache (src/tlb.c) and the bindings of a space
 * (src/mapping_backing.c).
 */
module Tables {
  import opened Base
  import opened Vma
  import opened Sharing

  /** MINIMM_USER_ADDRESS_LIMIT in pages */
  const MAX_PAGE: nat := 0x8_0000_0000

  // ------------------------------------------------------------------
  // Map and pin counts
  // ------------------------------------------------------------------

  /** How many entries map a frame, and how many of those lock it. */
  datatype Counts = Counts(maps: nat, pins: nat)

  ghost function Namers(ptes: map<Key, Pte>, frame: nat): set<Key> {
    set k | k in ptes && ptes[k].frame == frame
  }

  ghost function Lockers(ptes: map<Key, Pte>, frame: nat): set<Key> {
    set k | k in ptes && ptes[k].frame == frame && ptes[k].locked
  }

  ghost predicate Counted(ptes: map<Key, Pte>, counts: map<nat, Counts>) {
    && (forall k :: k in ptes ==> ptes[k].frame in counts && k.page < MAX_PAGE)
    && (forall f :: f in counts ==> counts[f] == Counts(|Namers(ptes, f)|, |Lockers(ptes, f)|))
  }

  function Bit(b: bool): nat {
    if b then 1 else 0
  }

  /** One more entry is one more namer of its frame, and one more locker if it is locked. */
  lemma OneMore(ptes: map<Key, Pte>, k: Key, p: Pte, frame: nat)
    requires k !in ptes
    ensures |Namers(ptes[k := p], frame)| == |Namers(ptes, frame)| + Bit(frame == p.frame)
    ensures |Lockers(ptes[k := p], frame)| == |Lockers(ptes, frame)| + Bit(frame == p.frame && p.locked)
  {
    assert Namers(ptes[k := p], frame) == if frame == p.frame then Namers(ptes, frame) + {k} else Namers(ptes, frame);
    assert Lockers(ptes[k := p], frame) ==
           if frame == p.frame && p.locked then Lockers(ptes, frame) + {k} else Lockers(ptes, frame);
  }

  function Counting(counts: map<nat, Counts>, p: Pte): map<nat, Counts>
    requires p.frame in counts
  {
    counts[p.frame := Counts(counts[p.frame].maps + 1, counts[p.frame].pins + Bit(p.locked))]
  }

  function Uncounting(counts: map<nat, Counts>, p: Pte): map<nat, Counts>
    requires p.frame in counts && counts[p.frame].maps >= 1 && counts[p.frame].pins >= Bit(p.locked)
  {
    counts[p.frame := Counts(counts[p.frame].maps - 1, counts[p.frame].pins - Bit(p.locked))]
  }

  lemma MappingCounts(ptes: map<Key, Pte>, counts: map<nat, Counts>, k: Key, p: Pte)
    requires Counted(ptes, counts) && k !in ptes && p.frame in counts && k.page < MAX_PAGE
    ensures Counted(ptes[k := p], Counting(counts, p))
  {
    hide Namers, Lockers;
    forall f | f in counts
      ensures |Namers(ptes[k := p], f)| == |Namers(ptes, f)| + Bit(f == p.frame)
      ensures |Lockers(ptes[k := p], f)| == |Lockers(ptes, f)| + Bit(f == p.frame && p.locked)
    {
      OneMore(ptes, k, p, f);
    }
  }

  lemma UnmappingCounts(ptes: map<Key, Pte>, counts: map<nat, Counts>, k: Key)
    requires Counted(ptes, counts) && k in ptes
    ensures ptes[k].frame in counts
    ensures counts[ptes[k].frame].maps >= 1 && counts[ptes[k].frame].pins >= Bit(ptes[k].locked)
    ensures Counted(ptes - {k}, Uncounting(counts, ptes[k]))
  {
    hide Namers, Lockers;
    var now, p := ptes - {k}, ptes[k];
    assert ptes == now[k := p];
    forall f | f in counts
      ensures |Namers(now, f)| == |Namers(ptes, f)| - Bit(f == p.frame)
      ensures |Lockers(now, f)| == |Lockers(ptes, f)| - Bit(f == p.frame && p.locked)
    {
      OneMore(now, k, p, f);
    }
  }

  /** One entry replaced by another. */
  lemma OneReplaced(ptes: map<Key, Pte>, k: Key, p: Pte, frame: nat)
    requires k in ptes
    ensures |Namers(ptes, frame)| >= Bit(frame == ptes[k].frame)
    ensures |Lockers(ptes, frame)| >= Bit(frame == ptes[k].frame && ptes[k].locked)
    ensures |Namers(ptes[k := p], frame)| == |Namers(ptes, frame)| - Bit(frame == ptes[k].frame) + Bit(frame == p.frame)
    ensures |Lockers(ptes[k := p], frame)| ==
            |Lockers(ptes, frame)| - Bit(frame == ptes[k].frame && ptes[k].locked) + Bit(frame == p.frame && p.locked)
  {
    hide Namers, Lockers;
    var without := ptes - {k};
    assert ptes == without[k := ptes[k]] && ptes[k := p] == without[k := p];
    OneMore(without, k, ptes[k], frame);
    OneMore(without, k, p, frame);
  }

  /** Attributes change in place: only a changed lock flag moves a pin. */
  function Repinned(counts: map<nat, Counts>, was: Pte, p: Pte): map<nat, Counts>
    requires was.frame in counts
  {
    var c := counts[was.frame];
    if !was.locked && p.locked then counts[was.frame := Counts(c.maps, c.pins + 1)]
    else if was.locked && !p.locked && c.pins > 0 then counts[was.frame := Counts(c.maps, c.pins - 1)]
    else counts
  }

  lemma RepinningCounts(ptes: map<Key, Pte>, counts: map<nat, Counts>, k: Key, p: Pte)
    requires Counted(ptes, counts) && k in ptes && p.frame == ptes[k].frame
    ensures p.frame in counts && Repinned(counts, ptes[k], p).Keys == counts.Keys
    ensures Counted(ptes[k := p], Repinned(counts, ptes[k], p))
  {
    hide Namers, Lockers;
    forall f | f in counts
      ensures Repinned(counts, ptes[k], p)[f] == Counts(|Namers(ptes[k := p], f)|, |Lockers(ptes[k := p], f)|)
    {
      OneReplaced(ptes, k, p, f);
    }
  }

  /** A frame gives way to another: pin and map the new one, then unpin and unmap the old one. */
  function Moved(counts: map<nat, Counts>, was: Pte, p: Pte): map<nat, Counts>
    requires was.frame in counts && p.frame in counts
  {
    var other := p.frame != was.frame;
    var c := counts[p.frame];
    var arrived := counts[p.frame := Counts(c.maps + Bit(other), c.pins + Bit(p.locked))];
    var d := arrived[was.frame];
    if d.maps < Bit(other) || d.pins < Bit(was.locked) then arrived
    else arrived[was.frame := Counts(d.maps - Bit(other), d.pins - Bit(was.locked))]
  }

  lemma MovingCounts(ptes: map<Key, Pte>, counts: map<nat, Counts>, k: Key, p: Pte)
    requires Counted(ptes, counts) && k in ptes && p.frame in counts
    ensures ptes[k].frame in counts && Moved(counts, ptes[k], p).Keys == counts.Keys
    ensures Counted(ptes[k := p], Moved(counts, ptes[k], p))
  {
    hide Namers, Lockers;
    OneReplaced(ptes, k, p, ptes[k].frame);
    forall f | f in counts
      ensures Moved(counts, ptes[k], p)[f] == Counts(|Namers(ptes[k := p], f)|, |Lockers(ptes[k := p], f)|)
    {
      OneReplaced(ptes, k, p, f);
    }
  }

  /** A new frame starts unmapped and unpinned. */
  lemma NewFrameCounts(ptes: map<Key, Pte>, counts: map<nat, Counts>, frame: nat)
    requires Counted(ptes, counts) && frame !in counts
    ensures Counted(ptes, counts[frame := Counts(0, 0)])
  {
    assert Namers(ptes, frame) == {} && Lockers(ptes, frame) == {};
  }

  // ------------------------------------------------------------------
  // The translation cache
  // ------------------------------------------------------------------

  datatype Entry = Entry(page: nat, pte: Pte)

  /** A direct-mapped cache: slot `page % size`. */
  type Tlb = seq<Option<Entry>>

  ghost predicate EntryOk(t: Tlb, i: nat, s: nat, ptes: map<Key, Pte>)
    requires i < |t|
  {
    t[i].Some? ==> && i == t[i].value.page % |t|
                   && Key(s, t[i].value.page) in ptes && ptes[Key(s, t[i].value.page)] == t[i].value.pte
  }

  /** Every cached translation is the entry of the page table. */
  ghost predicate TlbOk(t: Tlb, s: nat, ptes: map<Key, Pte>) {
    |t| > 0 && forall i {:trigger t[i]} :: 0 <= i < |t| ==> EntryOk(t, i, s, ptes)
  }

  ghost predicate TlbsOk(tlbs: map<nat, Tlb>, ptes: map<Key, Pte>) {
    forall s :: s in tlbs ==> TlbOk(tlbs[s], s, ptes)
  }

  predicate InPages(k: Key, s: nat, first: nat, last: nat) {
    k.space == s && first <= k.page < last
  }

  /** Outside the given pages of one space the entries are what they were. */
  ghost predicate SameOutside(was: map<Key, Pte>, now: map<Key, Pte>, s: nat, first: nat, last: nat) {
    forall k :: !InPages(k, s, first, last) ==> (k in now <==> k in was) && (k in was ==> now[k] == was[k])
  }

  function Invalidated(t: Tlb, first: nat, last: nat): (r: Tlb)
    ensures |r| == |t|
    ensures forall i :: 0 <= i < |t| ==>
              r[i] == if t[i].Some? && first <= t[i].value.page < last then None else t[i]
  {
    seq(|t|, i requires 0 <= i < |t| => if t[i].Some? && first <= t[i].value.page < last then None else t[i])
  }

  lemma InvalidatedOk(tlbs: map<nat, Tlb>, was: map<Key, Pte>, now: map<Key, Pte>, s: nat, first: nat, last: nat)
    requires s in tlbs && TlbsOk(tlbs, was) && SameOutside(was, now, s, first, last)
    ensures TlbsOk(tlbs[s := Invalidated(tlbs[s], first, last)], now)
  {
    forall o | o in tlbs
      ensures TlbOk(tlbs[s := Invalidated(tlbs[s], first, last)][o], o, now)
    {
      var t := tlbs[s := Invalidated(tlbs[s], first, last)][o];
      assert TlbOk(tlbs[o], o, was);
      forall i | 0 <= i < |t| ensures EntryOk(t, i, o, now) {
        assert EntryOk(tlbs[o], i, o, was);
        if t[i].Some? {
          assert !InPages(Key(o, t[i].value.page), s, first, last);
        }
      }
    }
  }

  /** minimm_tlb_insert replaces whatever the slot held, so also a stale translation of the same page. */
  function Inserted(tlbs: map<nat, Tlb>, k: Key, p: Pte): map<nat, Tlb>
    requires k.space in tlbs && |tlbs[k.space]| > 0
  {
    tlbs[k.space := tlbs[k.space][k.page % |tlbs[k.space]| := Some(Entry(k.page, p))]]
  }

  lemma InsertedOk(tlbs: map<nat, Tlb>, was: map<Key, Pte>, now: map<Key, Pte>, k: Key)
    requires k.space in tlbs && k in now && TlbsOk(tlbs, was) && SameOutside(was, now, k.space, k.page, k.page + 1)
    ensures |tlbs[k.space]| > 0 && TlbsOk(Inserted(tlbs, k, now[k]), now)
  {
    assert TlbOk(tlbs[k.space], k.space, was);
    var after := Inserted(tlbs, k, now[k]);
    forall s | s in after ensures TlbOk(after[s], s, now) {
      assert TlbOk(tlbs[s], s, was);
      forall i | 0 <= i < |after[s]| ensures EntryOk(after[s], i, s, now) {
        assert EntryOk(tlbs[s], i, s, was);
      }
    }
  }

  lemma MoreEntriesOk(tlbs: map<nat, Tlb>, was: map<Key, Pte>, now: map<Key, Pte>)
    requires TlbsOk(tlbs, was) && forall k :: k in was ==> k in now && now[k] == was[k]
    ensures TlbsOk(tlbs, now)
  {
    forall s | s in tlbs ensures TlbOk(tlbs[s], s, now) {
      assert TlbOk(tlbs[s], s, was);
      forall i | 0 <= i < |tlbs[s]| ensures EntryOk(tlbs[s], i, s, now) {
        assert EntryOk(tlbs[s], i, s, was);
      }
    }
  }

  // ------------------------------------------------------------------
  // Bindings
  // ------------------------------------------------------------------

  ghost predicate Used(vmas: Snapshot, cookie: nat) {
    exists a: nat :: At(vmas.ranges, a).Some? && At(vmas.ranges, a).value.cookie == cookie
  }

  ghost predicate Distinct(bs: seq<Binding>) {
    forall i, j :: 0 <= i < j < |bs| ==> bs[i].cookie != bs[j].cookie
  }

  /** The mapping has a binding of its own kind. */
  ghost predicate Bound(bs: seq<Binding>, attr: Attr, nextCookie: nat) {
    && attr.cookie < nextCookie
    && BindingOf(bs, attr.cookie).Some?
    && IsShared(BindingOf(bs, attr.cookie).value) == attr.shared
  }

  ghost predicate BindingOk(b: Binding, vmas: Snapshot, nextCookie: nat, nextObj: nat) {
    && Used(vmas, b.cookie) && b.cookie < nextCookie
    && (b.backing.AnonPrivate? || b.backing.obj < nextObj)
  }

  /** Mappings and bindings of one space agree: each mapping has exactly one binding, each binding a mapping. */
  ghost predicate SpaceOk(sp: Space, nextObj: nat) {
    && SnapshotOk(sp.vmas)
    && Distinct(sp.bindings)
    && (forall a: nat :: At(sp.vmas.ranges, a).Some? ==> Bound(sp.bindings, At(sp.vmas.ranges, a).value, sp.nextCookie))
    && (forall i :: 0 <= i < |sp.bindings| ==> BindingOk(sp.bindings[i], sp.vmas, sp.nextCookie, nextObj))
    && sp.mmapBase % PAGE_SIZE == 0 && sp.mmapBase < ADDRESS_LIMIT
  }

  ghost predicate SpacesOk(spaces: map<nat, Space>, nextObj: nat) {
    forall s :: s in spaces ==> SpaceOk(spaces[s], nextObj)
  }

  lemma {:induction false} BindingFound(bs: seq<Binding>, cookie: nat)
    ensures BindingOf(bs, cookie).Some? ==>
              exists i :: 0 <= i < |bs| && bs[i] == Binding(cookie, BindingOf(bs, cookie).value)
    ensures BindingOf(bs, cookie).None? ==> forall i :: 0 <= i < |bs| ==> bs[i].cookie != cookie
  {
    if bs != [] && bs[0].cookie != cookie {
      BindingFound(bs[1..], cookie);
      if BindingOf(bs, cookie).Some? {
        var i :| 0 <= i < |bs[1..]| && bs[1..][i] == Binding(cookie, BindingOf(bs, cookie).value);
        assert bs[i + 1] == Binding(cookie, BindingOf(bs, cookie).value);
      } else {
        forall i | 0 <= i < |bs| ensures bs[i].cookie != cookie {
          assert i > 0 ==> bs[i] == bs[1..][i - 1];
        }
      }
    } else if bs != [] {
      assert bs[0] == Binding(cookie, BindingOf(bs, cookie).value);
    }
  }

  /** What a segment's page may rely on. */
  lemma SegmentOk(sp: Space, nextObj: nat, page: nat)
    requires SpaceOk(sp, nextObj) && SegmentOf(sp, page).Some?
    ensures page < MAX_PAGE && ProtWithin(SegmentOf(sp, page)) && ProtValid(SegmentOf(sp, page).value.prot)
    ensures ProtValid(SegmentOf(sp, page).value.max)
    ensures SegmentOf(sp, page).value.shared ==> SegmentOf(sp, page).value.source.Some?
    ensures SegmentOf(sp, page).value.source.Some? ==> SegmentOf(sp, page).value.source.value.obj < nextObj
  {
    hide SnapshotOk, Used;
    var attr := At(sp.vmas.ranges, page * PAGE_SIZE).value;
    assert Canonical(sp.vmas.ranges) by { SnapshotCanonical(sp.vmas); }
    var i := AtSomewhere(sp.vmas.ranges, page * PAGE_SIZE);
    AtCovered(sp.vmas.ranges, i, page * PAGE_SIZE);
    assert RangeValid(sp.vmas.ranges[i]);
    assert Bound(sp.bindings, attr, sp.nextCookie);
    BindingFound(sp.bindings, attr.cookie);
    var j :| 0 <= j < |sp.bindings|
             && sp.bindings[j] == Binding(attr.cookie, BindingOf(sp.bindings, attr.cookie).value);
    assert BindingOk(sp.bindings[j], sp.vmas, sp.nextCookie, nextObj);
  }

  lemma SnapshotCanonical(s: Snapshot)
    requires SnapshotOk(s)
    ensures Canonical(s.ranges)
  {
  }

  /** The bindings that some mapping still uses, in order. */
  ghost function Kept(bs: seq<Binding>, vmas: Snapshot): seq<Binding> {
    if bs == [] then []
    else if Used(vmas, bs[0].cookie) then [bs[0]] + Kept(bs[1..], vmas)
    else Kept(bs[1..], vmas)
  }

  lemma {:induction false} KeptFacts(bs: seq<Binding>, vmas: Snapshot)
    requires Distinct(bs)
    ensures Distinct(Kept(bs, vmas))
    ensures forall i :: 0 <= i < |Kept(bs, vmas)| ==> Kept(bs, vmas)[i] in bs && Used(vmas, Kept(bs, vmas)[i].cookie)
    ensures forall c :: Used(vmas, c) ==> BindingOf(Kept(bs, vmas), c) == BindingOf(bs, c)
  {
    hide Used;
    if bs != [] {
      KeptFacts(bs[1..], vmas);
      forall i | 0 <= i < |bs[1..]| ensures bs[1..][i].cookie != bs[0].cookie {
        assert bs[1..][i] == bs[i + 1];
      }
    }
  }

  /** minimm_vma_snapshot_contains_cookie */
  method ContainsCookie(vmas: Snapshot, cookie: nat) returns (found: bool)
    requires SnapshotOk(vmas)
    ensures found <==> Used(vmas, cookie)
  {
    SnapshotCanonical(vmas);
    hide SnapshotOk, At;
    var i := 0;
    while i < |vmas.ranges|
      invariant i <= |vmas.ranges|
      invariant forall j :: 0 <= j < i ==> vmas.ranges[j].cookie != cookie
    {
      if vmas.ranges[i].cookie == cookie {
        AtCovered(vmas.ranges, i, vmas.ranges[i].start);
        return true;
      }
      i := i + 1;
    }
    if Used(vmas, cookie) {
      var a: nat :| At(vmas.ranges, a).Some? && At(vmas.ranges, a).value.cookie == cookie;
      var j := AtSomewhere(vmas.ranges, a);
      AtCovered(vmas.ranges, j, a);
      assert false;
    }
    return false;
  }

  /** minimm_space_binding_prune */
  method Prune(bs: seq<Binding>, vmas: Snapshot) returns (kept: seq<Binding>)
    requires SnapshotOk(vmas)
    ensures kept == Kept(bs, vmas)
  {
    hide SnapshotOk, Used;
    kept := [];
    var rest := bs;
    while rest != []
      invariant kept + Kept(rest, vmas) == Kept(bs, vmas)
      decreases |rest|
    {
      var needed := ContainsCookie(vmas, rest[0].cookie);
      if needed {
        assert kept + Kept(rest, vmas) == (kept + [rest[0]]) + Kept(rest[1..], vmas);
        kept := kept + [rest[0]];
      }
      rest := rest[1..];
    }
  }

  /** Pruned bindings agree with the new mappings if the unpruned ones cover them. */
  lemma PrunedOk(sp: Space, vmas: Snapshot, bs: seq<Binding>, nextCookie: nat, nextObj: nat)
    requires SnapshotOk(vmas) && Distinct(bs) && sp.mmapBase % PAGE_SIZE == 0 && sp.mmapBase < ADDRESS_LIMIT
    requires forall a: nat :: At(vmas.ranges, a).Some? ==> Bound(bs, At(vmas.ranges, a).value, nextCookie)
    requires forall b :: b in bs ==> b.cookie < nextCookie && (b.backing.AnonPrivate? || b.backing.obj < nextObj)
    ensures SpaceOk(sp.(vmas := vmas, bindings := Kept(bs, vmas), nextCookie := nextCookie), nextObj)
    ensures forall a: nat :: At(vmas.ranges, a).Some? ==>
              BindingOf(Kept(bs, vmas), At(vmas.ranges, a).value.cookie) ==
                  BindingOf(bs, At(vmas.ranges, a).value.cookie)
  {
    hide SnapshotOk, At, BindingOf;
    KeptFacts(bs, vmas);
    forall a: nat | At(vmas.ranges, a).Some?
      ensures BindingOf(Kept(bs, vmas), At(vmas.ranges, a).value.cookie) ==
                BindingOf(bs, At(vmas.ranges, a).value.cookie)
    {
      assert Used(vmas, At(vmas.ranges, a).value.cookie);
    }
    hide Used, Kept;
  }
}
