/**
 * Copy-on-write note lineages (src/note.c).
 *
 * A snapshot is linked to its source and copies nothing; reads walk the
 * ancestors, writers first give every child that still inherits a page its own
 * copy, and a shrink saves only the pages that are cached somewhere along the
 * ancestor chain.  The reference model is an eager one: each note is simply a
 * sequence of pages, and a snapshot copies that sequence.  `NoteStore.Run`
 * proves that no run can tell the two apart.
 *
 * The list of children is a set: nothing depends on the order in which they are
 * visited.  Offsets inside a note are counted in pages; byte offsets appear only in the
 * read and write calls, as in the public interface.
 */
module Notes {
  import opened Base

  datatype Rights = Rights(read: bool, write: bool, edit: bool, share: bool, resize: bool)

  predicate RightsValid(r: Rights) {
    r.edit ==> r.write
  }

  /**
   * struct minimm_note.  `pages` are the cached frames by page index, `file` the
   * pages that the backing file holds (an absent page reads as zeros).
   */
  datatype Note = Note(
    size: nat, rights: Rights, external: bool,
    file: map<nat, Page>, pages: map<nat, Page>,
    parent: Option<nat>, children: set<nat>, inherited: nat,
    refs: nat, mappings: nat)

  type NoteMap = map<nat, Note>

  function FilePage(n: Note, p: nat): Page {
    if p in n.file then n.file[p] else ZERO
  }

  predicate Inherits(ns: NoteMap, id: nat, p: nat)
    requires id in ns
  {
    && ns[id].parent.Some?
    && ns[id].parent.value < id
    && ns[id].parent.value in ns
    && p < ns[id].inherited
  }

  /** What a reader of page `p` of note `id` sees. */
  function PageView(ns: NoteMap, id: nat, p: nat): Page
    requires id in ns
    decreases id
  {
    if p in ns[id].pages then ns[id].pages[p]
    else if Inherits(ns, id, p) then PageView(ns, ns[id].parent.value, p)
    else FilePage(ns[id], p)
  }

  ghost function View(ns: NoteMap, id: nat): (v: seq<Page>)
    requires id in ns
    ensures |v| == ns[id].size
    ensures forall p :: 0 <= p < |v| ==> v[p] == PageView(ns, id, p)
  {
    seq(ns[id].size, (p: nat) => PageView(ns, id, p))
  }

  type Views = map<nat, seq<Page>>

  /** The eager picture of a whole store. */
  ghost function AllViews(ns: NoteMap): (vs: Views)
    ensures vs.Keys == ns.Keys
  {
    map id | id in ns :: View(ns, id)
  }

  // ------------------------------------------------------------------
  // Invariants
  // ------------------------------------------------------------------

  /** Parent and child links agree, ids grow downwards, inheritance stays in bounds. */
  ghost predicate NoteLinked(ns: NoteMap, id: nat)
    requires id in ns
  {
    && ns[id].inherited <= ns[id].size
    && (ns[id].parent.None? ==> ns[id].inherited == 0)
    && (ns[id].parent.Some? ==>
          && ns[id].parent.value < id
          && ns[id].parent.value in ns
          && id in ns[ns[id].parent.value].children
          && ns[id].inherited <= ns[ns[id].parent.value].size
          && !ns[id].external)
    && (forall c :: c in ns[id].children ==> c in ns && ns[c].parent == Some(id))
    && (ns[id].external ==> ns[id].children == {})
  }

  ghost predicate Linked(ns: NoteMap) {
    forall id {:trigger NoteLinked(ns, id)} :: id in ns ==> NoteLinked(ns, id)
  }

  /** An uncached page of a temporary note has never reached its file. */
  ghost predicate Sparse(ns: NoteMap) {
    forall id :: id in ns ==>
      && (forall p :: p in ns[id].file ==> p < ns[id].size && (!ns[id].external ==> p in ns[id].pages))
      && (forall p :: p in ns[id].pages ==> p < ns[id].size)
  }

  /** No child of `id` reads page `p` through `id`. */
  ghost predicate Preserved(ns: NoteMap, id: nat, p: nat)
    requires id in ns
  {
    AllOwn(ns, ns[id].children, p)
  }

  ghost predicate AllOwn(ns: NoteMap, cs: set<nat>, p: nat) {
    forall c :: c in cs && c in ns && p < ns[c].inherited ==> p in ns[c].pages
  }

  function WithPages(n: Note, pages: map<nat, Page>): Note {
    n.(pages := pages)
  }

  /** `to` only caches pages that `from` would have read the same way. */
  ghost predicate CachedMore(from: NoteMap, to: NoteMap) {
    && from.Keys == to.Keys
    && forall id :: id in from ==>
         && to[id] == WithPages(from[id], to[id].pages)
         && (forall p :: p in from[id].pages ==> p in to[id].pages && to[id].pages[p] == from[id].pages[p])
         && (forall p :: p in to[id].pages && p !in from[id].pages ==>
               p < to[id].size && to[id].pages[p] == PageView(from, id, p))
  }

  ghost predicate OnlyPage(from: NoteMap, to: NoteMap, p: nat) {
    && from.Keys == to.Keys
    && forall id, q :: id in from && q in to[id].pages && q != p ==> q in from[id].pages
  }

  // ------------------------------------------------------------------
  // How views react to changes of the store
  // ------------------------------------------------------------------

  lemma {:induction false} CachingKeepsPage(from: NoteMap, to: NoteMap, id: nat, p: nat)
    requires Linked(from) && CachedMore(from, to) && id in from
    ensures PageView(to, id, p) == PageView(from, id, p)
    decreases id
  {
    assert NoteLinked(from, id);
    if p !in to[id].pages && Inherits(from, id, p) {
      CachingKeepsPage(from, to, from[id].parent.value, p);
    }
  }

  lemma CachingStaysLinked(from: NoteMap, to: NoteMap)
    requires Linked(from) && Sparse(from) && CachedMore(from, to)
    ensures Linked(to) && Sparse(to)
  {
    forall id | id in from ensures NoteLinked(to, id) {
      assert NoteLinked(from, id);
    }
  }

  lemma CachingKeepsViews(from: NoteMap, to: NoteMap)
    requires Linked(from) && CachedMore(from, to)
    ensures AllViews(to) == AllViews(from)
  {
    forall id | id in from ensures View(to, id) == View(from, id) {
      forall p | 0 <= p < from[id].size ensures PageView(to, id, p) == PageView(from, id, p) {
        CachingKeepsPage(from, to, id, p);
      }
    }
  }

  lemma CachingComposes(a: NoteMap, b: NoteMap, c: NoteMap)
    requires Linked(a) && CachedMore(a, b) && CachedMore(b, c)
    ensures CachedMore(a, c)
  {
    forall id, p | id in a && p in c[id].pages && p !in b[id].pages
      ensures c[id].pages[p] == PageView(a, id, p)
    {
      CachingKeepsPage(a, b, id, p);
    }
  }

  function CacheOne(ns: NoteMap, id: nat, p: nat, frame: Page): NoteMap
    requires id in ns
  {
    ns[id := WithPages(ns[id], ns[id].pages[p := frame])]
  }

  lemma CachingOne(from: NoteMap, ns: NoteMap, id: nat, p: nat, frame: Page)
    requires Linked(from) && Sparse(from) && CachedMore(from, ns)
    requires id in ns && p < ns[id].size && p !in ns[id].pages
    requires frame == PageView(from, id, p)
    ensures CachedMore(from, CacheOne(ns, id, p, frame))
    ensures Linked(CacheOne(ns, id, p, frame)) && Sparse(CacheOne(ns, id, p, frame))
  {
    CachingKeepsPage(from, ns, id, p);
    CachingStaysLinked(from, CacheOne(ns, id, p, frame));
  }

  /** Giving one child its own copy of a page it still inherits. */
  lemma PreservingOne(from: NoteMap, ns: NoteMap, id: nat, child: nat, p: nat, frame: Page)
    requires Linked(from) && Sparse(from) && CachedMore(from, ns) && OnlyPage(from, ns, p)
    requires id in ns && child in ns[id].children && child in ns
    requires p < ns[child].inherited && p !in ns[child].pages && frame == PageView(from, id, p)
    ensures CachedMore(from, CacheOne(ns, child, p, frame)) && OnlyPage(from, CacheOne(ns, child, p, frame), p)
  {
    assert NoteLinked(from, id) && NoteLinked(from, child);
    assert frame == PageView(from, child, p);
    CachingOne(from, ns, child, p, frame);
  }

  lemma FileShape(ns: NoteMap, id: nat, file: map<nat, Page>)
    requires id in ns
    ensures WithFile(ns, id, file).Keys == ns.Keys && WithFile(ns, id, file)[id].file == file
    ensures forall j :: j in ns ==> WithFile(ns, id, file)[j] == ns[j].(file := WithFile(ns, id, file)[j].file)
  {
  }

  lemma CachedShape(from: NoteMap, to: NoteMap, id: nat)
    requires CachedMore(from, to) && id in from
    ensures id in to && to[id].size == from[id].size && to[id].mappings == from[id].mappings
    ensures to[id].children == from[id].children
  {
  }

  lemma CachingKeepsPreserved(from: NoteMap, to: NoteMap, id: nat, p: nat)
    requires CachedMore(from, to) && id in from && Preserved(from, id, p)
    ensures Preserved(to, id, p)
  {
  }

  /** The copy that a writer caches last */
  lemma CachingPreserved(from: NoteMap, ns: NoteMap, id: nat, p: nat, frame: Page)
    requires Linked(from) && Sparse(from) && CachedMore(from, ns) && id in ns && p < ns[id].size && p !in ns[id].pages
    requires frame == PageView(from, id, p) && Preserved(ns, id, p)
    ensures CachedMore(from, CacheOne(ns, id, p, frame)) && Preserved(CacheOne(ns, id, p, frame), id, p)
  {
    hide Sparse, Linked;
    CachingOne(from, ns, id, p, frame);
    CachingKeepsPage(from, ns, id, p);
    CachingStaysLinked(from, ns);
    CachingOne(ns, ns, id, p, frame);
    CachingKeepsPreserved(ns, CacheOne(ns, id, p, frame), id, p);
  }

  /** Storing into a page that no child reads through changes that one page of that one note. */
  lemma {:induction false} StoreChangesOnePage(ns: NoteMap, id: nat, p: nat, x: Page, j: nat, q: nat)
    requires Linked(ns) && id in ns && Preserved(ns, id, p) && j in ns
    ensures PageView(ns[id := ns[id].(pages := ns[id].pages[p := x])], j, q)
         == if j == id && q == p then x else PageView(ns, j, q)
    decreases j
  {
    var to := ns[id := ns[id].(pages := ns[id].pages[p := x])];
    assert NoteLinked(ns, j);
    if q !in to[j].pages && Inherits(ns, j, q) {
      assert j in ns[ns[j].parent.value].children;
      StoreChangesOnePage(ns, id, p, x, ns[j].parent.value, q);
    }
  }

  /** Views depend only on what a read walks over. */
  lemma {:induction false} ReadsAgree(from: NoteMap, to: NoteMap, id: nat, p: nat)
    requires Linked(from) && id in from && from.Keys <= to.Keys
    requires forall j :: j in from ==>
               && to[j].pages == from[j].pages && to[j].file == from[j].file
               && to[j].parent == from[j].parent && to[j].inherited == from[j].inherited
    ensures PageView(to, id, p) == PageView(from, id, p)
    decreases id
  {
    assert NoteLinked(from, id);
    if p !in from[id].pages && Inherits(from, id, p) {
      ReadsAgree(from, to, from[id].parent.value, p);
    }
  }

  // ------------------------------------------------------------------
  // The eager reference model
  // ------------------------------------------------------------------

  /** A sequence of pages with `data` written from byte `offset` on. */
  ghost function WriteBytes(v: seq<Page>, offset: nat, data: seq<Byte>): (w: seq<Page>)
    ensures |w| == |v|
  {
    seq(|v|, (i: nat) requires i < |v| => WritePage(v[i], i * PAGE_SIZE, offset, data))
  }

  /** The share of such a write that falls into the page starting at byte `start`. */
  function WritePage(page: Page, start: nat, offset: nat, data: seq<Byte>): Page {
    seq(PAGE_SIZE, (k: nat) requires k < PAGE_SIZE =>
      if offset <= start + k < offset + |data| then data[start + k - offset] else page[k])
  }

  ghost function ReadBytes(v: seq<Page>, offset: nat, count: nat): (data: seq<Byte>)
    requires offset + count <= |v| * PAGE_SIZE
    ensures |data| == count
  {
    seq(count, (k: nat) requires k < count => v[(offset + k) / PAGE_SIZE][(offset + k) % PAGE_SIZE])
  }

  ghost function Resized(v: seq<Page>, size: nat): (w: seq<Page>)
    ensures |w| == size
  {
    seq(size, (i: nat) requires i < size => if i < |v| then v[i] else ZERO)
  }

  lemma ResizedExtends(v: seq<Page>, n: nat)
    requires n < |v|
    ensures Resized(v[..n], |v|)[n := v[n]] == Resized(v[..n + 1], |v|)
  {
  }

  lemma CopiedOneMore(others: Views, id: nat, original: seq<Page>, n: nat)
    requires n < |original|
    ensures others[id := Resized(original[..n], |original|)][id := Resized(original[..n], |original|)[n := original[n]]]
         == others[id := Resized(original[..n + 1], |original|)]
  {
    ResizedExtends(original, n);
  }

  /** One more chunk, which lies inside page `p`. */
  lemma ReadChunk(v: seq<Page>, offset: nat, done: nat, chunk: nat, p: nat, within: nat)
    requires offset + done + chunk <= |v| * PAGE_SIZE
    requires p == (offset + done) / PAGE_SIZE && within == (offset + done) % PAGE_SIZE
    requires within + chunk <= PAGE_SIZE && p < |v|
    ensures ReadBytes(v, offset, done + chunk) == ReadBytes(v, offset, done) + v[p][within..within + chunk]
  {
    var whole := ReadBytes(v, offset, done + chunk);
    forall k | done <= k < done + chunk ensures whole[k] == v[p][within..within + chunk][k - done] {
      assert offset + k == p * PAGE_SIZE + (within + (k - done));
      assert (offset + k) / PAGE_SIZE == p && (offset + k) % PAGE_SIZE == within + (k - done);
    }
  }

  lemma WriteNothing(v: seq<Page>, offset: nat)
    ensures WriteBytes(v, offset, []) == v
  {
    forall i | 0 <= i < |v| ensures WriteBytes(v, offset, [])[i] == v[i] {
      assert WritePage(v[i], i * PAGE_SIZE, offset, []) == v[i];
    }
  }

  /** One more chunk, which lies inside page `p`. */
  lemma WriteChunk(v: seq<Page>, offset: nat, data: seq<Byte>, done: nat, chunk: nat, p: nat)
    requires done + chunk <= |data| && p < |v|
    requires p * PAGE_SIZE <= offset + done && offset + done + chunk <= (p + 1) * PAGE_SIZE
    ensures WriteBytes(v, offset, data[..done + chunk])
         == WriteBytes(v, offset, data[..done])
              [p := Splice(WriteBytes(v, offset, data[..done])[p],
                           offset + done - p * PAGE_SIZE, data[done..done + chunk])]
  {
    var before := WriteBytes(v, offset, data[..done]);
    var after := WriteBytes(v, offset, data[..done + chunk]);
    var within := offset + done - p * PAGE_SIZE;
    forall i | 0 <= i < |v|
      ensures after[i] == before[p := Splice(before[p], within, data[done..done + chunk])][i]
    {
      if i == p {
        forall k: nat | k < PAGE_SIZE
          ensures after[i][k] == Splice(before[p], within, data[done..done + chunk])[k]
        {
        }
      } else {
        PagesApart(i, p);
        forall k: nat | k < PAGE_SIZE ensures after[i][k] == before[i][k] {
        }
      }
    }
  }

  lemma PagesApart(i: nat, p: nat)
    requires i != p
    ensures (i + 1) * PAGE_SIZE <= p * PAGE_SIZE || (p + 1) * PAGE_SIZE <= i * PAGE_SIZE
  {
  }

  // ------------------------------------------------------------------
  // Structural changes
  // ------------------------------------------------------------------

  /** Two stores that read alike inside the bounds of the second have the same eager picture. */
  lemma SameReadsSameViews(from: NoteMap, to: NoteMap)
    requires from.Keys == to.Keys
    requires forall id :: id in from ==> to[id].size == from[id].size
    requires forall id: nat, p: nat :: id in from && p < from[id].size ==> PageView(to, id, p) == PageView(from, id, p)
    ensures AllViews(to) == AllViews(from)
  {
    forall id | id in from ensures View(to, id) == View(from, id) {
    }
  }

  /** The linking step of minimm_note_copy. */
  function Snapshot(ns: NoteMap, source: nat, id: nat, rights: Rights): NoteMap
    requires source in ns
  {
    ns[source := ns[source].(children := ns[source].children + {id}, refs := ns[source].refs + 1)]
      [id := Note(ns[source].size, rights, false, map[], map[], Some(source), {}, ns[source].size, 1, 0)]
  }

  lemma SnapshotStaysLinked(ns: NoteMap, source: nat, id: nat, rights: Rights)
    requires Linked(ns) && Sparse(ns) && source in ns && source < id && id !in ns && !ns[source].external
    ensures Linked(Snapshot(ns, source, id, rights)) && Sparse(Snapshot(ns, source, id, rights))
  {
    var to := Snapshot(ns, source, id, rights);
    forall j | j in to ensures NoteLinked(to, j) {
      if j != id {
        assert NoteLinked(ns, j);
      }
    }
  }

  lemma SnapshotReads(ns: NoteMap, source: nat, id: nat, rights: Rights, j: nat)
    requires Linked(ns) && source in ns && source < id && id !in ns
    requires j in Snapshot(ns, source, id, rights)
    ensures View(Snapshot(ns, source, id, rights), j) == View(ns, if j == id then source else j)
  {
    var to := Snapshot(ns, source, id, rights);
    var k := if j == id then source else j;
    forall p | 0 <= p < ns[k].size ensures PageView(to, j, p) == PageView(ns, k, p) {
      ReadsAgree(ns, to, k, p);
    }
  }

  /** No page is copied, yet every page is there. */
  lemma SnapshotReadsLikeItsSource(ns: NoteMap, source: nat, id: nat, rights: Rights)
    requires Linked(ns) && source in ns && source < id && id !in ns
    ensures AllViews(Snapshot(ns, source, id, rights)) == AllViews(ns)[id := View(ns, source)]
  {
    var to := Snapshot(ns, source, id, rights);
    forall j | j in to ensures AllViews(to)[j] == AllViews(ns)[id := View(ns, source)][j] {
      SnapshotReads(ns, source, id, rights, j);
    }
  }

  function Fresh(size: nat, rights: Rights, external: bool, file: map<nat, Page>): Note {
    Note(size, rights, external, file, map[], None, {}, 0, 1, 0)
  }

  ghost function FileView(file: map<nat, Page>, size: nat): seq<Page> {
    seq(size, (p: nat) => if p in file then file[p] else ZERO)
  }

  lemma AdoptStaysLinked(ns: NoteMap, id: nat, size: nat, rights: Rights, external: bool, file: map<nat, Page>)
    requires Linked(ns) && Sparse(ns) && id !in ns
    requires (forall p :: p in file ==> p < size) && (!external ==> file == map[])
    ensures Linked(ns[id := Fresh(size, rights, external, file)])
    ensures Sparse(ns[id := Fresh(size, rights, external, file)])
  {
    var to := ns[id := Fresh(size, rights, external, file)];
    forall j | j in to ensures NoteLinked(to, j) {
      if j != id {
        assert NoteLinked(ns, j);
      }
    }
  }

  lemma AdoptAddsView(ns: NoteMap, id: nat, size: nat, rights: Rights, external: bool, file: map<nat, Page>)
    requires Linked(ns) && id !in ns
    ensures AllViews(ns[id := Fresh(size, rights, external, file)]) == AllViews(ns)[id := FileView(file, size)]
  {
    var to := ns[id := Fresh(size, rights, external, file)];
    forall j | j in to ensures View(to, j) == AllViews(ns)[id := FileView(file, size)][j] {
      if j != id {
        forall p | 0 <= p < ns[j].size ensures PageView(to, j, p) == PageView(ns, j, p) {
          ReadsAgree(ns, to, j, p);
        }
      }
    }
  }

  /** Removing a childless note, as minimm_note_release does at each level of its cascade. */
  function Unlink(ns: NoteMap, id: nat): NoteMap
    requires id in ns
  {
    var rest := ns - {id};
    if ns[id].parent.Some? && ns[id].parent.value in rest
    then rest[ns[id].parent.value := ns[ns[id].parent.value].(children := ns[ns[id].parent.value].children - {id})]
    else rest
  }

  lemma {:induction false} UnlinkKeepsPage(ns: NoteMap, id: nat, j: nat, p: nat)
    requires Linked(ns) && id in ns && ns[id].children == {} && j in ns && j != id
    ensures PageView(Unlink(ns, id), j, p) == PageView(ns, j, p)
    decreases j
  {
    assert NoteLinked(ns, j) && NoteLinked(ns, id);
    if p !in ns[j].pages && Inherits(ns, j, p) {
      assert j in ns[ns[j].parent.value].children;
      UnlinkKeepsPage(ns, id, ns[j].parent.value, p);
    }
  }

  lemma UnlinkStaysLinked(ns: NoteMap, id: nat)
    requires Linked(ns) && Sparse(ns) && id in ns && ns[id].children == {}
    ensures Linked(Unlink(ns, id)) && Sparse(Unlink(ns, id))
  {
    var to := Unlink(ns, id);
    assert NoteLinked(ns, id);
    forall j | j in to ensures NoteLinked(to, j) {
      assert NoteLinked(ns, j);
    }
  }

  lemma UnlinkKeepsViews(ns: NoteMap, id: nat)
    requires Linked(ns) && id in ns && ns[id].children == {}
    ensures AllViews(Unlink(ns, id)) == AllViews(ns) - {id}
  {
    var to := Unlink(ns, id);
    assert NoteLinked(ns, id);
    assert to.Keys == ns.Keys - {id};
    forall j | j in to ensures View(to, j) == View(ns, j) {
      forall p | 0 <= p < ns[j].size ensures PageView(to, j, p) == PageView(ns, j, p) {
        UnlinkKeepsPage(ns, id, j, p);
      }
    }
  }

  /** The last part of a resize: size, inheritance and page list are cut together. */
  function Cut(n: Note, size: nat): Note {
    n.(size := size,
       inherited := if n.inherited > size then size else n.inherited,
       pages := map p | p in n.pages && p < size :: n.pages[p],
       file := map p | p in n.file && p < size :: n.file[p])
  }

  lemma {:induction false} CutKeepsPage(ns: NoteMap, id: nat, size: nat, j: nat, p: nat)
    requires Linked(ns) && Sparse(ns) && id in ns && j in ns
    requires forall c :: c in ns[id].children ==> c in ns && ns[c].inherited <= size
    requires p < ns[j].size && (j == id ==> p < size)
    ensures PageView(ns[id := Cut(ns[id], size)], j, p) == PageView(ns, j, p)
    decreases j
  {
    assert NoteLinked(ns, j);
    if p !in ns[j].pages && Inherits(ns, j, p) {
      assert j in ns[ns[j].parent.value].children;
      CutKeepsPage(ns, id, size, ns[j].parent.value, p);
    }
  }

  lemma CutResizes(ns: NoteMap, id: nat, size: nat)
    requires Linked(ns) && Sparse(ns) && id in ns
    requires forall c :: c in ns[id].children ==> c in ns && ns[c].inherited <= size
    ensures var to := ns[id := Cut(ns[id], size)];
            Linked(to) && Sparse(to) && AllViews(to) == AllViews(ns)[id := Resized(View(ns, id), size)]
  {
    var to := ns[id := Cut(ns[id], size)];
    forall j | j in to
      ensures NoteLinked(to, j)
      ensures View(to, j) == if j == id then Resized(View(ns, id), size) else View(ns, j)
    {
      assert NoteLinked(ns, j);
      if ns[j].parent == Some(id) {
        assert j in ns[id].children;
      }
      forall p | 0 <= p < to[j].size && p < ns[j].size ensures PageView(to, j, p) == PageView(ns, j, p) {
        CutKeepsPage(ns, id, size, j, p);
      }
    }
  }

  /** Clamping what the children of `id` inherit, once nothing above `size` is read through `id` except zeros. */
  function Clamp(ns: NoteMap, id: nat, size: nat): (to: NoteMap)
    requires id in ns
  {
    map j | j in ns ::
      if j in ns[id].children && ns[j].inherited > size then ns[j].(inherited := size) else ns[j]
  }

  lemma {:induction false} ClampKeepsPage(ns: NoteMap, id: nat, size: nat, j: nat, p: nat)
    requires Linked(ns) && Sparse(ns) && id in ns && j in ns
    requires forall q :: size <= q < ns[id].size ==> Preserved(ns, id, q) || PageView(ns, id, q) == ZERO
    ensures PageView(Clamp(ns, id, size), j, p) == PageView(ns, j, p)
    decreases j
  {
    assert NoteLinked(ns, j) && NoteLinked(ns, id);
    if p !in ns[j].pages && Inherits(ns, j, p) {
      assert j in ns[ns[j].parent.value].children;
      ClampKeepsPage(ns, id, size, ns[j].parent.value, p);
    }
  }

  lemma ClampStaysLinked(ns: NoteMap, id: nat, size: nat)
    requires Linked(ns) && Sparse(ns) && id in ns
    ensures Linked(Clamp(ns, id, size)) && Sparse(Clamp(ns, id, size))
    ensures forall c :: c in ns[id].children ==> c in ns && Clamp(ns, id, size)[c].inherited <= size
  {
    var to := Clamp(ns, id, size);
    assert NoteLinked(ns, id);
    forall j | j in ns ensures NoteLinked(to, j) {
      assert NoteLinked(ns, j);
    }
  }

  lemma ClampKeepsViews(ns: NoteMap, id: nat, size: nat)
    requires Linked(ns) && Sparse(ns) && id in ns
    requires forall q :: size <= q < ns[id].size ==> Preserved(ns, id, q) || PageView(ns, id, q) == ZERO
    ensures AllViews(Clamp(ns, id, size)) == AllViews(ns)
  {
    var to := Clamp(ns, id, size);
    forall j: nat, p: nat | j in ns && p < ns[j].size ensures PageView(to, j, p) == PageView(ns, j, p) {
      ClampKeepsPage(ns, id, size, j, p);
    }
    SameReadsSameViews(ns, to);
  }

  function WithFile(ns: NoteMap, id: nat, file: map<nat, Page>): NoteMap
    requires id in ns
  {
    ns[id := ns[id].(file := file)]
  }

  /** Writing cached pages back to the file is invisible. */
  lemma {:induction false} WritebackKeepsPage(ns: NoteMap, id: nat, file: map<nat, Page>, j: nat, p: nat)
    requires Linked(ns) && id in ns && j in ns
    requires forall q :: q !in ns[id].pages ==> FilePage(ns[id], q) == FilePage(ns[id].(file := file), q)
    ensures PageView(WithFile(ns, id, file), j, p) == PageView(ns, j, p)
    decreases j
  {
    assert NoteLinked(ns, j);
    if p !in ns[j].pages && Inherits(ns, j, p) {
      WritebackKeepsPage(ns, id, file, ns[j].parent.value, p);
    }
  }

  lemma WritebackStaysLinked(ns: NoteMap, id: nat, file: map<nat, Page>)
    requires Linked(ns) && Sparse(ns) && id in ns
    requires file.Keys <= ns[id].file.Keys + ns[id].pages.Keys
    ensures Linked(WithFile(ns, id, file)) && Sparse(WithFile(ns, id, file))
  {
    var to := WithFile(ns, id, file);
    forall j | j in ns ensures NoteLinked(to, j) {
      assert NoteLinked(ns, j);
    }
  }

  lemma WritebackKeepsViews(ns: NoteMap, id: nat, file: map<nat, Page>)
    requires Linked(ns) && id in ns
    requires forall q :: q !in ns[id].pages ==> FilePage(ns[id], q) == FilePage(ns[id].(file := file), q)
    ensures AllViews(WithFile(ns, id, file)) == AllViews(ns)
  {
    var to := WithFile(ns, id, file);
    forall j: nat, p: nat | j in ns && p < ns[j].size ensures PageView(to, j, p) == PageView(ns, j, p) {
      WritebackKeepsPage(ns, id, file, j, p);
    }
    SameReadsSameViews(ns, to);
  }

  /**
   * While a shrink walks the ancestors: page `q` is safe to cut off, or it is still
   * read as page `q` of the ancestor about to be visited.
   */
  ghost predicate Settled(base: NoteMap, ns: NoteMap, id: nat, q: nat, owner: Option<nat>, visible: nat)
    requires id in base && id in ns && (owner.Some? ==> owner.value in base)
  {
    || Preserved(ns, id, q)
    || PageView(base, id, q) == ZERO
    || (owner.Some? && q < visible && PageView(base, id, q) == PageView(base, owner.value, q))
  }

  ghost predicate OwnedPreserved(ns: NoteMap, id: nat, owner: nat, size: nat, end: nat, visible: nat)
    requires id in ns && owner in ns
  {
    forall q :: size <= q < end && q < visible && q in ns[owner].pages ==> Preserved(ns, id, q)
  }

  lemma OwnedPreservedExtends(from: NoteMap, to: NoteMap, id: nat, owner: nat, size: nat, p: nat, visible: nat)
    requires CachedMore(from, to) && OnlyPage(from, to, p) && id in from && owner in from
    requires OwnedPreserved(from, id, owner, size, p, visible) && Preserved(to, id, p)
    ensures OwnedPreserved(to, id, owner, size, p + 1, visible)
  {
    forall q | size <= q < p && q < visible && q in to[owner].pages ensures Preserved(to, id, q) {
      CachingKeepsPreserved(from, to, id, q);
    }
  }

  lemma SettledStays(base: NoteMap, from: NoteMap, to: NoteMap, id: nat, q: nat, owner: Option<nat>, visible: nat)
    requires CachedMore(from, to) && id in base && id in from && (owner.Some? ==> owner.value in base)
    requires Settled(base, from, id, q, owner, visible)
    ensures Settled(base, to, id, q, owner, visible)
  {
    if Preserved(from, id, q) {
      CachingKeepsPreserved(from, to, id, q);
    }
  }

  ghost predicate InheritsBelow(ns: NoteMap, id: nat, end: nat)
    requires id in ns
  {
    forall c :: c in ns[id].children && c in ns ==> ns[c].inherited <= end
  }

  lemma ExternalHasNoFamily(ns: NoteMap, id: nat)
    requires Linked(ns) && id in ns
    ensures ns[id].children != {} ==> !ns[id].external
    ensures ns[id].parent.Some? ==>
              && ns[id].parent.value < id && ns[id].parent.value in ns
              && !ns[ns[id].parent.value].external
  {
    assert NoteLinked(ns, id);
    if ns[id].parent.Some? {
      assert NoteLinked(ns, ns[id].parent.value);
    }
  }

  /** One ancestor further: what it does not cache is either inherited in turn or zero. */
  lemma SettledUpwards(base: NoteMap, ns: NoteMap, id: nat, q: nat, owner: nat, visible: nat)
    requires Linked(base) && Sparse(base) && CachedMore(base, ns) && id in base && owner in base
    requires base[id].children != {} ==> !base[owner].external
    requires Settled(base, ns, id, q, Some(owner), visible)
    requires q < visible && q in ns[owner].pages ==> Preserved(ns, id, q)
    ensures base[owner].parent.Some? ==> base[owner].parent.value in base
    ensures Settled(base, ns, id, q, base[owner].parent,
                    if visible > base[owner].inherited then base[owner].inherited else visible)
  {
    assert NoteLinked(base, owner);
  }

  ghost predicate AllSettled(base: NoteMap, ns: NoteMap, id: nat, size: nat, owner: Option<nat>, visible: nat)
    requires id in base && id in ns && (owner.Some? ==> owner.value in base)
  {
    forall q: nat :: size <= q < base[id].size ==> Settled(base, ns, id, q, owner, visible)
  }

  /** How far the parent of `owner` is still visible where `owner` is up to `visible` */
  function VisibleAbove(ns: NoteMap, owner: nat, visible: nat): nat
    requires owner in ns
  {
    if ns[owner].parent.Some? && visible > ns[owner].inherited then ns[owner].inherited else visible
  }

  lemma WalkOneUp(base: NoteMap, from: NoteMap, to: NoteMap, id: nat, size: nat, end: nat, owner: nat, visible: nat)
    requires Linked(base) && Sparse(base) && CachedMore(base, to) && CachedMore(from, to)
    requires id in base && id in from && owner in base && (base[id].children != {} ==> !base[owner].external)
    requires AllSettled(base, from, id, size, Some(owner), visible)
    requires InheritsBelow(base, id, end) && OwnedPreserved(to, id, owner, size, end, visible)
    ensures base[owner].parent.Some? ==> base[owner].parent.value in base
    ensures AllSettled(base, to, id, size, base[owner].parent, VisibleAbove(base, owner, visible))
  {
    ExternalHasNoFamily(base, owner);
    var limit := VisibleAbove(base, owner, visible);
    forall q: nat | size <= q < base[id].size ensures Settled(base, to, id, q, base[owner].parent, limit) {
      SettledStays(base, from, to, id, q, Some(owner), visible);
      assert end <= q ==> Preserved(to, id, q);
      SettledUpwards(base, to, id, q, owner, visible);
    }
  }

  /** Every reference has one owner: a handle, a child or a mapping (plus one being dropped). */
  ghost predicate Counted(ns: NoteMap, handles: map<nat, nat>, dropping: Option<nat>) {
    && handles.Keys == ns.Keys
    && forall id :: id in ns ==>
         && ns[id].refs > 0
         && ns[id].refs == handles[id] + |ns[id].children| + ns[id].mappings + (if dropping == Some(id) then 1 else 0)
  }

  /** A frame handed to a mapping is the note's own and no child reads through it. */
  ghost predicate EscapedOk(ns: NoteMap, escaped: map<nat, set<nat>>) {
    && escaped.Keys == ns.Keys
    && forall id :: id in ns && escaped[id] != {} ==> ns[id].mappings > 0 && EscapedFrom(ns, id, escaped[id])
  }

  ghost predicate EscapedFrom(ns: NoteMap, id: nat, pages: set<nat>)
    requires id in ns
  {
    forall p {:trigger p in pages} :: p in pages ==> p in ns[id].pages && Preserved(ns, id, p)
  }

  /** Escaped frames stay safe when page lists grow, and children leave or inherit less. */
  lemma EscapedStays(from: NoteMap, to: NoteMap, escaped: map<nat, set<nat>>, escaped': map<nat, set<nat>>)
    requires Linked(from) && EscapedOk(from, escaped) && escaped'.Keys == to.Keys
    requires forall id :: id in to && escaped'[id] != {} ==>
               && id in from && escaped'[id] == escaped[id]
               && to[id].mappings > 0 && to[id].children <= from[id].children
               && from[id].pages.Keys <= to[id].pages.Keys
    requires forall c, p :: c in from && c in to && p in from[c].pages && p < to[c].inherited ==> p in to[c].pages
    requires forall c :: c in from && c in to ==> to[c].inherited <= from[c].inherited
    ensures EscapedOk(to, escaped')
  {
    forall id | id in to && escaped'[id] != {} ensures EscapedFrom(to, id, escaped'[id]) {
      assert NoteLinked(from, id);
      forall p | p in escaped'[id] ensures p in to[id].pages && Preserved(to, id, p) {
        assert Preserved(from, id, p);
      }
    }
  }

  lemma AdoptBooks(ns: NoteMap, handles: map<nat, nat>, escaped: map<nat, set<nat>>, id: nat, note: Note)
    requires Linked(ns) && Counted(ns, handles, None) && EscapedOk(ns, escaped) && id !in ns
    requires note.refs == 1 && note.children == {} && note.mappings == 0
    ensures Counted(ns[id := note], handles[id := 1], None) && EscapedOk(ns[id := note], escaped[id := {}])
  {
    EscapedStays(ns, ns[id := note], escaped, escaped[id := {}]);
  }

  /** Operations that move pages around without touching the reference graph. */
  lemma BooksStay(from: NoteMap, to: NoteMap, handles: map<nat, nat>, escaped: map<nat, set<nat>>,
                  dropping: Option<nat>)
    requires Linked(from) && Counted(from, handles, dropping) && EscapedOk(from, escaped) && from.Keys == to.Keys
    requires forall id :: id in from ==>
               && to[id].refs == from[id].refs && to[id].children == from[id].children
               && to[id].mappings == from[id].mappings && to[id].inherited <= from[id].inherited
               && (from[id].pages.Keys <= to[id].pages.Keys
                   || (from[id].mappings == 0
                       && forall p :: p in from[id].pages && p < to[id].inherited ==> p in to[id].pages))
    ensures Counted(to, handles, dropping) && EscapedOk(to, escaped)
  {
    EscapedStays(from, to, escaped, escaped);
  }

  /** All of one page written back */
  lemma WrittenBack(ns: NoteMap, id: nat, p: nat, file: map<nat, Page>, handles: map<nat, nat>,
                    escaped: map<nat, set<nat>>, dropping: Option<nat>)
    requires Linked(ns) && Sparse(ns) && Counted(ns, handles, dropping) && EscapedOk(ns, escaped)
    requires id in ns && p in ns[id].pages && p in file && file == ns[id].file[p := file[p]]
    ensures var to := WithFile(ns, id, file);
            && Linked(to) && Sparse(to) && Counted(to, handles, dropping) && EscapedOk(to, escaped)
            && AllViews(to) == AllViews(ns) && to.Keys == ns.Keys && to[id].file == file
            && forall j :: j in ns ==> to[j] == ns[j].(file := to[j].file)
  {
    hide EscapedOk, Counted, Linked, Sparse, AllViews;
    WritebackStaysLinked(ns, id, file);
    WritebackKeepsViews(ns, id, file);
    FileShape(ns, id, file);
    BooksStay(ns, WithFile(ns, id, file), handles, escaped, dropping);
  }

  lemma ClampKeepsBooks(ns: NoteMap, handles: map<nat, nat>, escaped: map<nat, set<nat>>, id: nat, size: nat)
    requires Linked(ns) && Counted(ns, handles, None) && EscapedOk(ns, escaped) && id in ns
    ensures Counted(Clamp(ns, id, size), handles, None) && EscapedOk(Clamp(ns, id, size), escaped)
  {
    BooksStay(ns, Clamp(ns, id, size), handles, escaped, None);
  }

  lemma ViewOf(ns: NoteMap, id: nat)
    requires id in ns
    ensures AllViews(ns)[id] == View(ns, id)
  {
  }

  lemma CachingKeepsBooks(from: NoteMap, to: NoteMap, handles: map<nat, nat>, escaped: map<nat, set<nat>>)
    requires Linked(from) && Counted(from, handles, None) && EscapedOk(from, escaped) && CachedMore(from, to)
    ensures Counted(to, handles, None) && EscapedOk(to, escaped)
  {
    BooksStay(from, to, handles, escaped, None);
  }

  lemma SnapshotCounts(ns: NoteMap, handles: map<nat, nat>, source: nat, id: nat, rights: Rights)
    requires Linked(ns) && Counted(ns, handles, None) && source in ns && id !in ns
    ensures Counted(Snapshot(ns, source, id, rights), handles[id := 1], None)
  {
    SnapshotShape(ns, source, id, rights);
    hide Snapshot, Linked;
    var to, handles' := Snapshot(ns, source, id, rights), handles[id := 1];
    forall j | j in to ensures to[j].refs > 0 && to[j].refs == handles'[j] + |to[j].children| + to[j].mappings {
      assert j != id ==> ns[j].refs == handles[j] + |ns[j].children| + ns[j].mappings;
    }
  }

  lemma SnapshotShape(ns: NoteMap, source: nat, id: nat, rights: Rights)
    requires Linked(ns) && source in ns && id !in ns
    ensures var to := Snapshot(ns, source, id, rights);
            && to.Keys == ns.Keys + {id}
            && to[id].refs == 1 && to[id].children == {} && to[id].mappings == 0
            && to[source].refs == ns[source].refs + 1 && to[source].mappings == ns[source].mappings
            && |to[source].children| == |ns[source].children| + 1
            && forall j :: j in ns && j != source ==> to[j] == ns[j]
  {
    assert NoteLinked(ns, source);
    assert id !in ns[source].children;
  }

  lemma SnapshotEscapes(ns: NoteMap, escaped: map<nat, set<nat>>, source: nat, id: nat, rights: Rights)
    requires Linked(ns) && EscapedOk(ns, escaped) && source in ns && id !in ns
    requires ns[source].mappings == 0
    ensures EscapedOk(Snapshot(ns, source, id, rights), escaped[id := {}])
  {
    EscapedStays(ns, Snapshot(ns, source, id, rights), escaped, escaped[id := {}]);
  }

  /** minimm_note_resize once the children no longer depend on what goes away. */
  lemma CutBooks(ns: NoteMap, handles: map<nat, nat>, escaped: map<nat, set<nat>>, id: nat, size: nat)
    requires Linked(ns) && Sparse(ns) && Counted(ns, handles, None) && EscapedOk(ns, escaped) && id in ns
    requires ns[id].mappings == 0 || ns[id].size <= size
    ensures var to := ns[id := Cut(ns[id], size)]; Counted(to, handles, None) && EscapedOk(to, escaped)
  {
    assert NoteLinked(ns, id);
    BooksStay(ns, ns[id := Cut(ns[id], size)], handles, escaped, None);
  }

  lemma GrowingLeavesChildren(ns: NoteMap, id: nat, size: nat)
    requires Linked(ns) && id in ns && ns[id].size <= size
    ensures forall c :: c in ns[id].children ==> c in ns && ns[c].inherited <= size
  {
    assert NoteLinked(ns, id);
    forall c | c in ns[id].children ensures ns[c].inherited <= size {
      assert NoteLinked(ns, c);
    }
  }

  /** Storing a page: exactly one page of one note changes. */
  lemma StoreStaysLinked(ns: NoteMap, id: nat, p: nat, x: Page)
    requires Linked(ns) && Sparse(ns) && id in ns && p < ns[id].size
    ensures Linked(CacheOne(ns, id, p, x)) && Sparse(CacheOne(ns, id, p, x))
  {
    var to := CacheOne(ns, id, p, x);
    forall j | j in ns ensures NoteLinked(to, j) {
      assert NoteLinked(ns, j);
    }
  }

  lemma StoreChangesViews(ns: NoteMap, id: nat, p: nat, x: Page)
    requires Linked(ns) && id in ns && p < ns[id].size && Preserved(ns, id, p)
    ensures AllViews(CacheOne(ns, id, p, x)) == AllViews(ns)[id := View(ns, id)[p := x]]
  {
    var to := CacheOne(ns, id, p, x);
    forall j | j in ns ensures View(to, j) == AllViews(ns)[id := View(ns, id)[p := x]][j] {
      forall q | 0 <= q < ns[j].size
        ensures PageView(to, j, q) == if j == id && q == p then x else PageView(ns, j, q)
      {
        StoreChangesOnePage(ns, id, p, x, j, q);
      }
    }
  }

  lemma StoreKeepsBooks(ns: NoteMap, handles: map<nat, nat>, escaped: map<nat, set<nat>>, id: nat, p: nat, x: Page)
    requires Linked(ns) && Counted(ns, handles, None) && EscapedOk(ns, escaped) && id in ns
    ensures Counted(CacheOne(ns, id, p, x), handles, None) && EscapedOk(CacheOne(ns, id, p, x), escaped)
  {
    BooksStay(ns, CacheOne(ns, id, p, x), handles, escaped, None);
  }

  /** The last reference to a note is dropped: it has no child, and its own reference to its parent goes next. */
  lemma FreeOneCounts(ns: NoteMap, handles: map<nat, nat>, id: nat)
    requires Linked(ns) && Counted(ns, handles, Some(id)) && id in ns && ns[id].refs == 1
    ensures ns[id].children == {} && id in handles && handles[id] == 0 && ns[id].mappings == 0
    ensures Counted(Unlink(ns, id), handles - {id}, ns[id].parent)
  {
    assert NoteLinked(ns, id);
    if ns[id].parent.Some? {
      var parent := ns[id].parent.value;
      assert |ns[parent].children - {id}| == |ns[parent].children| - 1;
    }
  }

  lemma FreeOneEscapes(ns: NoteMap, escaped: map<nat, set<nat>>, id: nat)
    requires Linked(ns) && EscapedOk(ns, escaped) && id in ns
    ensures EscapedOk(Unlink(ns, id), escaped - {id})
  {
    assert NoteLinked(ns, id);
    EscapedStays(ns, Unlink(ns, id), escaped, escaped - {id});
  }

  lemma UnlinkShape(ns: NoteMap, id: nat)
    requires Linked(ns) && id in ns
    ensures Unlink(ns, id).Keys == ns.Keys - {id}
    ensures forall j :: j in Unlink(ns, id) ==> Unlink(ns, id)[j].mappings == ns[j].mappings
    ensures ns[id].parent.Some? ==> ns[id].parent.value < id && ns[id].parent.value in Unlink(ns, id)
  {
    assert NoteLinked(ns, id);
  }

  function Released(ns: NoteMap, id: nat): NoteMap
    requires id in ns && ns[id].refs > 0
  {
    ns[id := ns[id].(refs := ns[id].refs - 1)]
  }

  lemma ReleasedStaysLinked(ns: NoteMap, id: nat)
    requires Linked(ns) && Sparse(ns) && id in ns && ns[id].refs > 0
    ensures Linked(Released(ns, id)) && Sparse(Released(ns, id))
  {
    var to := Released(ns, id);
    forall j | j in ns ensures NoteLinked(to, j) {
      assert NoteLinked(ns, j);
    }
  }

  lemma ReleasedCounts(ns: NoteMap, handles: map<nat, nat>, id: nat)
    requires Counted(ns, handles, Some(id)) && id in ns && ns[id].refs > 1
    ensures Counted(Released(ns, id), handles, None)
  {
  }

  lemma ReleasedEscapes(ns: NoteMap, escaped: map<nat, set<nat>>, id: nat)
    requires Linked(ns) && EscapedOk(ns, escaped) && id in ns && ns[id].refs > 0
    ensures EscapedOk(Released(ns, id), escaped)
  {
    EscapedStays(ns, Released(ns, id), escaped, escaped);
  }

  lemma ChildlessPreserves(ns: NoteMap, id: nat, p: nat)
    requires id in ns && ns[id].children == {}
    ensures Preserved(ns, id, p)
  {
  }

  /** A handle becomes the reference that is being dropped. */
  lemma GiveUpHandle(ns: NoteMap, handles: map<nat, nat>, id: nat)
    requires Counted(ns, handles, None) && id in ns && id in handles && handles[id] > 0
    ensures Counted(ns, handles[id := handles[id] - 1], Some(id))
  {
  }

  lemma CountedNote(ns: NoteMap, handles: map<nat, nat>, dropping: Option<nat>, id: nat)
    requires Counted(ns, handles, dropping) && id in ns
    ensures handles.Keys == ns.Keys && ns[id].refs > 0
  {
  }

  lemma SameReads(from: NoteMap, to: NoteMap)
    requires Linked(from) && from.Keys == to.Keys
    requires forall j :: j in from ==>
               && to[j].pages == from[j].pages && to[j].file == from[j].file && to[j].size == from[j].size
               && to[j].parent == from[j].parent && to[j].inherited == from[j].inherited
    ensures AllViews(to) == AllViews(from)
  {
    forall j: nat, p: nat | j in from && p < from[j].size ensures PageView(to, j, p) == PageView(from, j, p) {
      ReadsAgree(from, to, j, p);
    }
    SameReadsSameViews(from, to);
  }

  /** A note with other reference and mapping counts. */
  function WithOwners(ns: NoteMap, id: nat, refs: nat, mappings: nat): NoteMap
    requires id in ns
  {
    ns[id := ns[id].(refs := refs, mappings := mappings)]
  }

  lemma OwnersStayLinked(ns: NoteMap, id: nat, refs: nat, mappings: nat)
    requires Linked(ns) && Sparse(ns) && id in ns
    ensures Linked(WithOwners(ns, id, refs, mappings)) && Sparse(WithOwners(ns, id, refs, mappings))
  {
    var to := WithOwners(ns, id, refs, mappings);
    forall j | j in ns ensures NoteLinked(to, j) {
      assert NoteLinked(ns, j);
    }
  }

  lemma RetainCounts(ns: NoteMap, handles: map<nat, nat>, id: nat)
    requires Counted(ns, handles, None) && id in ns
    ensures id in handles
    ensures Counted(WithOwners(ns, id, ns[id].refs + 1, ns[id].mappings), handles[id := handles[id] + 1], None)
  {
  }

  lemma AttachCounts(ns: NoteMap, handles: map<nat, nat>, id: nat)
    requires Counted(ns, handles, None) && id in ns
    ensures Counted(WithOwners(ns, id, ns[id].refs + 1, ns[id].mappings + 1), handles, None)
  {
  }

  lemma OwnersReads(ns: NoteMap, id: nat, refs: nat, mappings: nat)
    requires Linked(ns) && id in ns
    ensures AllViews(WithOwners(ns, id, refs, mappings)) == AllViews(ns)
  {
    SameReads(ns, WithOwners(ns, id, refs, mappings));
  }

  /** Escaped frames belong to the mappings: they may be forgotten once the last one goes. */
  lemma OwnersEscape(ns: NoteMap, escaped: map<nat, set<nat>>, id: nat, refs: nat, mappings: nat)
    requires Linked(ns) && EscapedOk(ns, escaped) && id in ns
    ensures EscapedOk(WithOwners(ns, id, refs, mappings), escaped[id := {}])
    ensures mappings > 0 || mappings == ns[id].mappings ==> EscapedOk(WithOwners(ns, id, refs, mappings), escaped)
  {
    EscapedStays(ns, WithOwners(ns, id, refs, mappings), escaped, escaped[id := {}]);
    if mappings > 0 || mappings == ns[id].mappings {
      EscapedStays(ns, WithOwners(ns, id, refs, mappings), escaped, escaped);
    }
  }

  lemma DetachCounts(ns: NoteMap, handles: map<nat, nat>, id: nat)
    requires Counted(ns, handles, None) && id in ns && ns[id].mappings > 0
    ensures Counted(WithOwners(ns, id, ns[id].refs, ns[id].mappings - 1), handles, Some(id))
  {
  }

  lemma EscapedKeys(ns: NoteMap, escaped: map<nat, set<nat>>)
    requires EscapedOk(ns, escaped)
    ensures escaped.Keys == ns.Keys
  {
  }

  lemma EscapeOne(ns: NoteMap, escaped: map<nat, set<nat>>, id: nat, p: nat)
    requires EscapedOk(ns, escaped) && id in ns && ns[id].mappings > 0
    requires p in ns[id].pages && Preserved(ns, id, p)
    ensures id in escaped && EscapedOk(ns, escaped[id := escaped[id] + {p}])
  {
  }

  /** The pages of a note below `end` that are cached have reached the file. */
  ghost predicate Synced(n: Note, end: nat) {
    forall p :: p in n.pages && p < end ==> p in n.file && n.file[p] == n.pages[p]
  }

  /** What is left in the file of an external note that has been written back is what the note showed. */
  lemma SyncedFile(ns: NoteMap, id: nat)
    requires Linked(ns) && id in ns && ns[id].external && Synced(ns[id], ns[id].size)
    ensures FileView(ns[id].file, ns[id].size) == View(ns, id)
  {
    assert NoteLinked(ns, id);
  }

  // ------------------------------------------------------------------
  // What a note allows and by how many mappings it is used
  // ------------------------------------------------------------------

  datatype Terms = Terms(rights: Rights, mappings: nat)

  ghost function AllTerms(ns: NoteMap): (ts: map<nat, Terms>)
    ensures ts.Keys == ns.Keys
  {
    map id | id in ns :: Terms(ns[id].rights, ns[id].mappings)
  }

  lemma TermsStay(from: NoteMap, to: NoteMap)
    requires from.Keys == to.Keys
    requires forall id :: id in from ==> to[id].rights == from[id].rights && to[id].mappings == from[id].mappings
    ensures AllTerms(to) == AllTerms(from)
  {
  }

  lemma CachingKeepsTerms(from: NoteMap, to: NoteMap)
    requires CachedMore(from, to)
    ensures AllTerms(to) == AllTerms(from)
  {
    TermsStay(from, to);
  }

  lemma ClampKeepsTerms(ns: NoteMap, id: nat, size: nat)
    requires id in ns
    ensures AllTerms(Clamp(ns, id, size)) == AllTerms(ns)
  {
    TermsStay(ns, Clamp(ns, id, size));
  }

  lemma NewTerms(ns: NoteMap, id: nat, n: Note)
    requires n.mappings == 0
    ensures AllTerms(ns[id := n]) == AllTerms(ns)[id := Terms(n.rights, 0)]
  {
  }

  lemma SnapshotTerms(ns: NoteMap, source: nat, id: nat, rights: Rights)
    requires source in ns && id !in ns
    ensures AllTerms(Snapshot(ns, source, id, rights)) == AllTerms(ns)[id := Terms(rights, 0)]
  {
  }

  lemma OwnersTerms(ns: NoteMap, id: nat, refs: nat, mappings: nat)
    requires id in ns
    ensures AllTerms(WithOwners(ns, id, refs, mappings)) == AllTerms(ns)[id := Terms(ns[id].rights, mappings)]
  {
  }

  lemma UnlinkTerms(ns: NoteMap, id: nat)
    requires Linked(ns) && id in ns
    ensures AllTerms(Unlink(ns, id)) == AllTerms(ns) - {id}
  {
    assert NoteLinked(ns, id);
  }

  lemma PictureIsWhole(ns: NoteMap, handles: map<nat, nat>, escaped: map<nat, set<nat>>)
    requires Counted(ns, handles, None) && EscapedOk(ns, escaped)
    ensures handles.Keys == ns.Keys && escaped.Keys == ns.Keys
  {
  }

  /** All of a reference that is not the last one */
  lemma Releasing(ns: NoteMap, handles: map<nat, nat>, escaped: map<nat, set<nat>>, id: nat)
    requires Linked(ns) && Sparse(ns) && Counted(ns, handles, Some(id)) && EscapedOk(ns, escaped)
    requires id in ns && ns[id].refs != 1
    ensures ns[id].refs > 0
    ensures var to := Released(ns, id);
            && Linked(to) && Sparse(to) && Counted(to, handles, None) && EscapedOk(to, escaped) && to.Keys == ns.Keys
            && AllViews(to) == AllViews(ns) && AllTerms(to) == AllTerms(ns)
  {
    hide Linked, Sparse, Counted, EscapedOk, AllViews, AllTerms;
    CountedNote(ns, handles, Some(id), id);
    ReleasedStaysLinked(ns, id);
    ReleasedCounts(ns, handles, id);
    ReleasedEscapes(ns, escaped, id);
    SameReads(ns, Released(ns, id));
    TermsStay(ns, Released(ns, id));
  }

  /** All of a resize */
  lemma Cutting(ns: NoteMap, handles: map<nat, nat>, escaped: map<nat, set<nat>>, id: nat, size: nat)
    requires Linked(ns) && Sparse(ns) && Counted(ns, handles, None) && EscapedOk(ns, escaped) && id in ns
    requires forall c :: c in ns[id].children ==> c in ns && ns[c].inherited <= size
    requires ns[id].mappings == 0 || ns[id].size <= size
    ensures var to := ns[id := Cut(ns[id], size)];
            && Linked(to) && Sparse(to) && Counted(to, handles, None) && EscapedOk(to, escaped) && to.Keys == ns.Keys
            && AllViews(to) == AllViews(ns)[id := Resized(View(ns, id), size)] && AllTerms(to) == AllTerms(ns)
  {
    hide Linked, Sparse, Counted, EscapedOk, AllViews, Resized, AllTerms;
    CutResizes(ns, id, size);
    CutBooks(ns, handles, escaped, id, size);
    TermsStay(ns, ns[id := Cut(ns[id], size)]);
  }

  /** What the eager picture says about one note */
  lemma Known(ns: NoteMap, handles: map<nat, nat>, escaped: map<nat, set<nat>>, id: nat)
    requires Counted(ns, handles, None) && EscapedOk(ns, escaped)
    ensures handles.Keys == ns.Keys && escaped.Keys == ns.Keys
    ensures id in ns ==> AllViews(ns)[id] == View(ns, id) && |View(ns, id)| == ns[id].size
    ensures id in ns ==> AllTerms(ns)[id] == Terms(ns[id].rights, ns[id].mappings)
  {
  }

  lemma TermsOf(ns: NoteMap, id: nat)
    requires id in ns
    ensures id in AllTerms(ns) && AllTerms(ns)[id] == Terms(ns[id].rights, ns[id].mappings)
  {
  }

  // ------------------------------------------------------------------
  // Calls and their eager meaning
  // ------------------------------------------------------------------

  datatype Op =
    | Create(size: nat, rights: Rights)
    | Copy(id: nat, rights: Rights)
    | Retain(id: nat)
    | Release(id: nat)
    | Pread(id: nat, offset: nat, length: nat)
    | Pwrite(id: nat, offset: nat, data: seq<Byte>)
    | Pedit(id: nat, offset: nat, data: seq<Byte>)
    | Resize(id: nat, size: nat)
    | Flush(id: nat)
    | Writeback(id: nat, p: nat)
    | Attach(id: nat)
    | Detach(id: nat)
    | GetFrame(id: nat, p: nat)
    | MappedWrite(id: nat, p: nat, within: nat, chunk: seq<Byte>)

  datatype Reply =
    | Skipped
    | Reply(status: Status, id: nat, count: nat, data: seq<Byte>, freed: set<nat>)

  function WithPage(v: seq<Page>, p: nat, x: Page): seq<Page>
    requires p < |v|
  {
    v[p := x]
  }

  /** Eagerly copied notes: what each holds, what it allows, who has it, and which frames mappings have of it */
  datatype Eager = Eager(
    views: Views, terms: map<nat, Terms>, handles: map<nat, nat>, frames: map<nat, set<nat>>)

  ghost predicate Whole(e: Eager) {
    e.terms.Keys == e.views.Keys && e.handles.Keys == e.views.Keys && e.frames.Keys == e.views.Keys
  }

  ghost function Minus(e: Eager, freed: set<nat>): Eager {
    Eager(e.views - freed, e.terms - freed, e.handles - freed, e.frames - freed)
  }

  ghost function Plus(e: Eager, id: nat, view: seq<Page>, rights: Rights): Eager {
    Eager(e.views[id := view], e.terms[id := Terms(rights, 0)], e.handles[id := 1], e.frames[id := {}])
  }

  /** Nobody has a handle on any of these notes, or a mapping of it. */
  ghost predicate Unowned(e: Eager, ids: set<nat>) {
    forall j {:trigger j in ids} :: j in ids ==>
      j in e.views && j in e.handles && e.handles[j] == 0 && j in e.terms && e.terms[j].mappings == 0
  }

  lemma MinusNothing(e: Eager)
    ensures Minus(e, {}) == e && Unowned(e, {})
  {
  }

  lemma MinusOneMore(e: Eager, freed: set<nat>, id: nat)
    requires Unowned(e, freed) && Unowned(Minus(e, freed), {id})
    ensures Minus(Minus(e, freed), {id}) == Minus(e, freed + {id}) && Unowned(e, freed + {id})
  {
    assert id in {id};
  }

  lemma PlusMinus(e: Eager, id: nat, view: seq<Page>, rights: Rights, handles: nat)
    requires Whole(e) && id !in e.views
    ensures var with := Plus(e, id, view, rights); Minus(with.(handles := with.handles[id := handles]), {id}) == e
  {
  }

  /** The note a call is about */
  function Target(op: Op): Option<nat> {
    if op.Create? then None else Some(op.id)
  }

  ghost function WithView(e: Eager, id: nat, view: seq<Page>): Eager {
    e.(views := e.views[id := view])
  }

  ghost function WithHandles(e: Eager, id: nat, handles: nat): Eager {
    e.(handles := e.handles[id := handles])
  }

  ghost function WithMappings(e: Eager, id: nat, mappings: nat): Eager
    requires id in e.terms
  {
    e.(terms := e.terms[id := Terms(e.terms[id].rights, mappings)])
  }

  /** What a call does to eagerly copied notes. */
  ghost function EagerStep(e: Eager, op: Op, r: Reply): Eager {
    if r.Skipped? || !Entitled(e, op) then e else
    match op
    case Create(size, rights) => if r.status == Ok then Plus(e, r.id, Resized([], size / PAGE_SIZE), rights) else e
    case Copy(id, rights) => if r.status == Ok then Plus(e, r.id, e.views[id], rights) else e
    case Retain(id) => WithHandles(e, id, e.handles[id] + 1)
    case Release(id) => Minus(WithHandles(e, id, e.handles[id] - 1), r.freed)
    case Attach(id) => if r.status == Ok then WithMappings(e, id, e.terms[id].mappings + 1) else e
    case Detach(id) =>
      var fewer := WithMappings(e, id, e.terms[id].mappings - 1);
      Minus(if fewer.terms[id].mappings == 0 then fewer.(frames := fewer.frames[id := {}]) else fewer, r.freed)
    case GetFrame(id, p) => if r.status == Ok then e.(frames := e.frames[id := e.frames[id] + {p}]) else e
    case Pwrite(id, offset, data) =>
      if r.count <= |data| then WithView(e, id, WriteBytes(e.views[id], offset, data[..r.count])) else e
    case Pedit(id, offset, data) =>
      if r.count <= |data| then WithView(e, id, WriteBytes(e.views[id], offset, data[..r.count])) else e
    case Resize(id, size) => if r.status == Ok then WithView(e, id, Resized(e.views[id], size / PAGE_SIZE)) else e
    case MappedWrite(id, p, within, chunk) =>
      if r.status == Ok && p < |e.views[id]|
      then WithView(e, id, WithPage(e.views[id], p, Splice(e.views[id][p], within, chunk))) else e
    case _ => e
  }

  /** Whether a caller may make the call: the note is there, and what is used or given up is had. */
  ghost predicate Entitled(e: Eager, op: Op) {
    match op
    case Create(_, _) => true
    case Release(id) => Has(e, id) && e.handles[id] > 0
    case Detach(id) => Has(e, id) && e.terms[id].mappings > 0
    case GetFrame(id, _) => Has(e, id) && e.terms[id].mappings > 0
    case MappedWrite(id, p, within, chunk) => Has(e, id) && p in e.frames[id] && within + |chunk| <= PAGE_SIZE
    case _ => Has(e, op.id)
  }

  ghost predicate Has(e: Eager, id: nat) {
    id in e.views && id in e.terms && id in e.handles && id in e.frames
  }

  /** The refusals of a call that do not depend on memory or files, in the order they are checked */
  ghost function Refusal(e: Eager, op: Op): Option<Status>
    requires Entitled(e, op)
  {
    match op
    case Create(size, rights) =>
      if !RightsValid(rights) || size % PAGE_SIZE != 0 || size > INT64_MAX then Some(InvalidArgument) else None
    case Copy(id, rights) =>
      if !RightsValid(rights) then Some(InvalidArgument)
      else if !e.terms[id].rights.read then Some(Permission)
      else if e.terms[id].mappings != 0 then Some(Busy) else None
    case Pread(id, offset, length) =>
      if !e.terms[id].rights.read then Some(Permission)
      else if offset + length > |e.views[id]| * PAGE_SIZE then Some(InvalidArgument) else None
    case Pwrite(id, offset, data) =>
      if !e.terms[id].rights.write then Some(Permission)
      else if offset + |data| > |e.views[id]| * PAGE_SIZE then Some(InvalidArgument) else None
    case Pedit(id, offset, data) =>
      if !(e.terms[id].rights.write && e.terms[id].rights.edit) then Some(Permission)
      else if offset + |data| > |e.views[id]| * PAGE_SIZE then Some(InvalidArgument) else None
    case Resize(id, size) =>
      if size % PAGE_SIZE != 0 || size > INT64_MAX then Some(InvalidArgument)
      else if !e.terms[id].rights.resize then Some(Permission)
      else if e.terms[id].mappings != 0 && size / PAGE_SIZE < |e.views[id]| then Some(Busy) else None
    case GetFrame(id, p) => if p >= |e.views[id]| then Some(InvalidArgument) else None
    case _ => None
  }

  /** What a read returns is what the eager notes hold. */
  ghost predicate ReadsRight(e: Eager, op: Op, r: Reply) {
    op.Pread? && r.Reply? && (r.data != [] || r.status == Ok) ==>
      && op.id in e.views
      && op.offset + |r.data| <= |e.views[op.id]| * PAGE_SIZE
      && r.data == ReadBytes(e.views[op.id], op.offset, |r.data|)
      && (r.status == Ok ==> |r.data| == op.length)
  }

  /** A new note is new, a write that succeeds is complete, and no note is freed that somebody still has. */
  ghost predicate ReplyRight(e: Eager, op: Op, r: Reply)
    requires r.Reply?
  {
    && (op.Create? || op.Copy? ==> r.status == Ok ==> r.id !in e.views)
    && (op.Pwrite? || op.Pedit? ==> r.count <= |op.data| && (r.status == Ok ==> r.count == |op.data|))
    && (op.Release? && Entitled(e, op) ==> Unowned(WithHandles(e, op.id, e.handles[op.id] - 1), r.freed))
    && (op.Detach? && Entitled(e, op) ==> Unowned(WithMappings(e, op.id, e.terms[op.id].mappings - 1), r.freed))
  }

  /** A call is made exactly by those entitled to it, is refused as it must be, and answers what the eager notes say. */
  ghost predicate Right(e: Eager, op: Op, r: Reply) {
    && (!op.Writeback? ==> (r.Skipped? <==> !Entitled(e, op)))
    && (r.Reply? ==> Entitled(e, op) && ReplyRight(e, op, r) && ReadsRight(e, op, r))
    && (r.Reply? && Refusal(e, op).Some? ==> r.status == Refusal(e, op).value && r.count == 0 && r.data == [])
  }

  /** A file written to changes nothing that can be read. */
  lemma SyncSeesNothing(e: Eager, op: Op, r: Reply)
    requires (op.Flush? || op.Writeback?) && if Has(e, op.id) then r.Reply? || op.Writeback? else r.Skipped?
    ensures EagerStep(e, op, r) == e && Right(e, op, r)
  {
  }

  ghost function EagerRun(e: Eager, ops: seq<Op>, rs: seq<Reply>): Eager
    requires |ops| == |rs|
  {
    if ops == [] then e
    else EagerStep(EagerRun(e, ops[..|ops| - 1], rs[..|ops| - 1]), ops[|ops| - 1], rs[|ops| - 1])
  }

  /** Every answer so far was right for the eager notes at that point. */
  ghost predicate RunRight(start: Eager, ops: seq<Op>, rs: seq<Reply>) {
    && |rs| <= |ops|
    && forall i :: 0 <= i < |rs| ==> Right(EagerRun(start, ops[..i], rs[..i]), ops[i], rs[i])
  }

  lemma NothingRun(start: Eager, ops: seq<Op>)
    ensures EagerRun(start, ops[..0], []) == start && RunRight(start, ops, [])
  {
  }

  lemma RunStep(start: Eager, ops: seq<Op>, rs: seq<Reply>, r: Reply)
    requires |rs| < |ops| && RunRight(start, ops, rs)
    requires Right(EagerRun(start, ops[..|rs|], rs), ops[|rs|], r)
    ensures EagerRun(start, ops[..|rs| + 1], rs + [r]) == EagerStep(EagerRun(start, ops[..|rs|], rs), ops[|rs|], r)
    ensures RunRight(start, ops, rs + [r])
  {
    var n, more := |rs|, rs + [r];
    assert ops[..n + 1][..n] == ops[..n] && more[..n] == rs;
    hide EagerStep, EagerRun, Right;
    forall i | 0 <= i < |more|
      ensures Right(EagerRun(start, ops[..i], more[..i]), ops[i], more[i])
    {
      if i < n {
        assert more[..i] == rs[..i] && more[i] == rs[i];
      }
    }
  }

  // ------------------------------------------------------------------
  // A call is about its own note only
  // ------------------------------------------------------------------

  ghost predicate IsOwned(e: Eager, id: nat) {
    Has(e, id) && (e.handles[id] > 0 || e.terms[id].mappings > 0)
  }

  /** No call changes what another note holds, nor takes away a note that somebody has. */
  lemma OthersUntouched(e: Eager, op: Op, r: Reply, j: nat)
    requires Right(e, op, r) && IsOwned(e, j) && Target(op) != Some(j)
    ensures IsOwned(EagerStep(e, op, r), j) && EagerStep(e, op, r).views[j] == e.views[j]
  {
    hide WriteBytes, Resized, Refusal, ReadsRight, Splice;
    assert (op.Release? || op.Detach?) && r.Reply? ==> j !in r.freed;
  }

  /** Over every run, an owned note that no call is about keeps its bytes: nobody else's writes reach it. */
  lemma {:induction false} OthersUntouchedOver(e: Eager, ops: seq<Op>, rs: seq<Reply>, j: nat)
    requires |rs| == |ops| && RunRight(e, ops, rs) && IsOwned(e, j)
    requires forall i :: 0 <= i < |ops| ==> Target(ops[i]) != Some(j)
    ensures IsOwned(EagerRun(e, ops, rs), j) && EagerRun(e, ops, rs).views[j] == e.views[j]
    decreases |ops|
  {
    hide Right, EagerStep, IsOwned;
    if ops != [] {
      var n := |ops| - 1;
      ShorterRight(e, ops, rs);
      OthersUntouchedOver(e, ops[..n], rs[..n], j);
      OthersUntouched(EagerRun(e, ops[..n], rs[..n]), ops[n], rs[n], j);
    } else {
      assert IsOwned(e, j);
    }
  }

  lemma ShorterRight(e: Eager, ops: seq<Op>, rs: seq<Reply>)
    requires |rs| == |ops| && RunRight(e, ops, rs) && ops != []
    ensures RunRight(e, ops[..|ops| - 1], rs[..|ops| - 1])
    ensures Right(EagerRun(e, ops[..|ops| - 1], rs[..|ops| - 1]), ops[|ops| - 1], rs[|ops| - 1])
  {
    hide Right, EagerRun;
    var n := |ops| - 1;
    forall i | 0 <= i < n
      ensures Right(EagerRun(e, ops[..n][..i], rs[..n][..i]), ops[..n][i], rs[..n][i])
    {
      assert ops[..n][..i] == ops[..i] && rs[..n][..i] == rs[..i];
    }
  }

  class NoteStore {
    var notes: NoteMap
    var nextId: nat
    /** What the callers own: note references, and frames of mapped notes. */
    var handles: map<nat, nat>
    var escaped: map<nat, set<nat>>

    /** The notes as if every snapshot were a copy */
    ghost function Picture(): Eager
      reads this
    {
      Eager(AllViews(notes), AllTerms(notes), handles, escaped)
    }

    ghost predicate Valid()
      reads this
    {
      && Linked(notes) && Sparse(notes)
      && (forall id :: id in notes ==> id < nextId)
      && Counted(notes, handles, None)
      && EscapedOk(notes, escaped)
    }

    constructor ()
      ensures Valid() && notes == map[] && nextId == 1
    {
      notes, nextId, handles, escaped := map[], 1, map[], map[];
    }

    /** minimm_note_get_read_frame_locked */
    method GetReadFrame(id: nat, p: nat) returns (status: Status, frame: Page)
      requires Linked(notes) && Sparse(notes) && id in notes
      modifies this`notes
      ensures CachedMore(old(notes), notes) && OnlyPage(old(notes), notes, p)
      ensures p >= old(notes[id].size) ==> status == InvalidArgument && notes == old(notes)
      ensures status == Ok ==> p < old(notes[id].size) && frame == PageView(old(notes), id, p)
    {
      frame := ZERO;
      if p >= notes[id].size {
        return InvalidArgument, frame;
      }
      var owner := id;
      while p !in notes[owner].pages && notes[owner].parent.Some? && p < notes[owner].inherited
        invariant owner in notes && p < notes[owner].size
        invariant PageView(notes, id, p) == PageView(notes, owner, p)
        decreases owner
      {
        assert NoteLinked(notes, owner);
        owner := notes[owner].parent.value;
      }
      if p in notes[owner].pages {
        return Ok, notes[owner].pages[p];
      }
      // The walk never ends beyond the size of the owner it stopped at.
      assert p < notes[owner].size;
      status := *;
      if status == Ok {
        frame := FilePage(notes[owner], p);
        assert frame == PageView(notes, owner, p);
        notes := CacheOne(notes, owner, p, frame);
      }
    }

    /** minimm_note_preserve_children_locked */
    method PreserveChildren(id: nat, p: nat, frame: Page) returns (status: Status)
      requires Linked(notes) && Sparse(notes) && id in notes && p < notes[id].size
      requires frame == PageView(notes, id, p)
      modifies this`notes
      ensures CachedMore(old(notes), notes) && OnlyPage(old(notes), notes, p)
      ensures status == Ok ==> Preserved(notes, id, p)
    {
      var todo := notes[id].children;
      assert NoteLinked(notes, id);
      hide Linked, Sparse, PageView, NoteLinked;
      status := Ok;
      while todo != {}
        invariant CachedMore(old(notes), notes) && OnlyPage(old(notes), notes, p)
        invariant todo <= notes[id].children <= notes.Keys
        invariant AllOwn(notes, notes[id].children - todo, p)
        decreases todo
      {
        var child :| child in todo;
        if p < notes[child].inherited && p !in notes[child].pages {
          status := *;
          if status != Ok {
            return;
          }
          PreservingOne(old(notes), notes, id, child, p, frame);
          notes := CacheOne(notes, child, p, frame);
        }
        todo := todo - {child};
      }
    }

    /** minimm_note_get_private_frame_locked: afterwards the page may be stored into. */
    method GetPrivateFrame(id: nat, p: nat) returns (status: Status)
      requires Linked(notes) && Sparse(notes) && id in notes
      modifies this`notes
      ensures CachedMore(old(notes), notes)
      ensures p >= old(notes[id].size) ==> status == InvalidArgument && notes == old(notes)
      ensures status == Ok ==> p in notes[id].pages && Preserved(notes, id, p)
    {
      hide Sparse, Linked, PageView;
      var frame;
      status, frame := GetReadFrame(id, p);
      if status != Ok {
        return;
      }
      ghost var read := notes;
      CachingStaysLinked(old(notes), read);
      CachingKeepsPage(old(notes), read, id, p);
      status := PreserveChildren(id, p, frame);
      CachingComposes(old(notes), read, notes);
      if status != Ok || p in notes[id].pages {
        return;
      }
      status := *;
      if status == Ok {
        CachingPreserved(old(notes), notes, id, p, frame);
        notes := CacheOne(notes, id, p, frame);
      }
    }

    /**
     * minimm_note_preserve_truncated_children_locked: only pages cached somewhere on
     * the ancestor chain are copied, and still no view changes.
     */
    method PreserveTruncatedChildren(id: nat, size: nat) returns (status: Status, ghost saved: NoteMap)
      requires Linked(notes) && Sparse(notes) && id in notes && size < notes[id].size
      modifies this`notes
      ensures status != Ok ==> CachedMore(old(notes), notes)
      ensures status == Ok ==> CachedMore(old(notes), saved) && id in saved && notes == Clamp(saved, id, size)
      ensures Linked(notes) && Sparse(notes) && AllViews(notes) == AllViews(old(notes))
      ensures status == Ok ==> forall c :: c in notes[id].children ==> c in notes && notes[c].inherited <= size
    {
      hide Linked, Sparse;
      var preserveEnd := InheritedEnd(id, size);
      status := PreserveVisible(id, size, preserveEnd);
      CachingStaysLinked(old(notes), notes);
      CachingKeepsViews(old(notes), notes);
      saved := notes;
      if status != Ok {
        return;
      }
      forall q | size <= q < saved[id].size ensures Preserved(saved, id, q) || PageView(saved, id, q) == ZERO {
        CachingKeepsPage(old(notes), saved, id, q);
      }
      ClampStaysLinked(saved, id, size);
      ClampKeepsViews(saved, id, size);
      notes := Clamp(notes, id, size);
    }

    /** How far any child still inherits, at least `size` and at most the size of the note. */
    method InheritedEnd(id: nat, size: nat) returns (end: nat)
      requires Linked(notes) && id in notes && size < notes[id].size
      ensures size <= end <= notes[id].size && InheritsBelow(notes, id, end)
    {
      assert NoteLinked(notes, id);
      end := size;
      var todo := notes[id].children;
      while todo != {}
        invariant size <= end && todo <= notes[id].children
        invariant forall c :: c in notes[id].children && c !in todo ==> notes[c].inherited <= end
        decreases todo
      {
        var child :| child in todo;
        if notes[child].inherited > end {
          end := notes[child].inherited;
        }
        todo := todo - {child};
      }
      if end > notes[id].size {
        end := notes[id].size;
      }
      forall c | c in notes[id].children ensures notes[c].inherited <= end {
        assert NoteLinked(notes, c);
      }
    }

    /** The walk up the ancestors: what is cached there is copied, the rest reads as zeros. */
    method PreserveVisible(id: nat, size: nat, preserveEnd: nat) returns (status: Status)
      requires Linked(notes) && Sparse(notes) && id in notes
      requires size <= preserveEnd <= notes[id].size && InheritsBelow(notes, id, preserveEnd)
      modifies this`notes
      ensures CachedMore(old(notes), notes)
      ensures status == Ok ==>
                forall q: nat :: size <= q < notes[id].size ==>
                                   Preserved(notes, id, q) || PageView(old(notes), id, q) == ZERO
    {
      hide Sparse, Linked, Preserved, OwnedPreserved, InheritsBelow;
      ghost var base := notes;
      var owner := Some(id);
      var visible: nat := notes[id].size;
      status := Ok;
      ExternalHasNoFamily(base, id);
      while owner.Some? && visible > size
        invariant owner.Some? ==> owner.value in base && (base[id].children != {} ==> !base[owner.value].external)
        invariant CachedMore(base, notes)
        invariant AllSettled(base, notes, id, size, owner, visible)
        decreases if owner.Some? then owner.value + 1 else 0
      {
        ExternalHasNoFamily(base, owner.value);
        ghost var before := notes;
        CachingStaysLinked(base, before);
        status := PreserveOwned(id, owner.value, size, preserveEnd, visible);
        CachingComposes(base, before, notes);
        if status != Ok {
          return;
        }
        WalkOneUp(base, before, notes, id, size, preserveEnd, owner.value, visible);
        if notes[owner.value].parent.Some? && visible > notes[owner.value].inherited {
          visible := notes[owner.value].inherited;
        }
        owner := notes[owner.value].parent;
      }
      forall q: nat | size <= q < notes[id].size
        ensures Preserved(notes, id, q) || PageView(base, id, q) == ZERO
      {
        assert Settled(base, notes, id, q, owner, visible);
      }
    }

    /** The inner loop of the above over the pages cached by one owner. */
    method PreserveOwned(id: nat, owner: nat, size: nat, preserveEnd: nat, visible: nat)
      returns (status: Status)
      requires Linked(notes) && Sparse(notes) && id in notes && owner in notes
      requires size <= preserveEnd <= notes[id].size
      modifies this`notes
      ensures CachedMore(old(notes), notes)
      ensures status == Ok ==> OwnedPreserved(notes, id, owner, size, preserveEnd, visible)
    {
      hide Linked, Sparse, Preserved, OnlyPage;
      status := Ok;
      var p := size;
      while p < preserveEnd
        invariant Linked(notes) && Sparse(notes) && CachedMore(old(notes), notes)
        invariant size <= p <= preserveEnd && OwnedPreserved(notes, id, owner, size, p, visible)
      {
        if p in notes[owner].pages && p < visible {
          ghost var before := notes;
          status := PreservePage(id, p);
          CachingStaysLinked(before, notes);
          CachingComposes(old(notes), before, notes);
          if status != Ok {
            return;
          }
          OwnedPreservedExtends(before, notes, id, owner, size, p, visible);
        }
        p := p + 1;
      }
    }

    /** Read a page and hand a copy to every child that inherits it. */
    method PreservePage(id: nat, p: nat) returns (status: Status)
      requires Linked(notes) && Sparse(notes) && id in notes && p < notes[id].size
      modifies this`notes
      ensures CachedMore(old(notes), notes) && OnlyPage(old(notes), notes, p)
      ensures status == Ok ==> Preserved(notes, id, p)
    {
      var frame;
      status, frame := GetReadFrame(id, p);
      if status == Ok {
        ghost var read := notes;
        CachingStaysLinked(old(notes), read);
        CachingKeepsPage(old(notes), read, id, p);
        status := PreserveChildren(id, p, frame);
        CachingComposes(old(notes), read, notes);
      }
    }

    // ----------------------------------------------------------------
    // The public calls
    // ----------------------------------------------------------------

    /** minimm_note_create: `size` is in bytes, as in the interface. */
    method Create(size: nat, rights: Rights) returns (status: Status, id: nat)
      requires Valid()
      modifies this
      ensures Valid()
      ensures status == Ok ==> size % PAGE_SIZE == 0 && id == old(nextId) && id !in old(notes)
      ensures !RightsValid(rights) || size % PAGE_SIZE != 0 || size > INT64_MAX ==> status == InvalidArgument
      ensures AllViews(notes)
           == if status == Ok then AllViews(old(notes))[id := Resized([], size / PAGE_SIZE)] else AllViews(old(notes))
      ensures AllTerms(notes) ==
                if status == Ok then AllTerms(old(notes))[id := Terms(rights, 0)] else AllTerms(old(notes))
      ensures escaped == if status == Ok then old(escaped)[id := {}] else old(escaped)
      ensures handles == if status == Ok then old(handles)[id := 1] else old(handles)
    {
      hide AllTerms;
      id := 0;
      if !RightsValid(rights) || size % PAGE_SIZE != 0 || size > INT64_MAX {
        return InvalidArgument, id;
      }
      status := *;
      if status == Ok {
        status, id := Adopt(size / PAGE_SIZE, rights, false, map[]);
        assert Resized([], size / PAGE_SIZE) == FileView(map[], size / PAGE_SIZE);
      }
    }

    /** minimm_note_adopt_fd: a note that stands on its own. */
    method Adopt(size: nat, rights: Rights, external: bool, file: map<nat, Page>) returns (status: Status, id: nat)
      requires Valid() && (forall p :: p in file ==> p < size) && (!external ==> file == map[])
      modifies this
      ensures Valid() && (status == Ok || status == OutOfMemory || status == NoSpace)
      ensures status != Ok ==> notes == old(notes) && handles == old(handles) && escaped == old(escaped)
      ensures status == Ok ==> id == old(nextId) && id !in old(notes) && handles == old(handles)[id := 1]
      ensures status == Ok ==> notes == old(notes)[id := Fresh(size, rights, external, file)]
      ensures status == Ok ==>
                AllTerms(notes) == AllTerms(old(notes))[id := Terms(rights, 0)] && escaped == old(escaped)[id := {}]
      ensures status == Ok ==> AllViews(notes) == AllViews(old(notes))[id := FileView(file, size)]
    {
      hide EscapedOk, Counted, Linked, Sparse, AllViews, PageView, FileView, AllTerms;
      id := 0;
      if nextId == UINT64_MAX {
        return NoSpace, id;
      }
      var available: bool := *;
      if !available {
        return OutOfMemory, id;
      }
      id := nextId;
      nextId := nextId + 1;
      AdoptStaysLinked(notes, id, size, rights, external, file);
      AdoptAddsView(notes, id, size, rights, external, file);
      AdoptBooks(notes, handles, escaped, id, Fresh(size, rights, external, file));
      NewTerms(notes, id, Fresh(size, rights, external, file));
      notes := notes[id := Fresh(size, rights, external, file)];
      handles := handles[id := 1];
      escaped := escaped[id := {}];
      status := Ok;
    }

    /** minimm_note_copy: lazily for a temporary source, page by page for an external one. */
    method Copy(source: nat, rights: Rights) returns (status: Status, id: nat)
      requires Valid() && source in notes
      modifies this
      ensures Valid()
      ensures !RightsValid(rights) ==> status == InvalidArgument
      ensures RightsValid(rights) && !old(notes[source].rights.read) ==> status == Permission
      ensures RightsValid(rights) && old(notes[source].rights.read) && old(notes[source].mappings) != 0 ==>
                status == Busy
      ensures status == Ok ==> id !in old(notes) && source in old(notes)
      ensures AllViews(notes)
           == if status == Ok then AllViews(old(notes))[id := View(old(notes), source)] else AllViews(old(notes))
      ensures handles == if status == Ok then old(handles)[id := 1] else old(handles)
      ensures AllTerms(notes) ==
                if status == Ok then AllTerms(old(notes))[id := Terms(rights, 0)] else AllTerms(old(notes))
      ensures escaped == if status == Ok then old(escaped)[id := {}] else old(escaped)
    {
      hide EscapedOk, Counted, Linked, Sparse, AllViews, AllTerms;
      id := 0;
      if !RightsValid(rights) {
        return InvalidArgument, id;
      }
      if !notes[source].rights.read {
        return Permission, id;
      }
      if notes[source].mappings != 0 {
        return Busy, id;
      }
      status := *;
      if status != Ok {
        return;
      }
      if notes[source].external {
        status, id := CopyExternal(source, rights);
        return;
      }
      if nextId == UINT64_MAX {
        return NoSpace, id;
      }
      id := nextId;
      nextId := nextId + 1;
      SnapshotStaysLinked(notes, source, id, rights);
      SnapshotReadsLikeItsSource(notes, source, id, rights);
      SnapshotCounts(notes, handles, source, id, rights);
      SnapshotEscapes(notes, escaped, source, id, rights);
      SnapshotTerms(notes, source, id, rights);
      notes := Snapshot(notes, source, id, rights);
      handles := handles[id := 1];
      escaped := escaped[id := {}];
    }

    /** minimm_note_copy_external_locked with the release of a copy that could not be finished. */
    method CopyExternal(source: nat, rights: Rights) returns (status: Status, id: nat)
      requires Valid() && source in notes
      modifies this
      ensures Valid() && (status == Ok ==> id !in old(notes))
      ensures Picture() ==
                if status == Ok then Plus(old(Picture()), id, View(old(notes), source), rights) else old(Picture())
    {
      hide EscapedOk, Counted, Linked, Sparse, Preserved, AllViews, AllTerms;
      CountedNote(notes, handles, None, source);
      PictureIsWhole(notes, handles, escaped);
      ghost var before := AllViews(notes);
      ghost var original := View(notes, source);
      var size := notes[source].size;
      status, id := Adopt(size, rights, false, map[]);
      if status != Ok {
        return;
      }
      assert FileView(map[], size) == Resized(original[..0], size);
      ViewOf(old(notes), source);
      var done;
      status, done := CopyPages(source, id, size, before, original);
      if status != Ok {
        PlusMinus(old(Picture()), id, Resized(original[..done], size), rights, 0);
        Abandon(id);
      }
      assert Resized(original[..size], size) == original;
    }

    /** The release of a note that its only owner gives up at once */
    method Abandon(id: nat)
      requires Valid() && id in notes && id in handles && handles[id] == 1 && notes[id].refs == 1
      modifies this
      ensures Dropping(old(notes)[id].parent) && nextId == old(nextId)
      ensures Picture() == Minus(WithHandles(old(Picture()), id, 0), {id})
    {
      hide EscapedOk, Counted, Linked, Sparse, AllViews, AllTerms, Minus, Unowned;
      GiveUpHandle(notes, handles, id);
      handles := handles[id := 0];
      var parent, _, _ := FreeLast(id);
    }

    method CopyPages(source: nat, id: nat, size: nat, ghost others: Views, ghost original: seq<Page>)
      returns (status: Status, done: nat)
      requires Valid() && source in notes && id in notes && source != id
      requires notes[source].size == size == notes[id].size == |original|
      requires notes[id].children == {} && notes[id].parent == None && notes[id].refs == 1
      requires source in others && others[source] == original
      requires AllViews(notes) == others[id := Resized(original[..0], size)]
      modifies this`notes
      ensures Valid() && id in notes && source in notes && notes[id].parent == None && notes[id].refs == 1
      ensures done <= size && (status == Ok ==> done == size)
      ensures AllTerms(notes) == AllTerms(old(notes))
      ensures AllViews(notes) == others[id := Resized(original[..done], size)]
    {
      hide EscapedOk, Counted, Linked, Sparse, AllViews, Resized, AllTerms;
      status := Ok;
      done := 0;
      while done < size
        invariant Valid() && done <= size && source in notes && id in notes && status == Ok
        invariant notes[source].size == size == notes[id].size
        invariant notes[id].children == {} && notes[id].parent == None && notes[id].refs == 1
        invariant AllTerms(notes) == AllTerms(old(notes))
        invariant AllViews(notes) == others[id := Resized(original[..done], size)]
      {
        ViewOf(notes, source);
        ViewOf(notes, id);
        CopiedOneMore(others, id, original, done);
        status := CopyPage(source, id, done);
        if status != Ok {
          return;
        }
        done := done + 1;
      }
    }

    method CopyPage(source: nat, id: nat, p: nat) returns (status: Status)
      requires Valid() && source in notes && id in notes && p < notes[source].size == notes[id].size
      requires notes[id].children == {}
      modifies this`notes
      ensures Valid() && notes.Keys == old(notes).Keys
      ensures forall j :: j in notes ==> notes[j] == WithPages(old(notes)[j], notes[j].pages)
      ensures AllTerms(notes) == AllTerms(old(notes))
      ensures AllViews(notes) == if status == Ok
              then AllViews(old(notes))[id := View(old(notes), id)[p := View(old(notes), source)[p]]]
              else AllViews(old(notes))
    {
      hide EscapedOk, Counted, Linked, Sparse, Preserved, AllViews, AllTerms;
      var frame;
      status, frame := ReadPage(source, p);
      if status == Ok {
        status := *;
      }
      if status == Ok {
        ViewOf(old(notes), id);
        ViewOf(notes, id);
        ChildlessPreserves(notes, id, p);
        StorePage(id, p, frame);
      }
    }

    /** A read of one page, with everything else in place. */
    method ReadPage(id: nat, p: nat) returns (status: Status, frame: Page)
      requires Valid() && id in notes
      modifies this`notes
      ensures Valid() && AllViews(notes) == AllViews(old(notes)) && CachedMore(old(notes), notes)
      ensures AllTerms(notes) == AllTerms(old(notes))
      ensures status == Ok ==> p < old(notes[id].size) && frame == View(old(notes), id)[p]
    {
      hide EscapedOk, Counted, Linked, Sparse, AllViews, AllTerms;
      status, frame := GetReadFrame(id, p);
      CachingStaysLinked(old(notes), notes);
      CachingKeepsViews(old(notes), notes);
      CachingKeepsTerms(old(notes), notes);
      CachingKeepsBooks(old(notes), notes, handles, escaped);
    }

    /** Make one page safe to store into. */
    method PrivatePage(id: nat, p: nat) returns (status: Status)
      requires Valid() && id in notes
      modifies this`notes
      ensures Valid() && AllViews(notes) == AllViews(old(notes)) && CachedMore(old(notes), notes)
      ensures AllTerms(notes) == AllTerms(old(notes)) && (p >= old(notes[id].size) ==> status == InvalidArgument)
      ensures status == Ok ==> p < notes[id].size && p in notes[id].pages && Preserved(notes, id, p)
    {
      hide EscapedOk, Counted, Linked, Sparse, AllViews, AllTerms;
      status := GetPrivateFrame(id, p);
      CachingStaysLinked(old(notes), notes);
      CachingKeepsViews(old(notes), notes);
      CachingKeepsTerms(old(notes), notes);
      CachingKeepsBooks(old(notes), notes, handles, escaped);
    }

    /** A store into a page that nobody else reads through. */
    method StorePage(id: nat, p: nat, x: Page)
      requires Valid() && id in notes && p < notes[id].size && Preserved(notes, id, p)
      modifies this`notes
      ensures Valid() && notes == CacheOne(old(notes), id, p, x)
      ensures AllTerms(notes) == AllTerms(old(notes))
      ensures AllViews(notes) == AllViews(old(notes))[id := View(old(notes), id)[p := x]]
    {
      hide EscapedOk, Counted, Linked, Sparse, AllViews, Preserved, AllTerms;
      StoreStaysLinked(notes, id, p, x);
      StoreChangesViews(notes, id, p, x);
      StoreKeepsBooks(notes, handles, escaped, id, p, x);
      TermsStay(notes, CacheOne(notes, id, p, x));
      notes := CacheOne(notes, id, p, x);
    }

    /** Everything `Valid` says while one reference to `dropping` is on its way out. */
    ghost predicate Dropping(dropping: Option<nat>)
      reads this
    {
      && Linked(notes) && Sparse(notes)
      && (forall id :: id in notes ==> id < nextId)
      && Counted(notes, handles, dropping)
      && EscapedOk(notes, escaped)
      && (dropping.Some? ==> dropping.value in notes)
    }

    /** minimm_note_release without the decision whose reference it is. */
    method DropReference(id: nat) returns (freed: set<nat>)
      requires Dropping(Some(id))
      modifies this
      ensures Valid() && nextId == old(nextId)
      ensures freed <= old(notes).Keys && notes.Keys == old(notes).Keys - freed
      ensures Picture() == Minus(old(Picture()), freed) && Unowned(old(Picture()), freed)
    {
      hide EscapedOk, Counted, Linked, Sparse, AllViews, AllTerms, Minus, Unowned, Released;
      freed := {};
      var current := Some(id);
      MinusNothing(Picture());
      while current.Some? && notes[current.value].refs == 1
        invariant Dropping(current) && nextId == old(nextId)
        invariant freed <= old(notes).Keys && notes.Keys == old(notes).Keys - freed
        invariant Picture() == Minus(old(Picture()), freed) && Unowned(old(Picture()), freed)
        decreases if current.Some? then current.value + 1 else 0
      {
        var gone := current.value;
        var status, file;
        current, status, file := FreeLast(current.value);
        MinusOneMore(old(Picture()), freed, gone);
        freed := freed + {gone};
      }
      if current.Some? {
        Releasing(notes, handles, escaped, current.value);
        notes := Released(notes, current.value);
      }
    }

    /** One level of the cascade: the note goes, and with it its reference to its parent. */
    method FreeLast(id: nat) returns (parent: Option<nat>, status: Status, file: map<nat, Page>)
      requires Dropping(Some(id)) && notes[id].refs == 1
      modifies this
      ensures Dropping(parent) && nextId == old(nextId) && (parent.Some? ==> parent.value < id)
      ensures parent == old(notes)[id].parent && notes.Keys == old(notes).Keys - {id}
      ensures status == Ok && old(notes)[id].external ==> FileView(file, old(notes)[id].size) == View(old(notes), id)
      ensures Picture() == Minus(old(Picture()), {id}) && Unowned(old(Picture()), {id})
    {
      hide EscapedOk, Counted, Linked, Sparse, AllViews, Unlink, AllTerms;
      status := LastSync(id);
      TermsOf(notes, id);
      UnlinkTerms(notes, id);
      UnlinkShape(notes, id);
      FreeOneCounts(notes, handles, id);
      FreeOneEscapes(notes, escaped, id);
      UnlinkStaysLinked(notes, id);
      UnlinkKeepsViews(notes, id);
      parent, file := notes[id].parent, notes[id].file;
      notes := Unlink(notes, id);
      handles := handles - {id};
      escaped := escaped - {id};
    }

    /** The pages of a note reach its file before it goes. */
    method LastSync(id: nat) returns (status: Status)
      requires Dropping(Some(id))
      modifies this`notes
      ensures Dropping(Some(id)) && Picture() == old(Picture()) && notes.Keys == old(notes).Keys
      ensures notes[id] == old(notes)[id].(file := notes[id].file)
      ensures status == Ok && notes[id].external ==> FileView(notes[id].file, notes[id].size) == View(old(notes), id)
    {
      hide EscapedOk, Counted, Linked, Sparse, AllViews, AllTerms;
      status := SyncPages(id, Some(id));
      TermsStay(old(notes), notes);
      if status == Ok && notes[id].external {
        SyncedFile(notes, id);
        ViewOf(old(notes), id);
        ViewOf(notes, id);
      }
    }

    /** minimm_note_sync_pages_locked: cached pages reach the file, a failed one may reach it garbled. */
    method SyncPages(id: nat, ghost dropping: Option<nat>) returns (status: Status)
      requires Dropping(dropping) && id in notes
      modifies this`notes
      ensures Dropping(dropping) && AllViews(notes) == AllViews(old(notes))
      ensures notes.Keys == old(notes).Keys
      ensures forall j :: j in notes ==> notes[j] == old(notes)[j].(file := notes[j].file)
      ensures status == Ok ==> Synced(notes[id], notes[id].size)
    {
      hide EscapedOk, Counted, Linked, Sparse, AllViews;
      status := Ok;
      var p := 0;
      while p < notes[id].size && status == Ok
        invariant Dropping(dropping) && AllViews(notes) == AllViews(old(notes)) && id in notes
        invariant notes.Keys == old(notes).Keys
        invariant forall j :: j in notes ==> notes[j] == old(notes)[j].(file := notes[j].file)
        invariant p <= notes[id].size && (status == Ok ==> Synced(notes[id], p))
        decreases notes[id].size - p
      {
        if p in notes[id].pages {
          status := Writeback(id, p, dropping);
        }
        p := p + 1;
      }
    }

    /** minimm_frame_write_back_locked for one cached page, by a sync or by eviction. */
    method Writeback(id: nat, p: nat, ghost dropping: Option<nat>) returns (status: Status)
      requires Dropping(dropping) && id in notes && p in notes[id].pages
      modifies this`notes
      ensures Dropping(dropping) && AllViews(notes) == AllViews(old(notes))
      ensures notes.Keys == old(notes).Keys
      ensures forall j :: j in notes ==> notes[j] == old(notes)[j].(file := notes[j].file)
      ensures p in notes[id].file && notes[id].file == old(notes)[id].file[p := notes[id].file[p]]
      ensures status == Ok ==> notes[id].file[p] == notes[id].pages[p]
    {
      hide EscapedOk, Counted, Linked, Sparse, AllViews, WithFile;
      status := *;
      var written: Page := notes[id].pages[p];
      if status != Ok {
        written := *;
      }
      var file := notes[id].file[p := written];
      WrittenBack(notes, id, p, file, handles, escaped, dropping);
      notes := WithFile(notes, id, file);
    }

    /** minimm_note_resize */
    method Resize(id: nat, size: nat) returns (status: Status)
      requires Valid() && id in notes
      modifies this`notes
      ensures Valid()
      ensures size % PAGE_SIZE != 0 || size > INT64_MAX ==> status == InvalidArgument
      ensures size % PAGE_SIZE == 0 && size <= INT64_MAX && !old(notes[id].rights.resize) ==> status == Permission
      ensures (size % PAGE_SIZE == 0 && size <= INT64_MAX && old(notes[id].rights.resize)
               && old(notes[id].mappings) != 0 && size / PAGE_SIZE < old(notes[id].size)) ==> status == Busy
      ensures AllTerms(notes) == AllTerms(old(notes))
      ensures AllViews(notes)
           == if status == Ok then AllViews(old(notes))[id := Resized(View(old(notes), id), size / PAGE_SIZE)]
              else AllViews(old(notes))
    {
      hide EscapedOk, Counted, Linked, Sparse, AllViews, AllTerms, Cut, PageView;
      if size % PAGE_SIZE != 0 || size > INT64_MAX {
        return InvalidArgument;
      }
      if !notes[id].rights.resize {
        return Permission;
      }
      var pages := size / PAGE_SIZE;
      var oldSize := notes[id].size;
      if notes[id].mappings != 0 && pages < oldSize {
        return Busy;
      }
      status := Ok;
      if pages < oldSize {
        status := Truncate(id, pages);
      } else {
        GrowingLeavesChildren(notes, id, pages);
      }
      if status == Ok && pages != oldSize {
        status := *;
      }
      if status == Ok {
        ViewOf(old(notes), id);
        ViewOf(notes, id);
        Cutting(notes, handles, escaped, id, pages);
        notes := notes[id := Cut(notes[id], pages)];
      }
    }

    /** The part of a shrink that comes before the file is cut. */
    method Truncate(id: nat, size: nat) returns (status: Status)
      requires Valid() && id in notes && size < notes[id].size && notes[id].mappings == 0
      modifies this`notes
      ensures Valid() && AllViews(notes) == AllViews(old(notes)) && AllTerms(notes) == AllTerms(old(notes))
      ensures id in notes && notes[id].size == old(notes)[id].size && notes[id].mappings == 0
      ensures status == Ok ==> forall c :: c in notes[id].children ==> c in notes && notes[c].inherited <= size
    {
      hide EscapedOk, Counted, Linked, Sparse, AllViews, PageView, CachedMore, AllTerms;
      ghost var saved;
      status, saved := PreserveTruncatedChildren(id, size);
      if status != Ok {
        CachedShape(old(notes), notes, id);
        CachingKeepsTerms(old(notes), notes);
        CachingKeepsBooks(old(notes), notes, handles, escaped);
        return;
      }
      CachedShape(old(notes), saved, id);
      CachingKeepsTerms(old(notes), saved);
      ClampKeepsTerms(saved, id, size);
      CachingStaysLinked(old(notes), saved);
      CachingKeepsBooks(old(notes), saved, handles, escaped);
      ClampKeepsBooks(saved, handles, escaped, id, size);
      ghost var clamped := notes;
      status := SyncPages(id, None);
      TermsStay(clamped, notes);
    }

    /** minimm_note_pread: on failure the bytes read so far are still the right ones. */
    method Pread(id: nat, offset: nat, length: nat) returns (status: Status, data: seq<Byte>)
      requires Valid() && id in notes
      modifies this`notes
      ensures Valid() && AllViews(notes) == AllViews(old(notes)) && AllTerms(notes) == AllTerms(old(notes))
      ensures !old(notes[id].rights.read) ==> status == Permission && data == []
      ensures old(notes[id].rights.read) && offset + length > old(notes[id].size) * PAGE_SIZE ==>
                status == InvalidArgument && data == []
      ensures data != [] || status == Ok ==>
                && |data| <= length && offset + length <= old(notes[id].size) * PAGE_SIZE
                && data == ReadBytes(View(old(notes), id), offset, |data|)
      ensures status == Ok ==> |data| == length
    {
      hide EscapedOk, Counted, Linked, Sparse, AllViews, AllTerms;
      data := [];
      if !notes[id].rights.read {
        return Permission, data;
      }
      if offset + length > notes[id].size * PAGE_SIZE {
        return InvalidArgument, data;
      }
      status := Ok;
      ghost var view := View(notes, id);
      ghost var size := notes[id].size;
      ViewOf(notes, id);
      while |data| < length && status == Ok
        invariant Valid() && AllViews(notes) == AllViews(old(notes)) && id in notes && notes[id].size == size
        invariant AllTerms(notes) == AllTerms(old(notes))
        invariant |data| <= length && data == ReadBytes(view, offset, |data|)
        decreases length - |data|, if status == Ok then 1 else 0
      {
        var current := offset + |data|;
        var p, within := current / PAGE_SIZE, current % PAGE_SIZE;
        var remaining := length - |data|;
        var chunk := if remaining < PAGE_SIZE - within then remaining else PAGE_SIZE - within;
        var bytes;
        status, bytes := ReadWithin(id, p, within, chunk);
        if status == Ok {
          ReadChunk(view, offset, |data|, chunk, p, within);
          data := data + bytes;
        }
      }
    }

    /** The part of a read that falls into one page. */
    method ReadWithin(id: nat, p: nat, within: nat, chunk: nat) returns (status: Status, bytes: seq<Byte>)
      requires Valid() && id in notes && p < notes[id].size && within + chunk <= PAGE_SIZE
      modifies this`notes
      ensures Valid() && AllViews(notes) == AllViews(old(notes)) && id in notes && notes[id].size == old(notes)[id].size
      ensures AllTerms(notes) == AllTerms(old(notes))
      ensures status == Ok ==> bytes == AllViews(old(notes))[id][p][within..within + chunk]
    {
      hide EscapedOk, Counted, Linked, Sparse, AllViews, AllTerms;
      ViewOf(notes, id);
      var frame;
      status, frame := ReadPage(id, p);
      if status == Ok {
        status := *;
      }
      bytes := frame[within..within + chunk];
    }

    /** minimm_note_pwrite: a failure leaves exactly the completed prefix behind. */
    method Pwrite(id: nat, offset: nat, data: seq<Byte>) returns (status: Status, completed: nat)
      requires Valid() && id in notes
      modifies this`notes
      ensures Valid() && completed <= |data| && AllTerms(notes) == AllTerms(old(notes))
      ensures !old(notes[id].rights.write) ==> status == Permission && completed == 0
      ensures old(notes[id].rights.write) && offset + |data| > old(notes[id].size) * PAGE_SIZE ==>
                status == InvalidArgument && completed == 0
      ensures status == Ok ==> completed == |data|
      ensures AllViews(notes) == AllViews(old(notes))[id := WriteBytes(View(old(notes), id), offset, data[..completed])]
    {
      hide EscapedOk, Counted, Linked, Sparse, AllViews, AllTerms;
      completed := 0;
      ghost var views, view := AllViews(notes), View(notes, id);
      ViewOf(notes, id);
      WriteNothing(view, offset);
      assert data[..0] == [];
      if !notes[id].rights.write {
        return Permission, completed;
      }
      if offset + |data| > notes[id].size * PAGE_SIZE {
        return InvalidArgument, completed;
      }
      status := Ok;
      ghost var size := notes[id].size;
      while completed < |data| && status == Ok
        invariant Valid() && id in notes && notes[id].size == size
        invariant completed <= |data| && AllTerms(notes) == AllTerms(old(notes))
        invariant AllViews(notes) == views[id := WriteBytes(view, offset, data[..completed])]
        decreases |data| - completed, if status == Ok then 1 else 0
      {
        var current := offset + completed;
        var p, within := current / PAGE_SIZE, current % PAGE_SIZE;
        var remaining := |data| - completed;
        var chunk := if remaining < PAGE_SIZE - within then remaining else PAGE_SIZE - within;
        ViewOf(notes, id);
        WriteChunk(view, offset, data, completed, chunk, p);
        status := WriteWithin(id, p, within, data[completed..completed + chunk]);
        if status == Ok {
          completed := completed + chunk;
        }
      }
    }

    /** The part of a write that falls into one page. */
    method WriteWithin(id: nat, p: nat, within: nat, chunk: seq<Byte>) returns (status: Status)
      requires Valid() && id in notes && p < notes[id].size && within + |chunk| <= PAGE_SIZE
      modifies this`notes
      ensures Valid() && id in notes && notes[id].size == old(notes)[id].size
      ensures AllTerms(notes) == AllTerms(old(notes))
      ensures AllViews(notes) == if status == Ok
              then AllViews(old(notes))[id := View(old(notes), id)[p := Splice(View(old(notes), id)[p], within, chunk)]]
              else AllViews(old(notes))
    {
      hide EscapedOk, Counted, Linked, Sparse, AllViews, AllTerms;
      status := PrivatePage(id, p);
      if status == Ok {
        status := *;
      }
      if status == Ok {
        ViewOf(old(notes), id);
        ViewOf(notes, id);
        StorePage(id, p, Splice(notes[id].pages[p], within, chunk));
      }
    }

    /** minimm_note_pedit */
    method Pedit(id: nat, offset: nat, data: seq<Byte>) returns (status: Status, completed: nat)
      requires Valid() && id in notes
      modifies this`notes
      ensures Valid() && completed <= |data| && AllTerms(notes) == AllTerms(old(notes))
      ensures !(old(notes[id].rights.write) && old(notes[id].rights.edit)) ==> status == Permission && completed == 0
      ensures && old(notes[id].rights.write) && old(notes[id].rights.edit)
              && offset + |data| > old(notes[id].size) * PAGE_SIZE
              ==> status == InvalidArgument && completed == 0
      ensures status == Ok ==> completed == |data|
      ensures AllViews(notes) == AllViews(old(notes))[id := WriteBytes(View(old(notes), id), offset, data[..completed])]
    {
      hide AllTerms;
      if !(notes[id].rights.write && notes[id].rights.edit) {
        WriteNothing(View(notes, id), offset);
        assert data[..0] == [];
        return Permission, 0;
      }
      status, completed := Pwrite(id, offset, data);
    }

    // ----------------------------------------------------------------
    // Owners of references: handles and mappings
    // ----------------------------------------------------------------

    /** minimm_note_retain */
    method Retain(id: nat)
      requires Valid() && id in notes
      modifies this
      ensures Valid() && AllViews(notes) == AllViews(old(notes))
      ensures AllTerms(notes) == AllTerms(old(notes)) && escaped == old(escaped)
      ensures id in old(handles) && handles == old(handles)[id := old(handles)[id] + 1]
    {
      hide EscapedOk, Counted, Linked, Sparse, AllViews, AllTerms;
      OwnersStayLinked(notes, id, notes[id].refs + 1, notes[id].mappings);
      OwnersEscape(notes, escaped, id, notes[id].refs + 1, notes[id].mappings);
      OwnersReads(notes, id, notes[id].refs + 1, notes[id].mappings);
      RetainCounts(notes, handles, id);
      TermsStay(notes, WithOwners(notes, id, notes[id].refs + 1, notes[id].mappings));
      notes := WithOwners(notes, id, notes[id].refs + 1, notes[id].mappings);
      handles := handles[id := handles[id] + 1];
    }

    /** minimm_note_release by the owner of a handle. */
    method Release(id: nat) returns (freed: set<nat>)
      requires Valid() && id in notes && id in handles && handles[id] > 0
      modifies this
      ensures Valid() && forall j :: j in old(notes) ==> (j in freed <==> j !in notes)
      ensures var given := WithHandles(old(Picture()), id, old(handles)[id] - 1);
              Picture() == Minus(given, freed) && Unowned(given, freed)
    {
      hide EscapedOk, Linked, Sparse, AllViews, AllTerms, Minus, Unowned;
      GiveUpHandle(notes, handles, id);
      handles := handles[id := handles[id] - 1];
      freed := DropReference(id);
    }

    /** minimm_note_mapping_attach with the reference the mapping keeps. */
    method Attach(id: nat) returns (status: Status)
      requires Valid() && id in notes
      modifies this
      ensures Valid() && AllViews(notes) == AllViews(old(notes)) && handles == old(handles)
      ensures status == Ok ==> id in notes && notes[id].mappings == old(notes)[id].mappings + 1
      ensures status != Ok ==> notes == old(notes)
      ensures escaped == old(escaped)
      ensures status == Ok ==>
                AllTerms(notes) == AllTerms(old(notes))[id := Terms(old(notes)[id].rights, old(notes)[id].mappings + 1)]
    {
      hide EscapedOk, Counted, Linked, Sparse, AllViews, AllTerms;
      if notes[id].mappings == UINT64_MAX {
        return NoSpace;
      }
      AttachCounts(notes, handles, id);
      OwnersStayLinked(notes, id, notes[id].refs + 1, notes[id].mappings + 1);
      OwnersEscape(notes, escaped, id, notes[id].refs + 1, notes[id].mappings + 1);
      OwnersReads(notes, id, notes[id].refs + 1, notes[id].mappings + 1);
      OwnersTerms(notes, id, notes[id].refs + 1, notes[id].mappings + 1);
      notes := WithOwners(notes, id, notes[id].refs + 1, notes[id].mappings + 1);
      status := Ok;
    }

    /** minimm_note_mapping_detach and the release that follows it. */
    method Detach(id: nat) returns (freed: set<nat>)
      requires Valid() && id in notes && notes[id].mappings > 0
      modifies this
      ensures Valid() && id in old(Picture()).terms && id in old(Picture()).frames
      ensures var fewer := WithMappings(old(Picture()), id, old(notes)[id].mappings - 1);
              && Unowned(fewer, freed)
              && Picture() ==
                 Minus(if old(notes)[id].mappings == 1 then fewer.(frames := fewer.frames[id := {}]) else fewer, freed)
    {
      hide EscapedOk, Counted, Linked, Sparse, AllViews, AllTerms, Minus;
      var last := notes[id].mappings == 1;
      TermsOf(notes, id);
      PictureIsWhole(notes, handles, escaped);
      DetachCounts(notes, handles, id);
      OwnersStayLinked(notes, id, notes[id].refs, notes[id].mappings - 1);
      OwnersEscape(notes, escaped, id, notes[id].refs, notes[id].mappings - 1);
      OwnersReads(notes, id, notes[id].refs, notes[id].mappings - 1);
      OwnersTerms(notes, id, notes[id].refs, notes[id].mappings - 1);
      notes := WithOwners(notes, id, notes[id].refs, notes[id].mappings - 1);
      if last {
        escaped := escaped[id := {}];
      }
      freed := DropReference(id);
    }

    /** minimm_note_get_frame: a frame leaves for a mapping. */
    method GetFrame(id: nat, p: nat) returns (status: Status)
      requires Valid() && id in notes && notes[id].mappings > 0
      modifies this
      ensures Valid() && AllViews(notes) == AllViews(old(notes)) && handles == old(handles)
      ensures p >= old(notes)[id].size ==> status == InvalidArgument
      ensures AllTerms(notes) == AllTerms(old(notes)) && id in old(escaped)
      ensures escaped == if status == Ok then old(escaped)[id := old(escaped)[id] + {p}] else old(escaped)
      ensures status == Ok ==> id in escaped && p in escaped[id]
    {
      hide EscapedOk, Counted, Linked, Sparse, AllViews, Preserved, AllTerms, PageView, View;
      EscapedKeys(notes, escaped);
      status := PrivatePage(id, p);
      if status == Ok {
        EscapeOne(notes, escaped, id, p);
        escaped := escaped[id := escaped[id] + {p}];
      }
    }

    /** A store through a mapping of the note: it goes straight to the frame. */
    method MappedWrite(id: nat, p: nat, within: nat, chunk: seq<Byte>) returns (status: Status)
      requires Valid() && id in notes && id in escaped && p in escaped[id] && within + |chunk| <= PAGE_SIZE
      modifies this`notes
      ensures Valid() && p < old(notes)[id].size && AllTerms(notes) == AllTerms(old(notes))
      ensures AllViews(notes) == if status == Ok
              then AllViews(old(notes))[id := View(old(notes), id)[p := Splice(View(old(notes), id)[p], within, chunk)]]
              else AllViews(old(notes))
    {
      hide Counted, Linked, AllViews, Preserved, AllTerms;
      assert EscapedFrom(notes, id, escaped[id]);
      status := *;
      if status == Ok {
        StorePage(id, p, Splice(notes[id].pages[p], within, chunk));
      }
    }

    /** minimm_note_flush */
    method Flush(id: nat) returns (status: Status)
      requires Valid() && id in notes
      modifies this`notes
      ensures Valid() && AllViews(notes) == AllViews(old(notes)) && AllTerms(notes) == AllTerms(old(notes))
      ensures status == Ok ==> id in notes && Synced(notes[id], notes[id].size)
    {
      status := SyncPages(id, None);
      TermsStay(old(notes), notes);
      if status == Ok {
        status := *;
      }
    }

    // ----------------------------------------------------------------
    // Whole runs
    // ----------------------------------------------------------------

    /** One call; calls by someone who does not own what they name are not made. */
    method Step(op: Op) returns (r: Reply)
      requires Valid()
      modifies this
      ensures Valid() && Picture() == EagerStep(old(Picture()), op, r) && Right(old(Picture()), op, r)
    {
      hide EscapedOk, Counted, Linked, Sparse, AllViews, AllTerms, EagerStep, Right;
      if op.Create? || op.Copy? {
        r := NewStep(op);
      } else if op.Retain? || op.Release? {
        r := HandleStep(op);
      } else if op.Attach? || op.GetFrame? {
        r := MappingStep(op);
      } else if op.Detach? {
        r := DetachStep(op);
      } else if op.Pwrite? || op.Pedit? {
        r := WriteStep(op);
      } else if op.Resize? {
        r := ResizeStep(op);
      } else if op.MappedWrite? {
        r := StoreStep(op);
      } else if op.Pread? {
        r := ReadStep(op);
      } else {
        r := SyncStep(op);
      }
    }

    method NewStep(op: Op) returns (r: Reply)
      requires Valid() && (op.Create? || op.Copy?)
      modifies this
      ensures Valid() && Picture() == EagerStep(old(Picture()), op, r) && Right(old(Picture()), op, r)
    {
      hide EscapedOk, Counted, Linked, Sparse, PageView, AllViews, AllTerms, View, WriteBytes, ReadBytes, Resized,
           Splice;
      if op.Create? {
        PictureIsWhole(notes, handles, escaped);
        var status, id := Create(op.size, op.rights);
        return Reply(status, id, 0, [], {});
      }
      Known(notes, handles, escaped, op.id);
      if op.id !in notes {
        return Skipped;
      }
      var status, id := Copy(op.id, op.rights);
      r := Reply(status, id, 0, [], {});
    }

    method HandleStep(op: Op) returns (r: Reply)
      requires Valid() && (op.Retain? || op.Release?)
      modifies this
      ensures Valid() && Picture() == EagerStep(old(Picture()), op, r) && Right(old(Picture()), op, r)
    {
      hide EscapedOk, Counted, Linked, Sparse, PageView, AllViews, AllTerms, View, WriteBytes, ReadBytes, Resized,
           Splice, Minus, Unowned;
      Known(notes, handles, escaped, op.id);
      if op.id !in notes || (op.Release? && handles[op.id] == 0) {
        return Skipped;
      }
      if op.Retain? {
        Retain(op.id);
        return Reply(Ok, op.id, 0, [], {});
      }
      var freed := Release(op.id);
      r := Reply(Ok, op.id, 0, [], freed);
    }

    method MappingStep(op: Op) returns (r: Reply)
      requires Valid() && (op.Attach? || op.GetFrame?)
      modifies this
      ensures Valid() && Picture() == EagerStep(old(Picture()), op, r) && Right(old(Picture()), op, r)
    {
      hide EscapedOk, Counted, Linked, Sparse, PageView, AllViews, AllTerms, View, WriteBytes, ReadBytes, Resized,
           Splice, Minus, Unowned;
      Known(notes, handles, escaped, op.id);
      if op.id !in notes || (op.GetFrame? && notes[op.id].mappings == 0) {
        return Skipped;
      }
      var status;
      if op.Attach? {
        status := Attach(op.id);
      } else {
        status := GetFrame(op.id, op.p);
      }
      r := Reply(status, op.id, 0, [], {});
    }

    method DetachStep(op: Op) returns (r: Reply)
      requires Valid() && op.Detach?
      modifies this
      ensures Valid() && Picture() == EagerStep(old(Picture()), op, r) && Right(old(Picture()), op, r)
    {
      hide EscapedOk, Counted, Linked, Sparse, PageView, AllViews, AllTerms, View, WriteBytes, ReadBytes, Resized,
           Splice, Minus, Unowned;
      Known(notes, handles, escaped, op.id);
      if op.id !in notes || notes[op.id].mappings == 0 {
        return Skipped;
      }
      var freed := Detach(op.id);
      r := Reply(Ok, op.id, 0, [], freed);
    }

    method WriteStep(op: Op) returns (r: Reply)
      requires Valid() && (op.Pwrite? || op.Pedit?)
      modifies this
      ensures Valid() && Picture() == EagerStep(old(Picture()), op, r) && Right(old(Picture()), op, r)
    {
      hide EscapedOk, Counted, Linked, Sparse, PageView, AllViews, AllTerms, View, WriteBytes, ReadBytes, Resized,
           Splice;
      Known(notes, handles, escaped, op.id);
      if op.id !in notes {
        return Skipped;
      }
      var status, count;
      if op.Pwrite? {
        status, count := Pwrite(op.id, op.offset, op.data);
      } else {
        status, count := Pedit(op.id, op.offset, op.data);
      }
      r := Reply(status, op.id, count, [], {});
    }

    method ResizeStep(op: Op) returns (r: Reply)
      requires Valid() && op.Resize?
      modifies this
      ensures Valid() && Picture() == EagerStep(old(Picture()), op, r) && Right(old(Picture()), op, r)
    {
      hide EscapedOk, Counted, Linked, Sparse, PageView, AllViews, AllTerms, View, WriteBytes, ReadBytes, Resized,
           Splice;
      Known(notes, handles, escaped, op.id);
      if op.id !in notes {
        return Skipped;
      }
      var status := Resize(op.id, op.size);
      r := Reply(status, op.id, 0, [], {});
    }

    method StoreStep(op: Op) returns (r: Reply)
      requires Valid() && op.MappedWrite?
      modifies this
      ensures Valid() && Picture() == EagerStep(old(Picture()), op, r) && Right(old(Picture()), op, r)
    {
      hide EscapedOk, Counted, Linked, Sparse, PageView, AllViews, AllTerms, View, WriteBytes, ReadBytes, Resized,
           Splice;
      Known(notes, handles, escaped, op.id);
      if op.id !in notes || op.p !in escaped[op.id] || op.within + |op.chunk| > PAGE_SIZE {
        return Skipped;
      }
      var status := MappedWrite(op.id, op.p, op.within, op.chunk);
      r := Reply(status, op.id, 0, [], {});
    }

    method ReadStep(op: Op) returns (r: Reply)
      requires Valid() && op.Pread?
      modifies this
      ensures Valid() && Picture() == EagerStep(old(Picture()), op, r) && Right(old(Picture()), op, r)
    {
      hide EscapedOk, Counted, Linked, Sparse, PageView, AllViews, AllTerms, View, WriteBytes, ReadBytes, Resized,
           Splice;
      Known(notes, handles, escaped, op.id);
      if op.id !in notes {
        return Skipped;
      }
      var status, data := Pread(op.id, op.offset, op.length);
      r := Reply(status, op.id, |data|, data, {});
    }

    method SyncStep(op: Op) returns (r: Reply)
      requires Valid() && (op.Flush? || op.Writeback?)
      modifies this
      ensures Valid() && Picture() == EagerStep(old(Picture()), op, r) && Right(old(Picture()), op, r)
    {
      hide EscapedOk, Counted, Linked, Sparse, PageView, View, EagerStep, Right, Synced;
      Known(notes, handles, escaped, op.id);
      if op.id !in notes || (op.Writeback? && op.p !in notes[op.id].pages) {
        SyncSeesNothing(Picture(), op, Skipped);
        return Skipped;
      }
      var status;
      if op.Flush? {
        status := Flush(op.id);
      } else {
        status := Writeback(op.id, op.p, None);
        TermsStay(old(notes), notes);
      }
      r := Reply(status, op.id, 0, [], {});
      SyncSeesNothing(old(Picture()), op, r);
    }

    /** Whatever is called, in whatever order and with whatever failures, the notes read as eager copies. */
    method Run(ops: seq<Op>) returns (rs: seq<Reply>)
      requires Valid()
      modifies this
      ensures Valid() && |rs| == |ops|
      ensures Picture() == EagerRun(old(Picture()), ops, rs) && RunRight(old(Picture()), ops, rs)
    {
      hide EscapedOk, Counted, Linked, Sparse, AllViews, AllTerms, Right, EagerStep, RunRight;
      rs := [];
      ghost var start := Picture();
      NothingRun(start, ops);
      hide EagerRun;
      for i := 0 to |ops|
        invariant Valid() && |rs| == i
        invariant Picture() == EagerRun(start, ops[..i], rs) && RunRight(start, ops, rs)
      {
        var r := Step(ops[i]);
        RunStep(start, ops, rs, r);
        rs := rs + [r];
      }
      assert ops[..|ops|] == ops;
    }
  }
}
