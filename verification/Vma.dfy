/**
 * VMA snapshots (src/vma_tree.c): sorted, coalesced range lists with a fanout-16
 * index over them.  A snapshot means a partial map from addresses to attributes;
 * the list form is canonical for that meaning.
 */
module Vma {
  import opened Base

  /** MINIMM_USER_ADDRESS_LIMIT and MINIMM_VMA_TREE_FANOUT */
  const ADDRESS_LIMIT: nat := 0x8000_0000_0000
  const FANOUT: nat := 16

  datatype Prot = Prot(read: bool, write: bool, edit: bool, exec: bool)

  predicate ProtValid(p: Prot) {
    p.edit ==> p.write
  }

  predicate Within(p: Prot, max: Prot) {
    (p.read ==> max.read) && (p.write ==> max.write) && (p.edit ==> max.edit) && (p.exec ==> max.exec)
  }

  /** minimm_vma_t: addresses [start, end) map to a backing at `offset` on. */
  datatype Range = Range(
    start: nat, end: nat, cookie: nat, offset: nat, prot: Prot, max: Prot, shared: bool)

  /** What one address means. */
  datatype Attr = Attr(cookie: nat, offset: nat, prot: Prot, max: Prot, shared: bool)

  predicate PageRange(start: nat, end: nat) {
    start < end <= ADDRESS_LIMIT && start % PAGE_SIZE == 0 && end % PAGE_SIZE == 0
  }

  /** minimm_vma_is_valid */
  predicate RangeValid(r: Range) {
    && PageRange(r.start, r.end) && r.offset % PAGE_SIZE == 0
    && ProtValid(r.prot) && ProtValid(r.max) && Within(r.prot, r.max)
    && r.offset + (r.end - r.start) <= UINT64_MAX
  }

  predicate Covers(r: Range, a: nat) {
    r.start <= a < r.end
  }

  function AttrAt(r: Range, a: nat): Attr
    requires r.start <= a
  {
    Attr(r.cookie, r.offset + (a - r.start), r.prot, r.max, r.shared)
  }

  /** The meaning of a list of ranges. */
  function At(rs: seq<Range>, a: nat): Option<Attr> {
    if rs == [] then None
    else if Covers(rs[0], a) then Some(AttrAt(rs[0], a))
    else At(rs[1..], a)
  }

  ghost predicate WellFormed(rs: seq<Range>) {
    && (forall i :: 0 <= i < |rs| ==> RangeValid(rs[i]))
    && (forall i, j :: 0 <= i < j < |rs| ==> rs[i].end <= rs[j].start)
  }

  /** minimm_vma_can_merge */
  predicate CanMerge(l: Range, r: Range) {
    && l.end == r.start && l.cookie == r.cookie && l.prot == r.prot && l.max == r.max && l.shared == r.shared
    && l.offset + (l.end - l.start) == r.offset
  }

  ghost predicate Canonical(rs: seq<Range>) {
    WellFormed(rs) && forall i :: 0 <= i < |rs| - 1 ==> !CanMerge(rs[i], rs[i + 1])
  }

  // ------------------------------------------------------------------
  // Meaning of lists
  // ------------------------------------------------------------------

  lemma {:induction false} AtCovered(rs: seq<Range>, i: nat, a: nat)
    requires WellFormed(rs) && i < |rs| && Covers(rs[i], a)
    ensures At(rs, a) == Some(AttrAt(rs[i], a))
  {
    if i > 0 {
      assert rs[0].end <= rs[i].start;
      AtCovered(rs[1..], i - 1, a);
    }
  }

  lemma {:induction false} AtNowhere(rs: seq<Range>, a: nat)
    requires forall i :: 0 <= i < |rs| ==> !Covers(rs[i], a)
    ensures At(rs, a) == None
  {
    if rs != [] {
      AtNowhere(rs[1..], a);
    }
  }

  lemma {:induction false} AtSomewhere(rs: seq<Range>, a: nat) returns (i: nat)
    requires At(rs, a).Some?
    ensures i < |rs| && Covers(rs[i], a)
  {
    if Covers(rs[0], a) {
      i := 0;
    } else {
      i := AtSomewhere(rs[1..], a);
      i := i + 1;
    }
  }

  lemma {:induction false} AtConcat(l: seq<Range>, r: seq<Range>, a: nat)
    ensures At(l + r, a) == if At(l, a).Some? then At(l, a) else At(r, a)
  {
    if l == [] {
      assert l + r == r;
    } else {
      assert (l + r)[1..] == l[1..] + r;
      AtConcat(l[1..], r, a);
    }
  }

  /** Two canonical lists that mean the same are the same list. */
  lemma {:induction false} CanonicalIsUnique(l: seq<Range>, r: seq<Range>)
    requires Canonical(l) && Canonical(r)
    requires forall a :: At(l, a) == At(r, a)
    ensures l == r
    decreases |l|
  {
    hide At;
    SomethingMeansSomething(l);
    SomethingMeansSomething(r);
    if l != [] && r != [] {
      StartsAgree(l, r);
      StartsAgree(r, l);
      EndsAgree(l, r);
      EndsAgree(r, l);
      TailCanonical(l);
      TailCanonical(r);
      forall a ensures At(l[1..], a) == At(r[1..], a) {
        TailMeans(l, a);
        TailMeans(r, a);
      }
      CanonicalIsUnique(l[1..], r[1..]);
      assert l == [l[0]] + l[1..] && r == [r[0]] + r[1..];
    }
  }

  lemma TailCanonical(rs: seq<Range>)
    requires Canonical(rs) && rs != []
    ensures Canonical(rs[1..])
  {
  }

  lemma TailMeans(rs: seq<Range>, a: nat)
    requires WellFormed(rs) && rs != []
    ensures At(rs[1..], a) == if a < rs[0].end then None else At(rs, a)
  {
    if a < rs[0].end {
      AtNowhere(rs[1..], a);
    }
  }

  lemma SomethingMeansSomething(rs: seq<Range>)
    requires WellFormed(rs)
    ensures rs != [] ==> At(rs, rs[0].start) != None
    ensures rs == [] ==> forall a :: At(rs, a) == None
  {
  }

  lemma StartsAgree(l: seq<Range>, r: seq<Range>)
    requires WellFormed(l) && WellFormed(r) && l != [] && r != []
    requires forall a :: At(l, a) == At(r, a)
    ensures r[0].start <= l[0].start
  {
    var a := l[0].start;
    assert At(l, a) == At(r, a);
    var i := AtSomewhere(r, a);
  }

  lemma EndsAgree(l: seq<Range>, r: seq<Range>)
    requires Canonical(l) && Canonical(r) && l != [] && r != [] && l[0].start == r[0].start
    requires forall a :: At(l, a) == At(r, a)
    ensures l[0] == r[0].(end := l[0].end) && r[0].end <= l[0].end
  {
    assert At(l, l[0].start) == At(r, l[0].start);
    if l[0].end < r[0].end {
      var a := l[0].end;
      assert At(l, a) == At(r, a) == Some(AttrAt(r[0], a));
      var i := AtSomewhere(l, a);
      assert i == 1;
      AtCovered(l, 1, a);
      assert CanMerge(l[0], l[1]);
    }
  }

  // ------------------------------------------------------------------
  // Coalescing
  // ------------------------------------------------------------------

  /** Appending one range to an already coalesced list. */
  function Push(done: seq<Range>, r: Range): seq<Range> {
    if done != [] && CanMerge(done[|done| - 1], r)
    then done[..|done| - 1] + [done[|done| - 1].(end := r.end)]
    else done + [r]
  }

  function Coalesce(rs: seq<Range>): seq<Range> {
    if rs == [] then [] else Push(Coalesce(rs[..|rs| - 1]), rs[|rs| - 1])
  }

  lemma PushCanonical(done: seq<Range>, r: Range)
    requires Canonical(done) && RangeValid(r)
    requires done != [] ==> done[|done| - 1].end <= r.start
    requires done != [] && CanMerge(done[|done| - 1], r) ==>
               done[|done| - 1].offset + (r.end - done[|done| - 1].start) <= UINT64_MAX
    ensures Canonical(Push(done, r)) && Push(done, r) != [] && Push(done, r)[|Push(done, r)| - 1].end == r.end
  {
  }

  /** The last range of a list decides about the addresses it covers. */
  lemma AtLast(front: seq<Range>, r: Range, a: nat)
    requires forall i :: 0 <= i < |front| ==> front[i].end <= r.start
    ensures At(front + [r], a) == if Covers(r, a) then Some(AttrAt(r, a)) else At(front, a)
  {
    AtConcat(front, [r], a);
    assert [r][1..] == [];
    if Covers(r, a) {
      AtNowhere(front, a);
    }
  }

  lemma MergeMeans(front: seq<Range>, l: Range, r: Range, a: nat)
    requires forall i :: 0 <= i < |front| ==> front[i].end <= l.start
    requires CanMerge(l, r) && l.start < l.end && r.start < r.end
    ensures At(front + [l.(end := r.end)], a) == if Covers(r, a) then Some(AttrAt(r, a)) else At(front + [l], a)
  {
    AtLast(front, l, a);
    AtLast(front, l.(end := r.end), a);
    assert Covers(r, a) ==> AttrAt(l.(end := r.end), a) == AttrAt(r, a);
  }

  lemma PushMeans(done: seq<Range>, r: Range, a: nat)
    requires WellFormed(done) && RangeValid(r)
    requires done != [] ==> done[|done| - 1].end <= r.start
    ensures At(Push(done, r), a) == if Covers(r, a) then Some(AttrAt(r, a)) else At(done, a)
  {
    hide At;
    if done != [] && CanMerge(done[|done| - 1], r) {
      var n := |done| - 1;
      assert done == done[..n] + [done[n]];
      MergeMeans(done[..n], done[n], r, a);
    } else {
      assert forall i :: 0 <= i < |done| ==> done[i].end <= r.start;
      AtLast(done, r, a);
    }
  }

  /** Coalescing keeps the meaning and leaves nothing to merge. */
  lemma {:induction false} CoalesceCanonical(rs: seq<Range>)
    requires WellFormed(rs)
    ensures Canonical(Coalesce(rs)) && (rs == [] <==> Coalesce(rs) == [])
    ensures rs != [] ==> Coalesce(rs)[|Coalesce(rs)| - 1].end == rs[|rs| - 1].end
  {
    if rs != [] {
      var n := |rs| - 1;
      CoalesceCanonical(rs[..n]);
      PushCanonical(Coalesce(rs[..n]), rs[n]);
    }
  }

  lemma {:induction false} CoalesceMeans(rs: seq<Range>, a: nat)
    requires WellFormed(rs)
    ensures At(Coalesce(rs), a) == At(rs, a)
  {
    if rs != [] {
      var n := |rs| - 1;
      assert rs == rs[..n] + [rs[n]];
      CoalesceCanonical(rs[..n]);
      CoalesceMeans(rs[..n], a);
      PushMeans(Coalesce(rs[..n]), rs[n], a);
      AtLast(rs[..n], rs[n], a);
    }
  }

  /** minimm_vma_coalesce_ranges, in place. */
  method CoalesceRanges(ranges: array<Range>, count: nat) returns (output: nat)
    requires count <= ranges.Length
    modifies ranges
    ensures output <= count && ranges[..output] == Coalesce(old(ranges[..count]))
  {
    output := 0;
    ghost var input := ranges[..count];
    assert Coalesce([]) == [] && input[..0] == [];
    hide Coalesce, Push;
    for i := 0 to count
      invariant output <= i && forall k :: i <= k < count ==> ranges[k] == input[k]
      invariant ranges[..output] == Coalesce(input[..i])
    {
      CoalesceStep(input, i);
      output := PushRange(ranges, output, i);
    }
    assert input[..count] == input;
  }

  lemma CoalesceStep(rs: seq<Range>, i: nat)
    requires i < |rs|
    ensures Coalesce(rs[..i + 1]) == Push(Coalesce(rs[..i]), rs[i])
  {
    assert rs[..i + 1][..i] == rs[..i];
  }

  /** One round of the in-place loop: merge with the last range written, or write the next one. */
  method PushRange(ranges: array<Range>, output: nat, i: nat) returns (next: nat)
    requires output <= i < ranges.Length
    modifies ranges
    ensures next <= i + 1 && ranges[..next] == Push(old(ranges[..output]), old(ranges[i]))
    ensures forall k :: i < k < ranges.Length ==> ranges[k] == old(ranges[k])
  {
    hide CanMerge;
    ghost var done, r := ranges[..output], ranges[i];
    if output != 0 && CanMerge(ranges[output - 1], ranges[i]) {
      ranges[output - 1] := ranges[output - 1].(end := ranges[i].end);
      assert ranges[..output] == done[..output - 1] + [ranges[output - 1]];
      return output;
    }
    if output != i {
      ranges[output] := ranges[i];
    }
    assert ranges[..output + 1] == done + [r];
    return output + 1;
  }

  // ------------------------------------------------------------------
  // The index
  // ------------------------------------------------------------------

  datatype Node =
    | Leaf(maxEnd: seq<nat>, ranges: seq<Range>)
    | Inner(maxEnd: seq<nat>, children: seq<Node>)

  ghost function Flatten(n: Node): seq<Range> {
    match n
    case Leaf(_, ranges) => ranges
    case Inner(_, children) => FlattenAll(children)
  }

  ghost function FlattenAll(cs: seq<Node>): seq<Range> {
    if cs == [] then [] else Flatten(cs[0]) + FlattenAll(cs[1..])
  }

  /** At most sixteen slots a node, all leaves at the same depth, and the right separators. */
  ghost predicate Indexed(n: Node, height: nat)
    decreases height, 0
  {
    match n
    case Leaf(maxEnd, ranges) =>
      && height == 0 && 1 <= |ranges| <= FANOUT && |maxEnd| == |ranges|
      && forall i :: 0 <= i < |ranges| ==> maxEnd[i] == ranges[i].end
    case Inner(maxEnd, children) =>
      && height > 0 && 1 <= |children| <= FANOUT && |maxEnd| == |children|
      && forall i :: 0 <= i < |children| ==> ChildOk(children[i], maxEnd[i], height - 1)
  }

  ghost predicate ChildOk(n: Node, end: nat, height: nat)
    decreases height, 1
  {
    Indexed(n, height) && Flatten(n) != [] && end == Flatten(n)[|Flatten(n)| - 1].end
  }

  lemma {:induction false} FlattenSplit(cs: seq<Node>, k: nat)
    requires k < |cs|
    ensures FlattenAll(cs) == FlattenAll(cs[..k]) + Flatten(cs[k]) + FlattenAll(cs[k + 1..])
  {
    if k == 0 {
      assert cs[..0] == [];
    } else {
      FlattenSplit(cs[1..], k - 1);
      assert cs[1..][..k - 1] == cs[1..k] && cs[..k][1..] == cs[1..k] && cs[1..][k..] == cs[k + 1..];
    }
  }

  lemma FlattenPush(cs: seq<Node>, n: Node)
    ensures FlattenAll(cs + [n]) == FlattenAll(cs) + Flatten(n)
  {
    FlattenSplit(cs + [n], |cs|);
    assert (cs + [n])[..|cs|] == cs && (cs + [n])[|cs| + 1..] == [];
  }

  function Power(height: nat): (c: nat)
    ensures c > 0
  {
    if height == 0 then 1 else FANOUT * Power(height - 1)
  }

  /** minimm_vma_tree_child_capacity */
  method ChildCapacity(height: nat) returns (capacity: nat)
    requires height > 0
    ensures capacity == Power(height)
  {
    capacity := FANOUT;
    for level := 1 to height
      invariant capacity == Power(level)
    {
      capacity := capacity * FANOUT;
    }
  }

  /** minimm_vma_tree_build_node; None when memory runs out. */
  method BuildNode(ranges: seq<Range>, height: nat) returns (node: Option<Node>)
    requires 1 <= |ranges| <= Power(height + 1)
    ensures node.Some? ==> Indexed(node.value, height) && Flatten(node.value) == ranges
    decreases height, 1
  {
    var available: bool := *;
    if !available {
      return None;
    }
    if height == 0 {
      return Some(Leaf(seq(|ranges|, i requires 0 <= i < |ranges| => ranges[i].end), ranges));
    }
    var capacity := ChildCapacity(height);
    var maxEnd, children, offset := [], [], 0;
    while offset < |ranges|
      invariant offset <= |ranges| && BuiltSoFar(ranges, offset, capacity, maxEnd, children, height)
    {
      var remaining := |ranges| - offset;
      var n := if remaining < capacity then remaining else capacity;
      NextChunk(|children|, capacity, |ranges|, n);
      var child := BuildNode(ranges[offset..offset + n], height - 1);
      if child.None? {
        return None;
      }
      BuiltOneMore(ranges, offset, capacity, maxEnd, children, height, child.value, n);
      children := children + [child.value];
      maxEnd := maxEnd + [ranges[offset + n - 1].end];
      offset := offset + n;
    }
    assert ranges[..|ranges|] == ranges;
    node := Some(Inner(maxEnd, children));
  }

  /** The loop of the above: all children but the last are full. */
  ghost predicate BuiltSoFar(ranges: seq<Range>, offset: nat, capacity: nat, maxEnd: seq<nat>, children: seq<Node>,
                             height: nat)
    requires offset <= |ranges| && height > 0
  {
    && |maxEnd| == |children|
    && (if offset < |ranges| then offset == |children| * capacity else 1 <= |children| <= FANOUT)
    && FlattenAll(children) == ranges[..offset]
    && forall i :: 0 <= i < |children| ==> ChildOk(children[i], maxEnd[i], height - 1)
  }

  lemma BuiltOneMore(ranges: seq<Range>, offset: nat, capacity: nat, maxEnd: seq<nat>, children: seq<Node>, height: nat,
                     child: Node, n: nat)
    requires offset < |ranges| <= FANOUT * capacity && height > 0
    requires BuiltSoFar(ranges, offset, capacity, maxEnd, children, height)
    requires n == if |ranges| - offset < capacity then |ranges| - offset else capacity
    requires Indexed(child, height - 1) && n > 0 && Flatten(child) == ranges[offset..offset + n]
    ensures BuiltSoFar(ranges, offset + n, capacity, maxEnd + [ranges[offset + n - 1].end], children + [child], height)
  {
    hide Flatten, FlattenAll, ChildOk;
    NextChunk(|children|, capacity, |ranges|, n);
    FlattenPush(children, child);
    assert ranges[..offset + n] == ranges[..offset] + ranges[offset..offset + n];
    ChildIs(child, ranges[offset..offset + n], height - 1);
  }

  lemma ChildIs(n: Node, ranges: seq<Range>, height: nat)
    requires Indexed(n, height) && Flatten(n) == ranges && ranges != []
    ensures ChildOk(n, ranges[|ranges| - 1].end, height)
  {
  }

  /** Full children so far leave room for one more, and one more full child leaves full children. */
  lemma NextChunk(m: nat, c: nat, total: nat, n: nat)
    requires m * c < total <= FANOUT * c && n == if total - m * c < c then total - m * c else c
    ensures m < FANOUT && n > 0 && (m * c + n < total ==> m * c + n == (m + 1) * c)
  {
    assert m * c == FANOUT * c + (m - FANOUT) * c;
  }

  function Height(n: Node): nat {
    if n.Inner? && n.children != [] then 1 + Height(n.children[0]) else 0
  }

  lemma {:induction false} IndexedHeight(n: Node, height: nat)
    requires Indexed(n, height)
    ensures Height(n) == height
  {
    if n.Inner? {
      assert ChildOk(n.children[0], n.maxEnd[0], height - 1);
      IndexedHeight(n.children[0], height - 1);
    }
  }

  /** minimm_vma_tree_build */
  method BuildTree(ranges: seq<Range>) returns (status: Status, root: Option<Node>)
    ensures status in {Ok, NoSpace, OutOfMemory}
    ensures status == Ok ==> (root.None? <==> ranges == [])
    ensures status == Ok && root.Some? ==> Indexed(root.value, Height(root.value)) && Flatten(root.value) == ranges
  {
    if ranges == [] {
      return Ok, None;
    }
    var capacity, height := FANOUT, 0;
    while |ranges| > capacity
      invariant capacity == Power(height + 1)
      decreases |ranges| - capacity
    {
      if capacity > UINT64_MAX / FANOUT {
        return NoSpace, None;
      }
      capacity := capacity * FANOUT;
      height := height + 1;
    }
    root := BuildNode(ranges, height);
    if root.None? {
      return OutOfMemory, None;
    }
    IndexedHeight(root.value, height);
    status := Ok;
  }

  /** Below the first separator above `a` is the only place where `a` can be mapped. */
  lemma DescentKeeps(n: Node, height: nat, k: nat, a: nat)
    requires n.Inner? && Indexed(n, height) && WellFormed(Flatten(n)) && k <= |n.children|
    requires forall i :: 0 <= i < k ==> n.maxEnd[i] <= a
    requires k < |n.children| ==> a < n.maxEnd[k]
    ensures k < |n.children| ==>
              WellFormed(Flatten(n.children[k])) && At(Flatten(n), a) == At(Flatten(n.children[k]), a)
    ensures k == |n.children| ==> At(Flatten(n), a) == None
  {
    hide At;
    var cs := n.children;
    forall i | 0 <= i < k ensures EndsBelow(Flatten(cs[i]), a) {
      EarlierBelow(n, height, i, a);
    }
    InNone(cs[..k], a);
    if k < |cs| {
      FlattenSplit(cs, k);
      var before, here, after := FlattenAll(cs[..k]), Flatten(cs[k]), FlattenAll(cs[k + 1..]);
      assert ChildOk(cs[k], n.maxEnd[k], height - 1);
      SplitMeans(before, here, after, a);
    } else {
      assert cs[..k] == cs;
    }
  }

  ghost predicate EndsBelow(rs: seq<Range>, a: nat) {
    forall i :: 0 <= i < |rs| ==> rs[i].end <= a
  }

  lemma EarlierBelow(n: Node, height: nat, i: nat, a: nat)
    requires n.Inner? && Indexed(n, height) && WellFormed(Flatten(n)) && i < |n.children| && n.maxEnd[i] <= a
    ensures EndsBelow(Flatten(n.children[i]), a)
  {
    assert ChildOk(n.children[i], n.maxEnd[i], height - 1);
    FlattenSplit(n.children, i);
    var before, here := FlattenAll(n.children[..i]), Flatten(n.children[i]);
    forall j | 0 <= j < |here| ensures here[j].end <= a {
      assert here[j] == Flatten(n)[|before| + j] && here[|here| - 1] == Flatten(n)[|before| + |here| - 1];
    }
  }

  lemma SplitMeans(before: seq<Range>, here: seq<Range>, after: seq<Range>, a: nat)
    requires WellFormed(before + here + after) && At(before, a) == None
    requires here != [] && a < here[|here| - 1].end
    ensures WellFormed(here) && At(before + here + after, a) == At(here, a)
  {
    hide At;
    var all := before + here + after;
    assert forall j :: 0 <= j < |here| ==> here[j] == all[|before| + j];
    forall j | 0 <= j < |after| ensures !Covers(after[j], a) {
      assert after[j] == all[|before| + |here| + j] && here[|here| - 1] == all[|before| + |here| - 1];
    }
    AtNowhere(after, a);
    AtConcat(before + here, after, a);
    AtConcat(before, here, a);
  }

  lemma {:induction false} InNone(cs: seq<Node>, a: nat)
    requires forall i :: 0 <= i < |cs| ==> EndsBelow(Flatten(cs[i]), a)
    ensures At(FlattenAll(cs), a) == None
  {
    if cs != [] {
      InNone(cs[1..], a);
      AtNowhere(Flatten(cs[0]), a);
      AtConcat(Flatten(cs[0]), FlattenAll(cs[1..]), a);
    }
  }

  // ------------------------------------------------------------------
  // Snapshots
  // ------------------------------------------------------------------

  datatype Snapshot = Snapshot(ranges: seq<Range>, root: Option<Node>, generation: nat)

  ghost predicate SnapshotOk(s: Snapshot) {
    && Canonical(s.ranges)
    && (s.root.None? <==> s.ranges == [])
    && (s.root.Some? ==> Indexed(s.root.value, Height(s.root.value)) && Flatten(s.root.value) == s.ranges)
  }

  const NO_RANGE := Range(0, 0, 0, 0, Prot(false, false, false, false), Prot(false, false, false, false), false)
  const EMPTY := Snapshot([], None, 1)

  /** minimm_vma_snapshot_from_ranges: any well-formed list, in the form that is unique for its meaning. */
  method FromRanges(ranges: array<Range>, count: nat, generation: nat) returns (status: Status, t: Snapshot)
    requires count <= ranges.Length && WellFormed(ranges[..count])
    modifies ranges
    ensures status == Ok || status == NoSpace || status == OutOfMemory
    ensures status == Ok ==>
              SnapshotOk(t) && t.generation == generation && forall a :: At(t.ranges, a) == At(old(ranges[..count]), a)
  {
    t := EMPTY;
    var available: bool := *;
    if !available {
      return OutOfMemory, t;
    }
    ghost var input := ranges[..count];
    var output := CoalesceRanges(ranges, count);
    CoalesceCanonical(input);
    forall a ensures At(ranges[..output], a) == At(input, a) {
      CoalesceMeans(input, a);
    }
    var root;
    status, root := BuildTree(ranges[..output]);
    t := Snapshot(ranges[..output], root, generation);
  }

  /** The position of the first range that starts at or above `start`. */
  method LowerBound(rs: seq<Range>, start: nat) returns (low: nat)
    requires WellFormed(rs)
    ensures low <= |rs|
    ensures forall k :: 0 <= k < low ==> rs[k].start < start
    ensures forall k :: low <= k < |rs| ==> start <= rs[k].start
  {
    low := 0;
    var high := |rs|;
    while low < high
      invariant low <= high <= |rs|
      invariant forall k :: 0 <= k < low ==> rs[k].start < start
      invariant forall k :: high <= k < |rs| ==> start <= rs[k].start
    {
      var middle := low + (high - low) / 2;
      if rs[middle].start < start {
        low := middle + 1;
      } else {
        high := middle;
      }
    }
  }

  /** minimm_vma_snapshot_insert */
  method Insert(s: Snapshot, r: Range) returns (status: Status, t: Snapshot)
    requires SnapshotOk(s)
    ensures !RangeValid(r) ==> status == InvalidArgument
    ensures RangeValid(r) ==> (status == AddressInUse <==> exists a :: Covers(r, a) && At(s.ranges, a).Some?)
    ensures status in {Ok, InvalidArgument, AddressInUse, NoSpace, OutOfMemory}
    ensures status == Ok ==> SnapshotOk(t) && t.generation == s.generation + 1
    ensures status == Ok ==> forall a :: At(t.ranges, a) == if Covers(r, a) then Some(AttrAt(r, a)) else At(s.ranges, a)
  {
    hide At;
    t := EMPTY;
    if !RangeValid(r) {
      return InvalidArgument, t;
    }
    var low := LowerBound(s.ranges, r.start);
    if low > 0 && s.ranges[low - 1].end > r.start {
      AtCovered(s.ranges, low - 1, r.start);
      return AddressInUse, t;
    }
    if low < |s.ranges| && s.ranges[low].start < r.end {
      AtCovered(s.ranges, low, s.ranges[low].start);
      return AddressInUse, t;
    }
    assert Fits(s.ranges, low, r);
    status, t := InsertAt(s, low, r);
    forall a ensures Covers(r, a) ==> At(s.ranges, a) == None {
      WithMeans(s.ranges, low, r, a);
    }
  }

  method InsertAt(s: Snapshot, k: nat, r: Range) returns (status: Status, t: Snapshot)
    requires SnapshotOk(s) && RangeValid(r) && Fits(s.ranges, k, r)
    ensures status in {Ok, NoSpace, OutOfMemory}
    ensures status == Ok ==> SnapshotOk(t) && t.generation == s.generation + 1
    ensures status == Ok ==> forall a :: At(t.ranges, a) == if Covers(r, a) then Some(AttrAt(r, a)) else At(s.ranges, a)
  {
    hide At, RangeValid;
    t := EMPTY;
    if |s.ranges| == UINT64_MAX || s.generation == UINT64_MAX {
      return NoSpace, t;
    }
    var available: bool := *;
    if !available {
      return OutOfMemory, t;
    }
    WithWellFormed(s.ranges, k, r);
    forall a ensures At(With(s.ranges, k, r), a) == if Covers(r, a) then Some(AttrAt(r, a)) else At(s.ranges, a) {
      WithMeans(s.ranges, k, r, a);
    }
    var list := With(s.ranges, k, r);
    var ranges := new Range[|list|](i requires 0 <= i < |list| => list[i]);
    assert ranges[..|list|] == list;
    status, t := FromRanges(ranges, |list|, s.generation + 1);
  }

  /** minimm_vma_snapshot_lookup: descent and leaf search agree with the plain list. */
  method Lookup(s: Snapshot, a: nat) returns (found: Option<Range>)
    requires SnapshotOk(s)
    ensures found.Some? ==>
              found.value in s.ranges && Covers(found.value, a) && At(s.ranges, a) == Some(AttrAt(found.value, a))
    ensures found.None? ==> At(s.ranges, a) == None
  {
    if a >= ADDRESS_LIMIT || s.root.None? {
      AtNowhere(s.ranges, a);
      return None;
    }
    var node := s.root.value;
    ghost var h := Height(node);
    while node.Inner?
      invariant Indexed(node, h) && WellFormed(Flatten(node))
      invariant At(s.ranges, a) == At(Flatten(node), a)
      invariant forall r :: r in Flatten(node) ==> r in s.ranges
      decreases h
    {
      var i := 0;
      while i < |node.maxEnd| && a >= node.maxEnd[i]
        invariant i <= |node.maxEnd| && forall k :: 0 <= k < i ==> node.maxEnd[k] <= a
      {
        i := i + 1;
      }
      DescentKeeps(node, h, i, a);
      if i == |node.maxEnd| {
        return None;
      }
      FlattenSplit(node.children, i);
      node, h := node.children[i], h - 1;
    }
    found := SearchLeaf(node.ranges, a);
  }

  lemma StartsOrdered(rs: seq<Range>)
    requires WellFormed(rs)
    ensures forall i, j :: 0 <= i < j < |rs| ==> rs[i].start < rs[i].end <= rs[j].start
  {
  }

  /** The binary search of minimm_vma_snapshot_lookup within one leaf */
  method SearchLeaf(ranges: seq<Range>, a: nat) returns (found: Option<Range>)
    requires WellFormed(ranges)
    ensures found.Some? ==>
              found.value in ranges && Covers(found.value, a) && At(ranges, a) == Some(AttrAt(found.value, a))
    ensures found.None? ==> At(ranges, a) == None
  {
    StartsOrdered(ranges);
    hide At, RangeValid;
    var low, high := 0, |ranges|;
    while low < high
      invariant low <= high <= |ranges|
      invariant forall k :: 0 <= k < low ==> ranges[k].start <= a
      invariant forall k :: high <= k < |ranges| ==> a < ranges[k].start
    {
      var middle := low + (high - low) / 2;
      if ranges[middle].start <= a {
        low := middle + 1;
      } else {
        high := middle;
      }
    }
    if low != 0 && a < ranges[low - 1].end {
      AtCovered(ranges, low - 1, a);
      return Some(ranges[low - 1]);
    }
    AtNowhere(ranges, a);
    found := None;
  }

  /** A list with one more range in its place. */
  function With(rs: seq<Range>, k: nat, r: Range): seq<Range>
    requires k <= |rs|
  {
    rs[..k] + [r] + rs[k..]
  }

  ghost predicate Fits(rs: seq<Range>, k: nat, r: Range) {
    && k <= |rs|
    && (forall i :: 0 <= i < k ==> rs[i].end <= r.start)
    && (forall i :: k <= i < |rs| ==> r.end <= rs[i].start)
  }

  lemma WithWellFormed(rs: seq<Range>, k: nat, r: Range)
    requires WellFormed(rs) && RangeValid(r) && Fits(rs, k, r)
    ensures WellFormed(With(rs, k, r))
  {
  }

  lemma WithMeans(rs: seq<Range>, k: nat, r: Range, a: nat)
    requires RangeValid(r) && Fits(rs, k, r)
    ensures At(With(rs, k, r), a) == if Covers(r, a) then Some(AttrAt(r, a)) else At(rs, a)
    ensures Covers(r, a) ==> At(rs, a) == None
  {
    hide At;
    assert rs == rs[..k] + rs[k..];
    AtConcat(rs[..k], rs[k..], a);
    AtConcat(rs[..k] + [r], rs[k..], a);
    AtLast(rs[..k], r, a);
    if Covers(r, a) {
      AtNowhere(rs, a);
    }
  }

  // ------------------------------------------------------------------
  // Removing and protecting a window of addresses
  // ------------------------------------------------------------------

  /** minimm_vma_fragment; the offset it computes cannot overflow for a valid source. */
  function Fragment(r: Range, start: nat, end: nat): Range
    requires r.start <= start
  {
    r.(start := start, end := end, offset := r.offset + (start - r.start))
  }

  /** What is left of a range when [start, end) is removed or gets another protection. */
  function Pieces(r: Range, start: nat, end: nat, change: Option<Prot>): seq<Range>
    requires start < end
  {
    if r.end <= start || r.start >= end then [r] else
    var from := if r.start > start then r.start else start;
    var to := if r.end < end then r.end else end;
    (if r.start < start then [Fragment(r, r.start, start)] else [])
    + (if change.Some? then [Fragment(r, from, to).(prot := change.value)] else [])
    + (if r.end > end then [Fragment(r, end, r.end)] else [])
  }

  function AllPieces(rs: seq<Range>, start: nat, end: nat, change: Option<Prot>): seq<Range>
    requires start < end
  {
    if rs == [] then []
    else AllPieces(rs[..|rs| - 1], start, end, change) + Pieces(rs[|rs| - 1], start, end, change)
  }

  /** The meaning after the change, address by address. */
  function Changed(was: Option<Attr>, a: nat, start: nat, end: nat, change: Option<Prot>): Option<Attr> {
    if was.None? || !(start <= a < end) then was
    else if change.Some? then Some(was.value.(prot := change.value)) else None
  }

  ghost predicate Inside(ps: seq<Range>, r: Range) {
    forall i :: 0 <= i < |ps| ==> RangeValid(ps[i]) && r.start <= ps[i].start && ps[i].end <= r.end
  }

  lemma PiecesInside(r: Range, start: nat, end: nat, change: Option<Prot>)
    requires RangeValid(r) && PageRange(start, end)
    requires change.Some? && start < r.end && r.start < end ==> ProtValid(change.value) && Within(change.value, r.max)
    ensures Inside(Pieces(r, start, end, change), r) && WellFormed(Pieces(r, start, end, change))
  {
    if r.end > start && r.start < end {
      PiecesValid(r, start, end, change);
    }
    assert r.start < r.end;
    hide RangeValid;
  }

  lemma PiecesValid(r: Range, start: nat, end: nat, change: Option<Prot>)
    requires RangeValid(r) && PageRange(start, end) && r.end > start && r.start < end
    requires change.Some? ==> ProtValid(change.value) && Within(change.value, r.max)
    ensures r.start < start ==> RangeValid(Fragment(r, r.start, start))
    ensures r.end > end ==> RangeValid(Fragment(r, end, r.end))
    ensures change.Some? ==>
              RangeValid(Fragment(r, if r.start > start then r.start else start,
                                  if r.end < end then r.end else end).(prot := change.value))
  {
    var from, to := if r.start > start then r.start else start, if r.end < end then r.end else end;
    if change.Some? {
      FragmentValid(r, from, to, change.value);
    }
    if r.start < start {
      FragmentValid(r, r.start, start, r.prot);
    }
    if r.end > end {
      FragmentValid(r, end, r.end, r.prot);
    }
    hide RangeValid;
    assert r.start < start ==> Fragment(r, r.start, start).(prot := r.prot) == Fragment(r, r.start, start);
    assert r.end > end ==> Fragment(r, end, r.end).(prot := r.prot) == Fragment(r, end, r.end);
  }

  lemma FragmentValid(r: Range, from: nat, to: nat, prot: Prot)
    requires RangeValid(r) && r.start <= from < to <= r.end && from % PAGE_SIZE == 0 && to % PAGE_SIZE == 0
    requires ProtValid(prot) && Within(prot, r.max)
    ensures RangeValid(Fragment(r, from, to).(prot := prot))
  {
    AlignedSum(r.offset, from, r.start);
  }

  lemma AlignedSum(x: nat, y: nat, z: nat)
    requires x % PAGE_SIZE == 0 && y % PAGE_SIZE == 0 && z % PAGE_SIZE == 0 && z <= y
    ensures (x + (y - z)) % PAGE_SIZE == 0
  {
  }

  lemma PiecesMean(r: Range, start: nat, end: nat, change: Option<Prot>, a: nat)
    requires RangeValid(r) && start < end
    ensures At(Pieces(r, start, end, change), a)
         == Changed(if Covers(r, a) then Some(AttrAt(r, a)) else None, a, start, end, change)
  {
    hide At;
    if r.end <= start || r.start >= end {
      AtOne(r, a);
    } else {
      var from := if r.start > start then r.start else start;
      var to := if r.end < end then r.end else end;
      var left := if r.start < start then [Fragment(r, r.start, start)] else [];
      var middle := if change.Some? then [Fragment(r, from, to).(prot := change.value)] else [];
      var right := if r.end > end then [Fragment(r, end, r.end)] else [];
      assert Pieces(r, start, end, change) == left + middle + right;
      AtConcat(left + middle, right, a);
      AtConcat(left, middle, a);
      AtOne(Fragment(r, r.start, start), a);
      AtOne(Fragment(r, from, to).(prot := if change.Some? then change.value else r.prot), a);
      if r.end > end {
        AtOne(Fragment(r, end, r.end), a);
      }
    }
  }

  lemma AtOne(r: Range, a: nat)
    ensures At([r], a) == if Covers(r, a) then Some(AttrAt(r, a)) else None
    ensures At([], a) == None
  {
  }

  ghost predicate MayChange(rs: seq<Range>, start: nat, end: nat, change: Option<Prot>) {
    change.Some? ==>
      && ProtValid(change.value)
      && forall i :: 0 <= i < |rs| && start < rs[i].end && rs[i].start < end ==> Within(change.value, rs[i].max)
  }

  ghost predicate Between(ps: seq<Range>, low: nat, high: nat) {
    forall i :: 0 <= i < |ps| ==> low <= ps[i].start && ps[i].end <= high
  }

  lemma WellFormedConcat(l: seq<Range>, r: seq<Range>, low: nat, middle: nat, high: nat)
    requires WellFormed(l) && WellFormed(r) && Between(l, low, middle) && Between(r, middle, high)
    requires low <= middle <= high
    ensures WellFormed(l + r) && Between(l + r, low, high)
  {
    hide RangeValid;
  }

  lemma {:induction false} AllPiecesWellFormed(rs: seq<Range>, start: nat, end: nat, change: Option<Prot>)
    requires WellFormed(rs) && PageRange(start, end) && MayChange(rs, start, end, change)
    ensures WellFormed(AllPieces(rs, start, end, change))
    ensures Between(AllPieces(rs, start, end, change), 0, if rs == [] then 0 else rs[|rs| - 1].end)
  {
    if rs != [] {
      var n := |rs| - 1;
      var before, here := AllPieces(rs[..n], start, end, change), Pieces(rs[n], start, end, change);
      AllPiecesWellFormed(rs[..n], start, end, change);
      PiecesInside(rs[n], start, end, change);
      assert Between(before, 0, rs[n].start) && rs[n].start <= rs[n].end;
      assert Between(here, rs[n].start, rs[n].end);
      hide WellFormed, Between;
      WellFormedConcat(before, here, 0, rs[n].start, rs[n].end);
    }
  }

  lemma {:induction false} AllPiecesMean(rs: seq<Range>, start: nat, end: nat, change: Option<Prot>, a: nat)
    requires WellFormed(rs) && start < end
    ensures At(AllPieces(rs, start, end, change), a) == Changed(At(rs, a), a, start, end, change)
  {
    if rs != [] {
      var n := |rs| - 1;
      assert rs == rs[..n] + [rs[n]];
      AllPiecesMean(rs[..n], start, end, change, a);
      PiecesMean(rs[n], start, end, change, a);
      AtConcat(AllPieces(rs[..n], start, end, change), Pieces(rs[n], start, end, change), a);
      AtLast(rs[..n], rs[n], a);
      if Covers(rs[n], a) {
        AtNowhere(rs[..n], a);
      }
    }
  }

  /** The counting pass of remove and protect: exactly the room that the filling pass needs. */
  method CountPieces(rs: seq<Range>, start: nat, end: nat, change: Option<Prot>) returns (status: Status, count: nat)
    requires start < end && WellFormed(rs)
    ensures status == Ok ==> count == |AllPieces(rs, start, end, change)|
    ensures status == Ok || status == NoSpace
  {
    count := 0;
    hide WellFormed;
    for i := 0 to |rs|
      invariant count == |AllPieces(rs[..i], start, end, change)|
    {
      assert rs[..i + 1][..i] == rs[..i];
      assert |AllPieces(rs[..i + 1], start, end, change)| == count + |Pieces(rs[i], start, end, change)|;
      hide AllPieces;
      var additions;
      if rs[i].end <= start || rs[i].start >= end {
        additions := 1;
      } else {
        additions := (if change.Some? then 1 else 0) + (if rs[i].start < start then 1 else 0)
                     + (if rs[i].end > end then 1 else 0);
      }
      if count > UINT64_MAX - additions {
        return NoSpace, count;
      }
      count := count + additions;
    }
    assert rs[..|rs|] == rs;
    status := Ok;
  }

  /** The two passes shared by minimm_vma_snapshot_remove and minimm_vma_snapshot_protect. */
  method Rewrite(s: Snapshot, start: nat, end: nat, change: Option<Prot>) returns (status: Status, t: Snapshot)
    requires SnapshotOk(s) && PageRange(start, end) && MayChange(s.ranges, start, end, change)
    ensures status in {Ok, NoSpace, OutOfMemory}
    ensures status == Ok ==> SnapshotOk(t) && t.generation == s.generation + 1
    ensures status == Ok ==> forall a :: At(t.ranges, a) == Changed(At(s.ranges, a), a, start, end, change)
  {
    hide At, Pieces, Changed;
    t := EMPTY;
    var count;
    status, count := CountPieces(s.ranges, start, end, change);
    if status != Ok {
      return;
    }
    if s.generation == UINT64_MAX {
      return NoSpace, t;
    }
    var available: bool := *;
    if !available {
      return OutOfMemory, t;
    }
    var ranges := new Range[count](_ => NO_RANGE);
    FillPieces(ranges, s.ranges, start, end, change);
    AllPiecesWellFormed(s.ranges, start, end, change);
    forall a ensures At(AllPieces(s.ranges, start, end, change), a) == Changed(At(s.ranges, a), a, start, end, change) {
      AllPiecesMean(s.ranges, start, end, change, a);
    }
    assert ranges[..count] == ranges[..];
    status, t := FromRanges(ranges, count, s.generation + 1);
  }

  method FillPieces(ranges: array<Range>, rs: seq<Range>, start: nat, end: nat, change: Option<Prot>)
    requires start < end && ranges.Length == |AllPieces(rs, start, end, change)|
    modifies ranges
    ensures ranges[..] == AllPieces(rs, start, end, change)
  {
    hide Pieces;
    var output := 0;
    assert rs[..|rs|] == rs;
    for i := 0 to |rs|
      invariant output == |AllPieces(rs[..i], start, end, change)| <= ranges.Length
      invariant ranges[..output] == AllPieces(rs[..i], start, end, change)
    {
      PiecesPrefix(rs, i, start, end, change);
      output := Append(ranges, output, Pieces(rs[i], start, end, change));
      assert rs[..i + 1][..i] == rs[..i];
    }
  }

  method Append(ranges: array<Range>, from: nat, pieces: seq<Range>) returns (output: nat)
    requires from + |pieces| <= ranges.Length
    modifies ranges
    ensures output == from + |pieces| && ranges[..output] == old(ranges[..from]) + pieces
  {
    output := from;
    for k := 0 to |pieces|
      invariant output == from + k && ranges[..output] == old(ranges[..from]) + pieces[..k]
    {
      ranges[output] := pieces[k];
      output := output + 1;
    }
  }

  lemma {:induction false} PiecesPrefix(rs: seq<Range>, i: nat, start: nat, end: nat, change: Option<Prot>)
    requires start < end && i < |rs|
    ensures AllPieces(rs[..i], start, end, change) + Pieces(rs[i], start, end, change) <=
        AllPieces(rs, start, end, change)
    decreases |rs|
  {
    if i < |rs| - 1 {
      assert rs[..|rs| - 1][..i] == rs[..i];
      PiecesPrefix(rs[..|rs| - 1], i, start, end, change);
    }
  }

  /** minimm_vma_snapshot_remove */
  method Remove(s: Snapshot, start: nat, end: nat) returns (status: Status, t: Snapshot)
    requires SnapshotOk(s)
    ensures !PageRange(start, end) <==> status == InvalidArgument
    ensures status in {Ok, InvalidArgument, NoSpace, OutOfMemory}
    ensures status == Ok ==> SnapshotOk(t) && t.generation == s.generation + 1
    ensures status == Ok ==> forall a: nat :: At(t.ranges, a) == if start <= a < end then None else At(s.ranges, a)
  {
    hide At;
    if !PageRange(start, end) {
      return InvalidArgument, EMPTY;
    }
    status, t := Rewrite(s, start, end, None);
  }

  /** minimm_vma_snapshot_protect: only if the whole window is mapped and allows the protection. */
  method Protect(s: Snapshot, start: nat, end: nat, prot: Prot) returns (status: Status, t: Snapshot)
    requires SnapshotOk(s)
    ensures !(PageRange(start, end) && ProtValid(prot)) <==> status == InvalidArgument
    ensures status in {Ok, NoSpace, OutOfMemory} <==>
              && PageRange(start, end) && ProtValid(prot)
              && forall a: nat :: start <= a < end ==> At(s.ranges, a).Some? && Within(prot, At(s.ranges, a).value.max)
    ensures status == Ok ==> SnapshotOk(t) && t.generation == s.generation + 1
    ensures status == Ok ==> forall a :: At(t.ranges, a) == Changed(At(s.ranges, a), a, start, end, Some(prot))
  {
    hide At;
    t := EMPTY;
    if !PageRange(start, end) || !ProtValid(prot) {
      return InvalidArgument, t;
    }
    var covered, i := start, 0;
    while i < |s.ranges| && covered < end
      invariant start <= covered <= end && i <= |s.ranges|
      invariant forall k :: 0 <= k < i ==> s.ranges[k].end <= covered || covered == end
      invariant forall a: nat :: start <= a < covered ==>
                  At(s.ranges, a).Some? && Within(prot, At(s.ranges, a).value.max)
    {
      var r := s.ranges[i];
      if r.end > covered {
        if r.start > covered || r.start >= end {
          AtNowhere(s.ranges, covered);
          return NotFound, t;
        }
        AtCovered(s.ranges, i, covered);
        if !Within(prot, r.max) {
          return Permission, t;
        }
        forall a: nat | covered <= a < r.end ensures At(s.ranges, a) == Some(AttrAt(r, a)) {
          AtCovered(s.ranges, i, a);
        }
        covered := if r.end < end then r.end else end;
      }
      i := i + 1;
    }
    if covered != end {
      AtNowhere(s.ranges, covered);
      return NotFound, t;
    }
    CoverageAllows(s.ranges, start, end, prot);
    status, t := Rewrite(s, start, end, Some(prot));
  }

  lemma CoverageAllows(rs: seq<Range>, start: nat, end: nat, prot: Prot)
    requires WellFormed(rs) && ProtValid(prot) && start < end
    requires forall a: nat :: start <= a < end ==> At(rs, a).Some? && Within(prot, At(rs, a).value.max)
    ensures MayChange(rs, start, end, Some(prot))
  {
    forall i | 0 <= i < |rs| && start < rs[i].end && rs[i].start < end ensures Within(prot, rs[i].max) {
      var a := if start < rs[i].start then rs[i].start else start;
      AtCovered(rs, i, a);
      assert start <= a < end;
    }
  }

  /** minimm_vma_snapshot_find_next: the range containing `a`, or the first one after it. */
  method FindNext(s: Snapshot, a: nat) returns (next: Option<Range>)
    requires SnapshotOk(s)
    ensures next.Some? ==> next.value in s.ranges && a < next.value.end && a < ADDRESS_LIMIT
    ensures next.Some? ==> forall b: nat :: a <= b < next.value.start ==> At(s.ranges, b) == None
    ensures next.None? ==> forall b: nat :: a <= b ==> At(s.ranges, b) == None
  {
    hide At;
    if a >= ADDRESS_LIMIT {
      forall b: nat | a <= b ensures At(s.ranges, b) == None {
        AtNowhere(s.ranges, b);
      }
      return None;
    }
    var low, high := 0, |s.ranges|;
    while low < high
      invariant low <= high <= |s.ranges|
      invariant forall k :: 0 <= k < low ==> s.ranges[k].end <= a
      invariant forall k :: high <= k < |s.ranges| ==> a < s.ranges[k].end
    {
      var middle := low + (high - low) / 2;
      if s.ranges[middle].end <= a {
        low := middle + 1;
      } else {
        high := middle;
      }
    }
    forall b: nat | a <= b && (low < |s.ranges| ==> b < s.ranges[low].start) ensures At(s.ranges, b) == None {
      AtNowhere(s.ranges, b);
    }
    next := if low < |s.ranges| then Some(s.ranges[low]) else None;
  }

  // ------------------------------------------------------------------
  // First fit
  // ------------------------------------------------------------------

  predicate IsPowerOfTwo(n: nat) {
    n == 1 || (n > 0 && n % 2 == 0 && IsPowerOfTwo(n / 2))
  }

  function Times(k: nat, n: nat): nat {
    k * n
  }

  ghost predicate Aligned(x: nat, alignment: nat) {
    exists k: nat :: x == Times(k, alignment)
  }

  /** minimm_vma_align_up, for an alignment that is a power of two. */
  function AlignUp(value: nat, alignment: nat): (r: Option<nat>)
    requires alignment > 0
    ensures r.Some? ==> Aligned(r.value, alignment) && value <= r.value < value + alignment
    ensures r.None? <==> value > UINT64_MAX - (alignment - 1)
  {
    if value > UINT64_MAX - (alignment - 1) then None
    else Some(Times((value + (alignment - 1)) / alignment, alignment))
  }

  /** Multiples are at least the alignment apart. */
  lemma MultiplesApart(x: nat, y: nat, alignment: nat)
    requires Aligned(x, alignment) && Aligned(y, alignment) && x < y
    ensures x + alignment <= y
  {
    var j: nat :| x == Times(j, alignment);
    var k: nat :| y == Times(k, alignment);
    if k <= j {
      TimesGrow(k, j, alignment);
    } else {
      TimesGrow(j, k, alignment);
    }
  }

  lemma {:induction false} TimesGrow(j: nat, k: nat, n: nat)
    requires j <= k
    ensures Times(j, n) <= Times(k, n) && (j < k ==> Times(j, n) + n <= Times(k, n))
    decreases k
  {
    if j < k {
      TimesGrow(j, k - 1, n);
      assert k * n == (k - 1) * n + n;
    }
  }

  ghost predicate IsGap(rs: seq<Range>, lower: nat, upper: nat, length: nat, alignment: nat, x: nat) {
    && lower <= x && x + length <= upper && Aligned(x, alignment)
    && forall a: nat :: x <= a < x + length ==> At(rs, a) == None
  }

  /** minimm_vma_snapshot_find_gap is exact first fit. */
  method FindGap(s: Snapshot, lower: nat, upper: nat, length: nat, alignment: nat)
    returns (status: Status, address: nat)
    requires SnapshotOk(s)
    ensures status == InvalidArgument <==>
              !(lower < upper <= ADDRESS_LIMIT && length > 0 && length % PAGE_SIZE == 0
                && PAGE_SIZE <= alignment <= UINT64_MAX && IsPowerOfTwo(alignment))
    ensures status in {Ok, InvalidArgument, NoSpace}
    ensures status == Ok ==> IsGap(s.ranges, lower, upper, length, alignment, address)
    ensures status == Ok ==> forall y: nat :: IsGap(s.ranges, lower, upper, length, alignment, y) ==> address <= y
    ensures status == NoSpace ==> forall y: nat :: !IsGap(s.ranges, lower, upper, length, alignment, y)
  {
    hide At, Aligned, RangeValid;
    FloorOfGaps(s.ranges, lower, upper, length, alignment);
    assert forall k :: 0 <= k < |s.ranges| ==> s.ranges[k].end <= ADDRESS_LIMIT by { RangesBelow(s.ranges); }
    hide IsGap;
    address := 0;
    if !(lower < upper <= ADDRESS_LIMIT && length > 0 && length % PAGE_SIZE == 0
         && PAGE_SIZE <= alignment <= UINT64_MAX && IsPowerOfTwo(alignment)) {
      return InvalidArgument, address;
    }
    var rounded := AlignUp(lower, alignment);
    if rounded.None? {
      NoneBeyond(s.ranges, lower, upper, length, alignment, lower);
      return NoSpace, address;
    }
    var candidate, i := rounded.value, 0;
    NoneBefore(s.ranges, lower, upper, length, alignment, lower, candidate);
    while i < |s.ranges| && s.ranges[i].start < upper
      invariant i <= |s.ranges| && lower <= candidate && Aligned(candidate, alignment)
      invariant forall k :: 0 <= k < i ==> s.ranges[k].end <= candidate
      invariant forall y: nat :: IsGap(s.ranges, lower, upper, length, alignment, y) ==> candidate <= y
    {
      var r := s.ranges[i];
      if r.end > lower {
        if candidate < r.start && length <= r.start - candidate {
          GapHere(s.ranges, lower, upper, length, alignment, candidate, i);
          return Ok, candidate;
        }
        if candidate < r.end {
          PastRange(s.ranges, lower, upper, length, alignment, candidate, i);
          rounded := AlignUp(r.end, alignment);
          if rounded.None? {
            NoneBeyond(s.ranges, lower, upper, length, alignment, r.end);
            return NoSpace, address;
          }
          candidate := rounded.value;
          NoneBefore(s.ranges, lower, upper, length, alignment, r.end, candidate);
        }
      }
      i := i + 1;
    }
    if candidate <= upper && length <= upper - candidate {
      GapHere(s.ranges, lower, upper, length, alignment, candidate, i);
      return Ok, candidate;
    }
    NoRoom(s.ranges, lower, upper, length, alignment, candidate);
    status := NoSpace;
  }

  lemma GapHere(rs: seq<Range>, lower: nat, upper: nat, length: nat, alignment: nat, candidate: nat, i: nat)
    requires WellFormed(rs) && i <= |rs| && lower <= candidate && Aligned(candidate, alignment)
    requires candidate + length <= upper && (i < |rs| ==> candidate + length <= rs[i].start)
    requires forall k :: 0 <= k < i ==> rs[k].end <= candidate
    ensures IsGap(rs, lower, upper, length, alignment, candidate)
  {
    forall a: nat | candidate <= a < candidate + length ensures At(rs, a) == None {
      AtNowhere(rs, a);
    }
  }

  lemma FloorOfGaps(rs: seq<Range>, lower: nat, upper: nat, length: nat, alignment: nat)
    ensures forall y: nat :: IsGap(rs, lower, upper, length, alignment, y) ==> lower <= y
  {
  }

  lemma RangesBelow(rs: seq<Range>)
    requires WellFormed(rs)
    ensures forall k :: 0 <= k < |rs| ==> rs[k].end <= ADDRESS_LIMIT
  {
  }

  lemma NoRoom(rs: seq<Range>, lower: nat, upper: nat, length: nat, alignment: nat, candidate: nat)
    requires candidate + length > upper
    requires forall y: nat :: IsGap(rs, lower, upper, length, alignment, y) ==> candidate <= y
    ensures forall y: nat :: !IsGap(rs, lower, upper, length, alignment, y)
  {
  }

  lemma NoneBefore(rs: seq<Range>, lower: nat, upper: nat, length: nat, alignment: nat, from: nat, candidate: nat)
    requires alignment > 0 && AlignUp(from, alignment) == Some(candidate)
    requires forall y: nat :: IsGap(rs, lower, upper, length, alignment, y) ==> from <= y
    ensures forall y: nat :: IsGap(rs, lower, upper, length, alignment, y) ==> candidate <= y
  {
    forall y: nat | IsGap(rs, lower, upper, length, alignment, y) ensures candidate <= y {
      if y < candidate {
        MultiplesApart(y, candidate, alignment);
      }
    }
  }

  lemma NoneBeyond(rs: seq<Range>, lower: nat, upper: nat, length: nat, alignment: nat, from: nat)
    requires 0 < alignment <= UINT64_MAX && AlignUp(from, alignment).None? && upper <= ADDRESS_LIMIT && length > 0
    requires forall y: nat :: IsGap(rs, lower, upper, length, alignment, y) ==> from <= y
    requires from <= ADDRESS_LIMIT
    ensures forall y: nat :: !IsGap(rs, lower, upper, length, alignment, y)
  {
    forall y: nat ensures !IsGap(rs, lower, upper, length, alignment, y) {
      if IsGap(rs, lower, upper, length, alignment, y) {
        assert 0 == Times(0, alignment);
        MultiplesApart(0, y, alignment);
      }
    }
  }

  lemma PastRange(rs: seq<Range>, lower: nat, upper: nat, length: nat, alignment: nat, candidate: nat, i: nat)
    requires WellFormed(rs) && i < |rs| && length > 0
    requires candidate < rs[i].end && !(candidate < rs[i].start && length <= rs[i].start - candidate)
    requires forall y: nat :: IsGap(rs, lower, upper, length, alignment, y) ==> candidate <= y
    ensures forall y: nat :: IsGap(rs, lower, upper, length, alignment, y) ==> rs[i].end <= y
  {
    forall y: nat | IsGap(rs, lower, upper, length, alignment, y) ensures rs[i].end <= y {
      if y < rs[i].end {
        AtCovered(rs, i, if y < rs[i].start then rs[i].start else y);
      }
    }
  }
}
