/**
 * The bookkeeping of the note server (src/server.c): note slots and bytes reserved by
 * compare-and-swap, reference-counted records that keep their snapshot parents
 * alive, the registry of capabilities and the handle tables of the clients.  Each
 * atomic operation and each critical section of any client is one step, and the
 * steps of different clients interleave in every order.
 */
module Server {
  import opened Base

  datatype Right = ReadRight | WriteRight | EditRight | ShareRight | ResizeRight | DeleteRight

  datatype Config = Config(maxNotes: nat, maxNoteSize: nat, maxTotal: nat)

  /** minimm_server_record_t; capability 0 stands for all zero bytes. */
  datatype Record = Record(refs: nat, size: nat, max: set<Right>, cap: nat, parent: Option<nat>, lock: Option<nat>)

  datatype Handle = Handle(record: nat, id: nat, rights: set<Right>)

  datatype Why = New(rights: set<Right>) | CopyOf(source: nat, rights: set<Right>)

  /** Where a client's request is. */
  datatype Pc =
    | Ready
    | Copying(source: nat, rights: set<Right>)                 // has the source's op_lock
    | HasSlot(size: nat, why: Why)                             // has a note slot
    | HasBoth(size: nat, why: Why)                             // has a slot and the bytes
    | GiveBytes(size: nat, why: Why)                           // no memory: the bytes go back, then the slot
    | GiveSlot(why: Why)
    | Owner(record: nat, rights: set<Right>, linked: bool)     // has the reference a new record starts with
    | Opened(record: nat, rights: set<Right>)                  // has the reference that opening took
    | Replying(record: nat, id: nat)                           // the reply to create or copy is not out yet
    | Dropping(todo: seq<nat>)                                 // references to be released
    | FreedBytes(size: nat, parent: Option<nat>, todo: seq<nat>) // a record was freed: its bytes go back,
    | FreedSlot(parent: Option<nat>, todo: seq<nat>)           //   then its slot, then its parent's reference
    | ResizeAsked(record: nat, size: nat)                      // has the op_lock
    | ResizeTry(record: nat, size: nat, extra: nat)            // has the op_lock and `extra` more bytes
    | ResizeGive(record: nat, surplus: nat)                    // has the op_lock, `surplus` bytes go back

  datatype Client = Client(handles: seq<Option<Handle>>, next: nat, count: nat, pc: Pc)

  /** Record numbers are not reused: a freed record leaves None behind. */
  datatype State = State(live: nat, total: nat, records: seq<Option<Record>>, registry: seq<nat>, clients: seq<Client>)

  // ------------------------------------------------------------------
  // Steps
  // ------------------------------------------------------------------

  /** Creating and copying: reservations, allocation, and their way back */
  datatype ReserveAction =
    | StartCreate(size: nat, rights: set<Right>)
    | StartCopy(index: nat, rights: set<Right>)
    | ReserveSlot | ReserveBytes(ok: bool) | Allocate(ok: bool) | ReturnBytes | ReturnSlot

  /** The registry and the handle tables */
  datatype TableAction =
    | Link(cap: nat, ok: bool) | AddHandle(index: nat, ok: bool) | Reply(ok: bool, index: nat)
    | Open(position: nat, rights: set<Right>) | Unlink(position: nat) | Close(index: nat)
    | Detach // minimm_server_stop takes the whole registry

  /** minimm_server_record_release */
  datatype ReleaseAction = Drop | FreeBytes | FreeSlot

  /** minimm_server_handle_resize */
  datatype ResizeAction = StartResize(index: nat, size: nat) | ReserveMore(ok: bool) | Apply(ok: bool) | ReturnSurplus

  datatype Action =
    | Reserve(r: ReserveAction) | Table(t: TableAction) | Release(x: ReleaseAction) | Resize(z: ResizeAction)

  predicate RightsValid(rights: set<Right>) {
    EditRight in rights ==> WriteRight in rights
  }

  predicate IsLive(s: State, r: nat) {
    r < |s.records| && s.records[r].Some?
  }

  function SetPc(s: State, c: nat, pc: Pc): State
    requires c < |s.clients|
  {
    s.(clients := s.clients[c := s.clients[c].(pc := pc)])
  }

  function SetRecord(s: State, r: nat, record: Option<Record>): State
    requires r < |s.records|
  {
    s.(records := s.records[r := record])
  }

  function SetLock(s: State, r: nat, lock: Option<nat>): State
    requires IsLive(s, r)
  {
    SetRecord(s, r, Some(s.records[r].value.(lock := lock)))
  }

  /** The end of minimm_server_record_copy's critical section */
  function Unlocked(s: State, why: Why): State {
    if why.CopyOf? && IsLive(s, why.source) then SetLock(s, why.source, None) else s
  }

  function Retained(s: State, r: nat): State
    requires IsLive(s, r)
  {
    SetRecord(s, r, Some(s.records[r].value.(refs := s.records[r].value.refs + 1)))
  }

  function Without(list: seq<nat>, x: nat): seq<nat> {
    if list == [] then [] else if list[0] == x then list[1..] else [list[0]] + Without(list[1..], x)
  }

  function Maybe(o: Option<nat>): seq<nat> {
    if o.Some? then [o.value] else []
  }

  predicate CapTaken(s: State, cap: nat) {
    exists i :: 0 <= i < |s.registry| && IsLive(s, s.registry[i]) && s.records[s.registry[i]].value.cap == cap
  }

  /** minimm_server_client_add_handle */
  function WithHandle(cl: Client, index: nat, record: nat, rights: set<Right>): Client
    requires index < |cl.handles|
  {
    cl.(handles := cl.handles[index := Some(Handle(record, cl.next, rights))],
        next := cl.next + 1, count := cl.count + 1)
  }

  /** minimm_server_client_remove_handle */
  function WithoutHandle(cl: Client, index: nat): Client
    requires index < |cl.handles| && cl.count > 0
  {
    cl.(handles := cl.handles[index := None], count := cl.count - 1)
  }

  predicate HasHandle(cl: Client, index: nat) {
    index < |cl.handles| && cl.handles[index].Some? && cl.count > 0
  }

  /** minimm_server_registry_remove_record, whose reference then has to be released */
  function Deregistered(s: State, r: nat): (State, seq<nat>) {
    if r in s.registry then (s.(registry := Without(s.registry, r)), [r]) else (s, [])
  }

  function DoReserve(cfg: Config, s: State, c: nat, a: ReserveAction): Option<State>
    requires c < |s.clients|
  {
    var cl := s.clients[c];
    match (cl.pc, a)
    case (Ready, StartCreate(size, rights)) =>
      if RightsValid(rights) && size % PAGE_SIZE == 0 && size <= cfg.maxNoteSize && cl.count < |cl.handles|
         && s.live < cfg.maxNotes
      then Some(SetPc(s.(live := s.live + 1), c, HasSlot(size, New(rights)))) else None
    case (Ready, StartCopy(index, rights)) =>
      if RightsValid(rights) && cl.count < |cl.handles| && HasHandle(cl, index)
         && ReadRight in cl.handles[index].value.rights
         && IsLive(s, cl.handles[index].value.record) && s.records[cl.handles[index].value.record].value.lock.None?
      then Some(SetPc(SetLock(s, cl.handles[index].value.record, Some(c)), c,
                      Copying(cl.handles[index].value.record, rights)))
      else None
    case (Copying(r, rights), ReserveSlot) =>
      if !IsLive(s, r) then None
      else if s.live < cfg.maxNotes then
        Some(SetPc(s.(live := s.live + 1), c, HasSlot(s.records[r].value.size, CopyOf(r, rights))))
      else Some(SetPc(SetLock(s, r, None), c, Ready))
    case (HasSlot(size, why), ReserveBytes(ok)) =>
      if ok then
        if size <= cfg.maxTotal - s.total then Some(SetPc(s.(total := s.total + size), c, HasBoth(size, why))) else None
      else Some(SetPc(s, c, GiveSlot(why)))
    case (HasBoth(size, New(rights)), Allocate(ok)) =>
      if ok then Some(SetPc(s.(records := s.records + [Some(Record(1, size, rights, 0, None, None))]), c,
                            Owner(|s.records|, rights, false)))
      else Some(SetPc(s, c, GiveBytes(size, New(rights))))
    case (HasBoth(size, CopyOf(r, rights)), Allocate(ok)) =>
      if !ok then Some(SetPc(s, c, GiveBytes(size, CopyOf(r, rights))))
      else if !IsLive(s, r) then None
      else Some(SetPc(SetLock(Retained(s, r), r, None).(records := SetLock(Retained(s, r), r, None).records
                        + [Some(Record(1, size, rights, 0, Some(r), None))]), c, Owner(|s.records|, rights, false)))
    case (GiveBytes(size, why), ReturnBytes) =>
      if size <= s.total then Some(SetPc(s.(total := s.total - size), c, GiveSlot(why))) else None
    case (GiveSlot(why), ReturnSlot) =>
      if s.live > 0 then Some(SetPc(Unlocked(s.(live := s.live - 1), why), c, Ready)) else None
    case _ => None
  }

  function DoTable(s: State, c: nat, a: TableAction): Option<State>
    requires c < |s.clients|
  {
    var cl := s.clients[c];
    match (cl.pc, a)
    case (Owner(r, rights, linked), Link(cap, ok)) =>
      if ShareRight !in rights || linked then None
      else if !ok then Some(SetPc(s, c, Dropping([r])))
      else if cap == 0 || CapTaken(s, cap) || !IsLive(s, r) || r in s.registry then None
      else Some(SetPc(SetRecord(s, r, Some(s.records[r].value.(cap := cap, refs := s.records[r].value.refs + 1)))
                        .(registry := [r] + s.registry), c, Owner(r, rights, true)))
    case (Owner(r, rights, linked), AddHandle(index, ok)) =>
      if ShareRight in rights && !linked then None
      else if !ok then
        var (s1, removed) := Deregistered(s, r);
        Some(SetPc(s1, c, Dropping(removed + [r])))
      else if index < |cl.handles| && cl.handles[index].None? && cl.count < |cl.handles| then
        Some(s.(clients := s.clients[c := WithHandle(cl, index, r, rights).(pc := Replying(r, cl.next))]))
      else None
    case (Replying(r, id), Reply(ok, index)) =>
      if ok then Some(SetPc(s, c, Ready))
      else if HasHandle(cl, index) && cl.handles[index].value.id == id then
        var (s1, removed) := Deregistered(s, r);
        var pc := Dropping(removed + [cl.handles[index].value.record]);
        Some(s1.(clients := s1.clients[c := WithoutHandle(cl, index).(pc := pc)]))
      else None
    case (Ready, Open(position, rights)) =>
      if RightsValid(rights) && cl.count < |cl.handles| && position < |s.registry| && IsLive(s, s.registry[position])
         && ShareRight in s.records[s.registry[position]].value.max
         && rights <= s.records[s.registry[position]].value.max
      then Some(SetPc(Retained(s, s.registry[position]), c, Opened(s.registry[position], rights))) else None
    case (Opened(r, rights), AddHandle(index, ok)) =>
      if !ok then Some(SetPc(s, c, Dropping([r])))
      else if index < |cl.handles| && cl.handles[index].None? && cl.count < |cl.handles| then
        Some(s.(clients := s.clients[c := WithHandle(cl, index, r, rights).(pc := Ready)]))
      else None
    case (Ready, Unlink(position)) =>
      if position < |s.registry| && IsLive(s, s.registry[position])
         && DeleteRight in s.records[s.registry[position]].value.max
      then Some(SetPc(s.(registry := Without(s.registry, s.registry[position])), c,
                      Dropping([s.registry[position]]))) else None
    case (Ready, Close(index)) =>
      if HasHandle(cl, index) then
        Some(s.(clients := s.clients[c := WithoutHandle(cl, index).(pc := Dropping([cl.handles[index].value.record]))]))
      else None
    case (Ready, Detach) => Some(SetPc(s.(registry := []), c, Dropping(s.registry)))
    case _ => None
  }

  function DoRelease(s: State, c: nat, a: ReleaseAction): Option<State>
    requires c < |s.clients|
  {
    var cl := s.clients[c];
    match (cl.pc, a)
    case (Dropping(todo), Drop) =>
      if todo == [] then Some(SetPc(s, c, Ready))
      else if !IsLive(s, todo[0]) || s.records[todo[0]].value.refs == 0 then None
      else
        var record := s.records[todo[0]].value;
        if record.refs == 1
        then Some(SetPc(SetRecord(s, todo[0], None), c, FreedBytes(record.size, record.parent, todo[1..])))
        else Some(SetPc(SetRecord(s, todo[0], Some(record.(refs := record.refs - 1))), c, Dropping(todo[1..])))
    case (FreedBytes(size, parent, todo), FreeBytes) =>
      if size <= s.total then Some(SetPc(s.(total := s.total - size), c, FreedSlot(parent, todo))) else None
    case (FreedSlot(parent, todo), FreeSlot) =>
      if s.live > 0 then Some(SetPc(s.(live := s.live - 1), c, Dropping(Maybe(parent) + todo))) else None
    case _ => None
  }

  function DoResize(cfg: Config, s: State, c: nat, a: ResizeAction): Option<State>
    requires c < |s.clients|
  {
    var cl := s.clients[c];
    match (cl.pc, a)
    case (Ready, StartResize(index, size)) =>
      if size % PAGE_SIZE == 0 && size <= cfg.maxNoteSize && HasHandle(cl, index)
         && ResizeRight in cl.handles[index].value.rights
         && IsLive(s, cl.handles[index].value.record) && s.records[cl.handles[index].value.record].value.lock.None?
      then Some(SetPc(SetLock(s, cl.handles[index].value.record, Some(c)), c,
                      ResizeAsked(cl.handles[index].value.record, size)))
      else None
    case (ResizeAsked(r, size), ReserveMore(ok)) =>
      if !IsLive(s, r) then None
      else if size <= s.records[r].value.size then Some(SetPc(s, c, ResizeTry(r, size, 0)))
      else if !ok then Some(SetPc(SetLock(s, r, None), c, Ready))
      else if size - s.records[r].value.size <= cfg.maxTotal - s.total then
        var extra := size - s.records[r].value.size;
        Some(SetPc(s.(total := s.total + extra), c, ResizeTry(r, size, extra)))
      else None
    case (ResizeTry(r, size, extra), Apply(ok)) =>
      if !IsLive(s, r) then None
      else if !ok then Some(SetPc(s, c, ResizeGive(r, extra)))
      else Some(SetPc(SetRecord(s, r, Some(s.records[r].value.(size := size))), c,
                      ResizeGive(r, if size < s.records[r].value.size then s.records[r].value.size - size else 0)))
    case (ResizeGive(r, surplus), ReturnSurplus) =>
      if IsLive(s, r) && surplus <= s.total then Some(SetPc(SetLock(s.(total := s.total - surplus), r, None), c, Ready))
      else None
    case _ => None
  }

  /** What an action of client `c` does, where it is possible. */
  function Do(cfg: Config, s: State, c: nat, a: Action): Option<State>
    requires c < |s.clients|
  {
    match a
    case Reserve(r) => DoReserve(cfg, s, c, r)
    case Table(t) => DoTable(s, c, t)
    case Release(x) => DoRelease(s, c, x)
    case Resize(z) => DoResize(cfg, s, c, z)
  }

  ghost predicate Step(cfg: Config, s: State, s': State) {
    exists c: nat, a :: c < |s.clients| && Do(cfg, s, c, a) == Some(s')
  }

  /** A started server: clients with empty handle tables */
  ghost predicate Initial(s: State) {
    && s.live == 0 && s.total == 0 && s.records == [] && s.registry == []
    && forall c :: 0 <= c < |s.clients| ==> IsNewClient(s.clients[c])
  }

  ghost predicate IsNewClient(cl: Client) {
    && cl.next > 0 && cl.count == 0 && cl.pc == Ready
    && forall i :: 0 <= i < |cl.handles| ==> cl.handles[i] == None
  }

  ghost predicate Trace(cfg: Config, tr: seq<State>) {
    && tr != [] && Initial(tr[0])
    && forall i :: 0 <= i < |tr| - 1 ==> Step(cfg, tr[i], tr[i + 1])
  }

  // ------------------------------------------------------------------
  // What is counted
  // ------------------------------------------------------------------

  datatype Measure = Bytes | Slots | Refs(record: nat)

  function Bit(b: bool): nat {
    if b then 1 else 0
  }

  function Times(list: seq<nat>, r: nat): nat {
    if list == [] then 0 else Bit(list[0] == r) + Times(list[1..], r)
  }

  /** What a record accounts for: its bytes, its slot, its reference to its parent. */
  function RecordShare(record: Option<Record>, m: Measure): nat {
    if record.None? then 0
    else match m
      case Bytes => record.value.size
      case Slots => 1
      case Refs(r) => Bit(record.value.parent == Some(r))
  }

  /** What a request under way accounts for. */
  function PcShare(pc: Pc, m: Measure): nat {
    match m
    case Bytes =>
      (match pc
       case HasBoth(size, _) => size
       case GiveBytes(size, _) => size
       case FreedBytes(size, _, _) => size
       case ResizeTry(_, _, extra) => extra
       case ResizeGive(_, surplus) => surplus
       case _ => 0)
    case Slots => Bit(pc.HasSlot? || pc.HasBoth? || pc.GiveBytes? || pc.GiveSlot? || pc.FreedBytes? || pc.FreedSlot?)
    case Refs(r) =>
      (match pc
       case Owner(record, _, _) => Bit(record == r)
       case Opened(record, _) => Bit(record == r)
       case Dropping(todo) => Times(todo, r)
       case FreedBytes(_, parent, todo) => Bit(parent == Some(r)) + Times(todo, r)
       case FreedSlot(parent, todo) => Bit(parent == Some(r)) + Times(todo, r)
       case _ => 0)
  }

  function HandleShare(handles: seq<Option<Handle>>, r: nat): nat {
    if handles == [] then 0
    else
      var last := handles[|handles| - 1];
      HandleShare(handles[..|handles| - 1], r) + Bit(last.Some? && last.value.record == r)
  }

  function ClientShare(cl: Client, m: Measure): nat {
    PcShare(cl.pc, m) + if m.Refs? then HandleShare(cl.handles, m.record) else 0
  }

  ghost function RecordSum(records: seq<Option<Record>>, m: Measure): nat {
    if records == [] then 0 else RecordSum(records[..|records| - 1], m) + RecordShare(records[|records| - 1], m)
  }

  ghost function ClientSum(clients: seq<Client>, m: Measure): nat {
    if clients == [] then 0 else ClientSum(clients[..|clients| - 1], m) + ClientShare(clients[|clients| - 1], m)
  }

  ghost function Sum(s: State, m: Measure): nat {
    RecordSum(s.records, m) + ClientSum(s.clients, m) + if m.Refs? then Times(s.registry, m.record) else 0
  }

  function RefCount(s: State, r: nat): nat {
    if IsLive(s, r) then s.records[r].value.refs else 0
  }

  /** All books balance. */
  ghost predicate Balanced(cfg: Config, s: State) {
    && s.total == Sum(s, Bytes) && s.total <= cfg.maxTotal
    && s.live == Sum(s, Slots) && s.live <= cfg.maxNotes
    && (forall r: nat :: RefCount(s, r) == Sum(s, Refs(r)))
  }

  // ------------------------------------------------------------------
  // How sums change
  // ------------------------------------------------------------------

  lemma {:induction false} RecordUpdate(records: seq<Option<Record>>, i: nat, x: Option<Record>, m: Measure)
    requires i < |records|
    ensures RecordSum(records[i := x], m) + RecordShare(records[i], m) == RecordSum(records, m) + RecordShare(x, m)
  {
    hide RecordShare;
    var n := |records| - 1;
    if i == n {
      assert records[i := x][..n] == records[..n];
    } else {
      assert records[i := x][..n] == records[..n][i := x];
      RecordUpdate(records[..n], i, x, m);
    }
  }

  lemma RecordAppend(records: seq<Option<Record>>, x: Option<Record>, m: Measure)
    ensures RecordSum(records + [x], m) == RecordSum(records, m) + RecordShare(x, m)
  {
    assert (records + [x])[..|records|] == records;
  }

  lemma {:induction false} ClientUpdate(clients: seq<Client>, c: nat, x: Client, m: Measure)
    requires c < |clients|
    ensures ClientSum(clients[c := x], m) + ClientShare(clients[c], m) == ClientSum(clients, m) + ClientShare(x, m)
  {
    hide ClientShare;
    var n := |clients| - 1;
    if c == n {
      assert clients[c := x][..n] == clients[..n];
    } else {
      assert clients[c := x][..n] == clients[..n][c := x];
      ClientUpdate(clients[..n], c, x, m);
    }
  }

  lemma {:induction false} HandleUpdate(handles: seq<Option<Handle>>, i: nat, x: Option<Handle>, r: nat)
    requires i < |handles|
    ensures HandleShare(handles[i := x], r) + Bit(handles[i].Some? && handles[i].value.record == r)
         == HandleShare(handles, r) + Bit(x.Some? && x.value.record == r)
  {
    var n := |handles| - 1;
    if i == n {
      assert handles[i := x][..n] == handles[..n];
    } else {
      assert handles[i := x][..n] == handles[..n][i := x];
      HandleUpdate(handles[..n], i, x, r);
    }
  }

  lemma {:induction false} TimesConcat(l: seq<nat>, k: seq<nat>, r: nat)
    ensures Times(l + k, r) == Times(l, r) + Times(k, r)
  {
    if l == [] {
      assert l + k == k;
    } else {
      assert (l + k)[1..] == l[1..] + k;
      TimesConcat(l[1..], k, r);
    }
  }

  lemma {:induction false} TimesWithout(list: seq<nat>, x: nat, r: nat)
    requires x in list
    ensures Times(Without(list, x), r) + Bit(x == r) == Times(list, r)
  {
    if list[0] != x {
      TimesWithout(list[1..], x, r);
      assert ([list[0]] + Without(list[1..], x))[1..] == Without(list[1..], x);
    }
  }

  lemma {:induction false} TimesIn(list: seq<nat>, r: nat)
    ensures r in list <==> Times(list, r) > 0
  {
    if list != [] {
      TimesIn(list[1..], r);
      assert r in list <==> r == list[0] || r in list[1..];
    }
  }

  lemma {:induction false} ShareAtMost(clients: seq<Client>, c: nat, m: Measure)
    requires c < |clients|
    ensures ClientShare(clients[c], m) <= ClientSum(clients, m)
  {
    if c < |clients| - 1 {
      ShareAtMost(clients[..|clients| - 1], c, m);
    }
  }

  lemma {:induction false} HandleCounts(handles: seq<Option<Handle>>, i: nat)
    requires i < |handles| && handles[i].Some?
    ensures HandleShare(handles, handles[i].value.record) >= 1
  {
    if i < |handles| - 1 {
      HandleCounts(handles[..|handles| - 1], i);
    }
  }

  // ------------------------------------------------------------------
  // One step changes one client, at most one old record, and may add one
  // ------------------------------------------------------------------

  /** The old record that a step may change; past the end if none. */
  function Touched(s: State, c: nat, a: Action): nat
    requires c < |s.clients|
  {
    var cl, none := s.clients[c], |s.records|;
    match a
    case Reserve(StartCopy(index, _)) => if HasHandle(cl, index) then cl.handles[index].value.record else none
    case Reserve(_) => if Locked(cl.pc).Some? then Locked(cl.pc).value else none
    case Table(Open(position, _)) => if position < |s.registry| then s.registry[position] else none
    case Table(Link(_, _)) => if cl.pc.Owner? then cl.pc.record else none
    case Table(_) => none
    case Release(Drop) => if cl.pc.Dropping? && cl.pc.todo != [] then cl.pc.todo[0] else none
    case Release(_) => none
    case Resize(StartResize(index, _)) => if HasHandle(cl, index) then cl.handles[index].value.record else none
    case Resize(_) => if Locked(cl.pc).Some? then Locked(cl.pc).value else none
  }

  ghost predicate Shaped(s: State, s': State, c: nat, i: nat)
    requires c < |s.clients|
  {
    && |s'.clients| == |s.clients| && s'.clients == s.clients[c := s'.clients[c]]
    && |s.records| <= |s'.records| <= |s.records| + 1
    && s'.records[..|s.records|] == if i < |s.records| then s.records[i := s'.records[i]] else s.records
  }

  /** What a step adds to and takes from the sums, apart from the registry. */
  function Change(s: State, c: nat, i: nat, m: Measure): nat
    requires c < |s.clients|
  {
    ClientShare(s.clients[c], m) + (if i < |s.records| then RecordShare(s.records[i], m) else 0)
    + if m.Refs? then Times(s.registry, m.record) else 0
  }

  function Added(s: State, s': State, m: Measure): nat {
    if |s'.records| > |s.records| then RecordShare(s'.records[|s.records|], m) else 0
  }

  lemma SumChange(s: State, s': State, c: nat, i: nat, m: Measure)
    requires c < |s.clients| && Shaped(s, s', c, i)
    ensures Sum(s', m) + Change(s, c, i, m) ==
            Sum(s, m) + Change(s', c, if i < |s.records| then i else |s'.records|, m) + Added(s, s', m)
  {
    hide ClientShare, RecordShare, Times;
    var n := |s.records|;
    ClientUpdate(s.clients, c, s'.clients[c], m);
    if i < n {
      RecordUpdate(s.records, i, s'.records[i], m);
    }
    if |s'.records| > n {
      assert s'.records == s'.records[..n] + [s'.records[n]];
      RecordAppend(s'.records[..n], s'.records[n], m);
    } else {
      assert s'.records == s'.records[..n];
    }
  }

  // ------------------------------------------------------------------
  // Everything that holds in every reachable state
  // ------------------------------------------------------------------

  /** The record whose op_lock a request holds. */
  function Locked(pc: Pc): Option<nat> {
    match pc
    case Copying(r, _) => Some(r)
    case HasSlot(_, why) => (if why.CopyOf? then Some(why.source) else None)
    case HasBoth(_, why) => (if why.CopyOf? then Some(why.source) else None)
    case GiveBytes(_, why) => (if why.CopyOf? then Some(why.source) else None)
    case GiveSlot(why) => (if why.CopyOf? then Some(why.source) else None)
    case ResizeAsked(r, _) => Some(r)
    case ResizeTry(r, _, _) => Some(r)
    case ResizeGive(r, _) => Some(r)
    case _ => None
  }

  /** A lock is held by the request that says so, and only through a handle of its client. */
  ghost predicate LockOk(s: State, c: nat)
    requires c < |s.clients|
  {
    && (forall r: nat :: IsLive(s, r) ==> (s.records[r].value.lock == Some(c) <==> Locked(s.clients[c].pc) == Some(r)))
    && (Locked(s.clients[c].pc).Some? ==> HandleShare(s.clients[c].handles, Locked(s.clients[c].pc).value) >= 1)
    && (s.clients[c].pc.ResizeTry? && IsLive(s, s.clients[c].pc.record) ==>
          s.clients[c].pc.extra == if s.clients[c].pc.size > s.records[s.clients[c].pc.record].value.size
                                   then s.clients[c].pc.size - s.records[s.clients[c].pc.record].value.size else 0)
  }

  function TouchedAfter(s: State, s': State, i: nat): nat {
    if i < |s.records| then i else |s'.records|
  }

  /** A step is booked: what leaves one place arrives in another. */
  ghost predicate Booked(cfg: Config, s: State, c: nat, a: Action, s': State)
    requires c < |s.clients| && c < |s'.clients|
  {
    var i := Touched(s, c, a);
    var i' := TouchedAfter(s, s', i);
    && s'.total + Change(s, c, i, Bytes) == s.total + Change(s', c, i', Bytes) + Added(s, s', Bytes)
    && s'.live + Change(s, c, i, Slots) == s.live + Change(s', c, i', Slots) + Added(s, s', Slots)
    && s'.total <= cfg.maxTotal && s'.live <= cfg.maxNotes
  }

  ghost predicate RefsBooked(s: State, c: nat, a: Action, s': State, r: nat)
    requires c < |s.clients| && c < |s'.clients|
  {
    var i := Touched(s, c, a);
    RefCount(s', r) + Change(s, c, i, Refs(r)) ==
    RefCount(s, r) + Change(s', c, TouchedAfter(s, s', i), Refs(r)) + Added(s, s', Refs(r))
  }

  ghost predicate Within(cfg: Config, s: State) {
    s.total <= cfg.maxTotal && s.live <= cfg.maxNotes
  }

  lemma ReserveShape(cfg: Config, s: State, c: nat, a: ReserveAction, s': State)
    requires c < |s.clients| && DoReserve(cfg, s, c, a) == Some(s')
    ensures Shaped(s, s', c, Touched(s, c, Reserve(a)))
  {
    hide RightsValid;
    SameSeq(s, c);
  }

  lemma ReserveBooked(cfg: Config, s: State, c: nat, a: ReserveAction, s': State)
    requires c < |s.clients| && DoReserve(cfg, s, c, a) == Some(s') && Within(cfg, s) && |s'.clients| == |s.clients|
    ensures Booked(cfg, s, c, Reserve(a), s')
  {
    hide RightsValid, Times, HandleShare;
  }

  lemma ReserveRefs(cfg: Config, s: State, c: nat, a: ReserveAction, s': State, r: nat)
    requires c < |s.clients| && DoReserve(cfg, s, c, a) == Some(s') && |s'.clients| == |s.clients|
    ensures RefsBooked(s, c, Reserve(a), s', r)
  {
    hide RightsValid, Times, HandleShare;
  }

  lemma SameSeq(s: State, c: nat)
    requires c < |s.clients|
    ensures s.clients[c := s.clients[c]] == s.clients && s.records[..|s.records|] == s.records
    ensures forall i :: 0 <= i < |s.records| ==> s.records[i := s.records[i]] == s.records
  {
  }

  lemma TableShape(s: State, c: nat, a: TableAction, s': State)
    requires c < |s.clients| && DoTable(s, c, a) == Some(s')
    ensures Shaped(s, s', c, Touched(s, c, Table(a)))
  {
    hide RightsValid, CapTaken, Without;
    SameSeq(s, c);
  }

  lemma TableBooked(cfg: Config, s: State, c: nat, a: TableAction, s': State)
    requires c < |s.clients| && DoTable(s, c, a) == Some(s') && Within(cfg, s) && |s'.clients| == |s.clients|
    ensures Booked(cfg, s, c, Table(a), s')
  {
    hide RightsValid, CapTaken, Without, Times, HandleShare;
  }

  lemma AddHandleRefs(s: State, c: nat, index: nat, ok: bool, s': State, r: nat)
    requires c < |s.clients| && DoTable(s, c, AddHandle(index, ok)) == Some(s') && |s'.clients| == |s.clients|
    ensures RefsBooked(s, c, Table(AddHandle(index, ok)), s', r)
  {
    hide RightsValid, CapTaken, Without, HandleShare, Times;
    var cl := s.clients[c];
    if cl.pc.Owner? || cl.pc.Opened? {
      TimesRemoved(s, cl.pc.record, cl.pc.record, r);
      TimesCons(cl.pc.record, [], r);
      if index < |cl.handles| {
        HandleUpdate(cl.handles, index, Some(Handle(cl.pc.record, cl.next, cl.pc.rights)), r);
      }
    }
  }

  lemma ReplyRefs(s: State, c: nat, ok: bool, index: nat, s': State, r: nat)
    requires c < |s.clients| && DoTable(s, c, Reply(ok, index)) == Some(s') && |s'.clients| == |s.clients|
    ensures RefsBooked(s, c, Table(Reply(ok, index)), s', r)
  {
    hide RightsValid, CapTaken, Without, HandleShare, Times;
    var cl := s.clients[c];
    if cl.pc.Replying? && HasHandle(cl, index) {
      TimesRemoved(s, cl.pc.record, cl.handles[index].value.record, r);
      HandleUpdate(cl.handles, index, None, r);
    }
  }

  lemma TableRefs(s: State, c: nat, a: TableAction, s': State, r: nat)
    requires c < |s.clients| && DoTable(s, c, a) == Some(s') && |s'.clients| == |s.clients|
    ensures RefsBooked(s, c, Table(a), s', r)
  {
    hide RightsValid, CapTaken, Without, HandleShare, Times;
    var cl := s.clients[c];
    match a
    case Link(_, _) =>
      if cl.pc.Owner? {
        TimesCons(cl.pc.record, s.registry, r);
        TimesCons(cl.pc.record, [], r);
      }
    case AddHandle(index, ok) => AddHandleRefs(s, c, index, ok, s', r);
    case Reply(ok, index) => ReplyRefs(s, c, ok, index, s', r);
    case Open(_, _) =>
    case Unlink(position) =>
      if position < |s.registry| {
        TimesWithout(s.registry, s.registry[position], r);
        TimesCons(s.registry[position], [], r);
      }
    case Detach => TimesCons(r, [], r);
    case Close(index) =>
      if HasHandle(cl, index) {
        TimesCons(cl.handles[index].value.record, [], r);
        HandleUpdate(cl.handles, index, None, r);
      }
  }

  lemma TimesCons(x: nat, list: seq<nat>, r: nat)
    ensures Times([x] + list, r) == Bit(x == r) + Times(list, r)
    ensures Times([], r) == 0 && [x] + [] == [x]
  {
    assert ([x] + list)[1..] == list;
  }

  /** The reference of a deregistered record goes to the request that releases it. */
  lemma TimesRemoved(s: State, x: nat, y: nat, r: nat)
    ensures var (s1, removed) := Deregistered(s, x);
            Times(s1.registry, r) + Times(removed + [y], r) == Times(s.registry, r) + Bit(y == r)
  {
    hide Times, Without;
    if x in s.registry {
      TimesWithout(s.registry, x, r);
      TimesConcat([x], [y], r);
      TimesCons(x, [], r);
    } else {
      assert [] + [y] == [y];
    }
    TimesCons(y, [], r);
  }

  lemma ReleaseShape(s: State, c: nat, a: ReleaseAction, s': State)
    requires c < |s.clients| && DoRelease(s, c, a) == Some(s')
    ensures Shaped(s, s', c, Touched(s, c, Release(a)))
  {
    SameSeq(s, c);
  }

  lemma ReleaseBooked(cfg: Config, s: State, c: nat, a: ReleaseAction, s': State)
    requires c < |s.clients| && DoRelease(s, c, a) == Some(s') && Within(cfg, s) && |s'.clients| == |s.clients|
    ensures Booked(cfg, s, c, Release(a), s')
  {
    hide Times, HandleShare;
  }

  lemma ReleaseRefs(s: State, c: nat, a: ReleaseAction, s': State, r: nat)
    requires c < |s.clients| && DoRelease(s, c, a) == Some(s') && |s'.clients| == |s.clients|
    ensures RefsBooked(s, c, Release(a), s', r)
  {
    hide Times, HandleShare;
    var pc := s.clients[c].pc;
    TimesCons(r, [], r);
    if pc.Dropping? && pc.todo != [] {
      assert pc.todo == [pc.todo[0]] + pc.todo[1..];
      TimesCons(pc.todo[0], pc.todo[1..], r);
    }
    if pc.FreedSlot? {
      TimesConcat(Maybe(pc.parent), pc.todo, r);
      if pc.parent.Some? {
        TimesCons(pc.parent.value, [], r);
      }
    }
  }

  lemma ResizeShape(cfg: Config, s: State, c: nat, a: ResizeAction, s': State)
    requires c < |s.clients| && DoResize(cfg, s, c, a) == Some(s')
    ensures Shaped(s, s', c, Touched(s, c, Resize(a)))
  {
    SameSeq(s, c);
  }

  lemma ResizeBooked(cfg: Config, s: State, c: nat, a: ResizeAction, s': State)
    requires c < |s.clients| && DoResize(cfg, s, c, a) == Some(s') && Within(cfg, s) && |s'.clients| == |s.clients|
    requires LockOk(s, c)
    ensures Booked(cfg, s, c, Resize(a), s')
  {
    hide Times, HandleShare;
  }

  lemma ResizeRefs(cfg: Config, s: State, c: nat, a: ResizeAction, s': State, r: nat)
    requires c < |s.clients| && DoResize(cfg, s, c, a) == Some(s') && |s'.clients| == |s.clients|
    ensures RefsBooked(s, c, Resize(a), s', r)
  {
    hide Times, HandleShare;
  }

  // ------------------------------------------------------------------
  // The invariant
  // ------------------------------------------------------------------

  predicate SizeOk(cfg: Config, size: nat) {
    size <= cfg.maxNoteSize && size % PAGE_SIZE == 0
  }

  /** A snapshot's parent is older than the snapshot. */
  ghost predicate RecordOk(cfg: Config, s: State, r: nat)
    requires r < |s.records|
  {
    s.records[r].Some? ==>
      var record := s.records[r].value;
      && record.refs > 0 && SizeOk(cfg, record.size)
      && (record.parent.Some? ==> record.parent.value < r)
      && (record.lock.Some? ==> record.lock.value < |s.clients|)
  }

  function Occupied(handles: seq<Option<Handle>>): nat {
    if handles == [] then 0 else Occupied(handles[..|handles| - 1]) + Bit(handles[|handles| - 1].Some?)
  }

  ghost predicate HandleOk(s: State, next: nat, h: Handle) {
    0 < h.id < next && IsLive(s, h.record) && h.rights <= s.records[h.record].value.max
  }

  ghost predicate HandlesOk(s: State, cl: Client) {
    && cl.next > 0 && cl.count == Occupied(cl.handles)
    && (forall i :: 0 <= i < |cl.handles| && cl.handles[i].Some? ==> HandleOk(s, cl.next, cl.handles[i].value))
    && (forall i, j :: 0 <= i < j < |cl.handles| && cl.handles[i].Some? && cl.handles[j].Some? ==>
          cl.handles[i].value.id != cl.handles[j].value.id)
  }

  ghost predicate HasProvisional(cl: Client, r: nat, id: nat) {
    exists i :: 0 <= i < |cl.handles| && cl.handles[i].Some? && cl.handles[i].value.record == r
                && cl.handles[i].value.id == id
  }

  /** A copy is charged what its source is charged as long as the source's lock is held. */
  ghost predicate ChargeOk(cfg: Config, s: State, size: nat, why: Why) {
    SizeOk(cfg, size) && (why.CopyOf? && IsLive(s, why.source) ==> size == s.records[why.source].value.size)
  }

  ghost predicate PcOk(cfg: Config, s: State, cl: Client) {
    match cl.pc
    case HasSlot(size, why) => ChargeOk(cfg, s, size, why)
    case HasBoth(size, why) => ChargeOk(cfg, s, size, why)
    case GiveBytes(size, why) => ChargeOk(cfg, s, size, why)
    case Owner(r, rights, linked) =>
      IsLive(s, r) ==> s.records[r].value.max == rights && (!linked ==> s.records[r].value.refs == 1)
    case Opened(r, rights) => IsLive(s, r) ==> rights <= s.records[r].value.max
    case Replying(r, id) => HasProvisional(cl, r, id)
    case ResizeAsked(_, size) => SizeOk(cfg, size)
    case ResizeTry(_, size, _) => SizeOk(cfg, size)
    case _ => true
  }

  ghost predicate ClientOk(cfg: Config, s: State, c: nat)
    requires c < |s.clients|
  {
    LockOk(s, c) && HandlesOk(s, s.clients[c]) && PcOk(cfg, s, s.clients[c])
  }

  ghost predicate RegistryOk(s: State) {
    && (forall r: nat :: Times(s.registry, r) <= 1)
    && (forall r: nat :: r in s.registry ==> IsLive(s, r) && s.records[r].value.cap != 0)
    && (forall x: nat, y: nat :: x in s.registry && y in s.registry && x != y ==>
          s.records[x].value.cap != s.records[y].value.cap)
  }

  ghost predicate Inv(cfg: Config, s: State) {
    && Balanced(cfg, s) && RegistryOk(s)
    && (forall r: nat :: r < |s.records| ==> RecordOk(cfg, s, r))
    && (forall c: nat :: c < |s.clients| ==> ClientOk(cfg, s, c))
  }

  // ------------------------------------------------------------------
  // What a step may do to a record
  // ------------------------------------------------------------------

  /** Only the holder of the op_lock resizes, only a free op_lock is taken, only its holder gives it back. */
  ghost predicate RecordEvolves(cfg: Config, x: Option<Record>, y: Option<Record>, c: nat, linking: bool) {
    y.Some? ==>
      && x.Some? && y.value.refs > 0 && y.value.max == x.value.max && y.value.parent == x.value.parent
      && (y.value.size != x.value.size ==> x.value.lock == Some(c) && SizeOk(cfg, y.value.size))
      && (|| y.value.lock == x.value.lock || (x.value.lock.None? && y.value.lock == Some(c))
          || (x.value.lock == Some(c) && y.value.lock.None?))
      && (!linking ==> y.value.cap == x.value.cap)
  }

  ghost predicate NewRecord(cfg: Config, y: Option<Record>, r: nat) {
    && y.Some? && y.value.refs == 1 && SizeOk(cfg, y.value.size) && y.value.lock.None?
    && (y.value.parent.Some? ==> y.value.parent.value < r)
  }

  ghost predicate Evolution(cfg: Config, s: State, c: nat, a: Action, s': State)
    requires c < |s.clients|
  {
    && Shaped(s, s', c, Touched(s, c, a))
    && (forall r: nat :: r < |s.records| ==> RecordEvolves(cfg, s.records[r], s'.records[r], c, IsLink(a)))
    && (forall r: nat :: |s.records| <= r < |s'.records| ==> NewRecord(cfg, s'.records[r], r))
  }

  predicate IsLink(a: Action) {
    a.Table? && a.t.Link?
  }

  /** Each group of actions, on the record it touches and the one it adds */
  ghost predicate Evolved(cfg: Config, s: State, c: nat, a: Action, s': State)
    requires c < |s.clients|
  {
    var i := Touched(s, c, a);
    && (i < |s.records| && i < |s'.records| ==> RecordEvolves(cfg, s.records[i], s'.records[i], c, IsLink(a)))
    && (|s'.records| > |s.records| ==> NewRecord(cfg, s'.records[|s.records|], |s.records|))
  }

  lemma ReserveEvolved(cfg: Config, s: State, c: nat, a: ReserveAction, s': State)
    requires c < |s.clients| && DoReserve(cfg, s, c, a) == Some(s') && LockOk(s, c) && PcOk(cfg, s, s.clients[c])
    requires Touched(s, c, Reserve(a)) < |s.records| ==> RecordOk(cfg, s, Touched(s, c, Reserve(a)))
    ensures Evolved(cfg, s, c, Reserve(a), s')
  {
    hide RightsValid, HandleShare;
  }

  lemma TableEvolved(cfg: Config, s: State, c: nat, a: TableAction, s': State)
    requires c < |s.clients| && DoTable(s, c, a) == Some(s')
    requires Touched(s, c, Table(a)) < |s.records| ==> RecordOk(cfg, s, Touched(s, c, Table(a)))
    ensures Evolved(cfg, s, c, Table(a), s')
  {
    hide RightsValid, CapTaken, Without, SizeOk;
  }

  lemma ReleaseEvolved(cfg: Config, s: State, c: nat, a: ReleaseAction, s': State)
    requires c < |s.clients| && DoRelease(s, c, a) == Some(s')
    requires Touched(s, c, Release(a)) < |s.records| ==> RecordOk(cfg, s, Touched(s, c, Release(a)))
    ensures Evolved(cfg, s, c, Release(a), s')
  {
    hide SizeOk;
  }

  lemma ResizeEvolved(cfg: Config, s: State, c: nat, a: ResizeAction, s': State)
    requires c < |s.clients| && DoResize(cfg, s, c, a) == Some(s') && LockOk(s, c) && PcOk(cfg, s, s.clients[c])
    requires Touched(s, c, Resize(a)) < |s.records| ==> RecordOk(cfg, s, Touched(s, c, Resize(a)))
    ensures Evolved(cfg, s, c, Resize(a), s')
  {
    hide HandleShare;
  }

  lemma Evolving(cfg: Config, s: State, c: nat, a: Action, s': State)
    requires Inv(cfg, s) && c < |s.clients| && Do(cfg, s, c, a) == Some(s')
    ensures Evolution(cfg, s, c, a, s')
  {
    hide Balanced, RegistryOk, LockOk, HandlesOk, PcOk, DoReserve, DoTable, DoRelease, DoResize, Touched, SizeOk;
    assert ClientOk(cfg, s, c);
    match a {
      case Reserve(x) => ReserveShape(cfg, s, c, x, s'); ReserveEvolved(cfg, s, c, x, s');
      case Table(x) => TableShape(s, c, x, s'); TableEvolved(cfg, s, c, x, s');
      case Release(x) => ReleaseShape(s, c, x, s'); ReleaseEvolved(cfg, s, c, x, s');
      case Resize(x) => ResizeShape(cfg, s, c, x, s'); ResizeEvolved(cfg, s, c, x, s');
    }
    var i := Touched(s, c, a);
    forall r: nat | r < |s.records|
      ensures RecordEvolves(cfg, s.records[r], s'.records[r], c, IsLink(a))
    {
      assert s'.records[r] == s'.records[..|s.records|][r];
      if r != i {
        assert RecordOk(cfg, s, r);
      }
    }
  }

  lemma Booking(cfg: Config, s: State, c: nat, a: Action, s': State)
    requires c < |s.clients| && Do(cfg, s, c, a) == Some(s') && Within(cfg, s) && |s'.clients| == |s.clients|
    requires LockOk(s, c)
    ensures Booked(cfg, s, c, a, s') && forall r: nat :: RefsBooked(s, c, a, s', r)
  {
    hide DoReserve, DoTable, DoRelease, DoResize, Booked, RefsBooked, LockOk;
    match a {
      case Reserve(x) => ReserveBooked(cfg, s, c, x, s');
      case Table(x) => TableBooked(cfg, s, c, x, s');
      case Release(x) => ReleaseBooked(cfg, s, c, x, s');
      case Resize(x) => ResizeBooked(cfg, s, c, x, s');
    }
    forall r: nat
      ensures RefsBooked(s, c, a, s', r)
    {
      match a {
        case Reserve(x) => ReserveRefs(cfg, s, c, x, s', r);
        case Table(x) => TableRefs(s, c, x, s', r);
        case Release(x) => ReleaseRefs(s, c, x, s', r);
        case Resize(x) => ResizeRefs(cfg, s, c, x, s', r);
      }
    }
  }

  /** Every step keeps the three books: bytes, slots and the references of every record. */
  lemma StepBalanced(cfg: Config, s: State, c: nat, a: Action, s': State)
    requires c < |s.clients| && Do(cfg, s, c, a) == Some(s') && Balanced(cfg, s) && LockOk(s, c)
    requires Shaped(s, s', c, Touched(s, c, a))
    ensures Balanced(cfg, s')
  {
    hide Do, LockOk, Change, Added, Sum, Touched, RefCount;
    Booking(cfg, s, c, a, s');
    var i := Touched(s, c, a);
    SumChange(s, s', c, i, Bytes);
    SumChange(s, s', c, i, Slots);
    forall r: nat
      ensures RefCount(s', r) == Sum(s', Refs(r))
    {
      assert RefsBooked(s, c, a, s', r);
      SumChange(s, s', c, i, Refs(r));
    }
  }

  // ------------------------------------------------------------------
  // Whoever holds a reference keeps the record alive
  // ------------------------------------------------------------------

  lemma {:induction false} TwoShares(clients: seq<Client>, c: nat, d: nat, m: Measure)
    requires c < d < |clients|
    ensures ClientShare(clients[c], m) + ClientShare(clients[d], m) <= ClientSum(clients, m)
  {
    hide ClientShare;
    var n := |clients| - 1;
    if d == n {
      ShareAtMost(clients[..n], c, m);
    } else {
      TwoShares(clients[..n], c, d, m);
    }
  }

  /** A reference count covers any two clients and the registry. */
  lemma Holders(cfg: Config, s: State, c: nat, d: nat, r: nat)
    requires Balanced(cfg, s) && c < |s.clients| && d < |s.clients|
    ensures ClientShare(s.clients[c], Refs(r)) + Times(s.registry, r) <= RefCount(s, r)
    ensures c != d ==>
              ClientShare(s.clients[c], Refs(r)) + ClientShare(s.clients[d], Refs(r)) + Times(s.registry, r)
              <= RefCount(s, r)
  {
    hide ClientShare, Times, RefCount, RecordSum;
    assert RefCount(s, r) == Sum(s, Refs(r));
    ShareAtMost(s.clients, c, Refs(r));
    if c < d {
      TwoShares(s.clients, c, d, Refs(r));
    } else if d < c {
      TwoShares(s.clients, d, c, Refs(r));
    }
  }

  lemma HeldIsLive(cfg: Config, s: State, c: nat, r: nat)
    requires Balanced(cfg, s) && c < |s.clients| && ClientShare(s.clients[c], Refs(r)) >= 1
    ensures IsLive(s, r)
  {
    hide ClientShare, Balanced, Times;
    Holders(cfg, s, c, c, r);
  }

  lemma RegisteredIsLive(cfg: Config, s: State, r: nat)
    requires Balanced(cfg, s) && r in s.registry
    ensures IsLive(s, r)
  {
    hide ClientSum, RecordSum;
    assert RefCount(s, r) == Sum(s, Refs(r));
    TimesIn(s.registry, r);
  }

  lemma LockedIsLive(cfg: Config, s: State, c: nat)
    requires Balanced(cfg, s) && c < |s.clients| && LockOk(s, c) && Locked(s.clients[c].pc).Some?
    ensures IsLive(s, Locked(s.clients[c].pc).value)
  {
    hide Balanced, HandleShare;
    HeldIsLive(cfg, s, c, Locked(s.clients[c].pc).value);
  }

  /** The record a step changes is one its client holds or one the registry holds. */
  lemma TouchedIsHeld(s: State, c: nat, a: Action)
    requires c < |s.clients| && LockOk(s, c) && Touched(s, c, a) < |s.records|
    ensures ClientShare(s.clients[c], Refs(Touched(s, c, a))) + Times(s.registry, Touched(s, c, a)) >= 1
  {
    hide HandleShare, Times;
    var cl, i := s.clients[c], Touched(s, c, a);
    match a
    case Reserve(StartCopy(index, _)) => HandleCounts(cl.handles, index);
    case Table(Open(position, _)) => TimesIn(s.registry, i);
    case Release(Drop) => TimesIn(cl.pc.todo, i);
    case Resize(StartResize(index, _)) => HandleCounts(cl.handles, index);
    case _ =>
  }

  /** Another client's sole reference is out of reach. */
  lemma SoleOwner(cfg: Config, s: State, c: nat, a: Action, s': State, d: nat, r: nat)
    requires Inv(cfg, s) && c < |s.clients| && d < |s.clients| && c != d && Evolution(cfg, s, c, a, s')
    requires ClientShare(s.clients[d], Refs(r)) >= 1 && RefCount(s, r) == 1 && r < |s.records|
    ensures s'.records[r] == s.records[r]
  {
    hide ClientShare, Times, Touched, Balanced, RegistryOk, RecordOk, LockOk, HandlesOk, PcOk, RecordEvolves;
    assert ClientOk(cfg, s, c);
    var i := Touched(s, c, a);
    if i == r {
      TouchedIsHeld(s, c, a);
      Holders(cfg, s, c, d, r);
    }
    assert s'.records[r] == s'.records[..|s.records|][r];
  }

  // ------------------------------------------------------------------
  // The other clients
  // ------------------------------------------------------------------

  lemma OtherLockOk(cfg: Config, s: State, c: nat, a: Action, s': State, d: nat)
    requires Inv(cfg, s) && c < |s.clients| && d < |s.clients| && c != d && Evolution(cfg, s, c, a, s')
    ensures LockOk(s', d)
  {
    hide HandleShare, Balanced, RegistryOk, RecordOk, HandlesOk, PcOk, Touched, SizeOk;
    assert ClientOk(cfg, s, d);
    var pc := s.clients[d].pc;
    if Locked(pc).Some? {
      LockedIsLive(cfg, s, d);
    }
    forall r: nat | IsLive(s', r)
      ensures s'.records[r].value.lock == Some(d) <==> Locked(pc) == Some(r)
    {
      if r < |s.records| {
        assert RecordEvolves(cfg, s.records[r], s'.records[r], c, IsLink(a));
        assert IsLive(s, r);
      } else {
        assert NewRecord(cfg, s'.records[r], r);
      }
    }
    if pc.ResizeTry? && IsLive(s', pc.record) {
      assert RecordEvolves(cfg, s.records[pc.record], s'.records[pc.record], c, IsLink(a));
    }
  }

  /** Handles stay good while their records live. */
  lemma HandlesKept(cfg: Config, s: State, c: nat, a: Action, s': State, d: nat)
    requires Inv(cfg, s) && c < |s.clients| && d < |s.clients| && Evolution(cfg, s, c, a, s') && Balanced(cfg, s')
    requires s'.clients[d].handles == s.clients[d].handles && s'.clients[d].next == s.clients[d].next
    requires s'.clients[d].count == s.clients[d].count
    ensures HandlesOk(s', s'.clients[d])
  {
    hide HandleShare, Balanced, RegistryOk, RecordOk, LockOk, PcOk, Touched, SizeOk, Occupied;
    assert ClientOk(cfg, s, d);
    var cl := s'.clients[d];
    forall i | 0 <= i < |cl.handles| && cl.handles[i].Some?
      ensures HandleOk(s', cl.next, cl.handles[i].value)
    {
      var r := cl.handles[i].value.record;
      HandleCounts(cl.handles, i);
      HeldIsLive(cfg, s', d, r);
      assert RecordEvolves(cfg, s.records[r], s'.records[r], c, IsLink(a));
    }
  }

  lemma OtherPcOk(cfg: Config, s: State, c: nat, a: Action, s': State, d: nat)
    requires Inv(cfg, s) && c < |s.clients| && d < |s.clients| && c != d && Evolution(cfg, s, c, a, s')
    ensures PcOk(cfg, s', s'.clients[d])
  {
    hide HandleShare, Balanced, RegistryOk, RecordOk, HandlesOk, Touched, SizeOk, HasProvisional;
    assert ClientOk(cfg, s, d);
    var pc := s.clients[d].pc;
    if Locked(pc).Some? {
      var r := Locked(pc).value;
      LockedIsLive(cfg, s, d);
      assert RecordEvolves(cfg, s.records[r], s'.records[r], c, IsLink(a));
    }
    if pc.Owner? || pc.Opened? {
      var r := pc.record;
      HeldIsLive(cfg, s, d, r);
      assert RecordEvolves(cfg, s.records[r], s'.records[r], c, IsLink(a));
      if pc.Owner? && !pc.linked {
        SoleOwner(cfg, s, c, a, s', d, r);
      }
    }
  }

  // ------------------------------------------------------------------
  // The registry and the records
  // ------------------------------------------------------------------

  lemma RegistryKept(cfg: Config, s: State, s': State)
    requires RegistryOk(s) && Balanced(cfg, s')
    requires forall r: nat :: Times(s'.registry, r) <= Times(s.registry, r)
    requires forall r: nat :: r in s.registry && IsLive(s', r) ==> s'.records[r].value.cap == s.records[r].value.cap
    ensures RegistryOk(s')
  {
    hide Balanced, Times;
    forall r: nat | r in s'.registry
      ensures r in s.registry && IsLive(s', r)
    {
      TimesIn(s.registry, r);
      TimesIn(s'.registry, r);
      RegisteredIsLive(cfg, s', r);
    }
  }

  lemma RecordsKept(cfg: Config, s: State, c: nat, a: Action, s': State)
    requires Inv(cfg, s) && c < |s.clients| && Evolution(cfg, s, c, a, s')
    ensures forall r: nat :: r < |s'.records| ==> RecordOk(cfg, s', r)
  {
    hide Balanced, RegistryOk, ClientOk, Touched, SizeOk;
    forall r: nat | r < |s'.records|
      ensures RecordOk(cfg, s', r)
    {
      if r < |s.records| {
        assert RecordOk(cfg, s, r) && RecordEvolves(cfg, s.records[r], s'.records[r], c, IsLink(a));
      }
    }
  }

  lemma TableRegistry(s: State, c: nat, a: TableAction, s': State)
    requires c < |s.clients| && DoTable(s, c, a) == Some(s') && (a.Link? ==> !a.ok)
    ensures forall r: nat :: Times(s'.registry, r) <= Times(s.registry, r)
  {
    hide RightsValid, CapTaken, Without, Times;
    forall r: nat
      ensures Times(s'.registry, r) <= Times(s.registry, r)
    {
      TimesCons(r, [], r);
      forall x | x in s.registry
        ensures Times(Without(s.registry, x), r) <= Times(s.registry, r)
      {
        TimesWithout(s.registry, x, r);
      }
    }
  }

  /** A new capability is not zero and differs from all registered ones. */
  lemma LinkRegistry(cfg: Config, s: State, c: nat, cap: nat, s': State)
    requires c < |s.clients| && DoTable(s, c, Link(cap, true)) == Some(s') && RegistryOk(s) && Balanced(cfg, s')
    ensures RegistryOk(s')
  {
    hide Times, Balanced;
    var r0 := s.clients[c].pc.record;
    forall r: nat
      ensures Times(s'.registry, r) <= 1 && (r in s'.registry <==> r == r0 || r in s.registry)
    {
      TimesCons(r0, s.registry, r);
      TimesIn(s.registry, r);
    }
    forall x: nat | x in s.registry
      ensures x != r0 && IsLive(s', x) && s'.records[x] == s.records[x] && s.records[x].value.cap != cap
    {
      var i :| 0 <= i < |s.registry| && s.registry[i] == x;
      assert IsLive(s, s.registry[i]);
    }
  }

  lemma RegistryStep(cfg: Config, s: State, c: nat, a: Action, s': State)
    requires Inv(cfg, s) && c < |s.clients| && Do(cfg, s, c, a) == Some(s') && Evolution(cfg, s, c, a, s')
    requires Balanced(cfg, s')
    ensures RegistryOk(s')
  {
    hide Balanced, RegistryOk, ClientOk, RecordOk, Times, CapTaken, RightsValid, Shaped, SizeOk, Touched;
    if a.Table? && a.t.Link? && a.t.ok {
      LinkRegistry(cfg, s, c, a.t.cap, s');
    } else {
      if a.Table? {
        TableRegistry(s, c, a.t, s');
      }
      SameCaps(cfg, s, c, a, s');
      RegistryKept(cfg, s, s');
    }
  }

  lemma SameCaps(cfg: Config, s: State, c: nat, a: Action, s': State)
    requires Inv(cfg, s) && c < |s.clients| && Do(cfg, s, c, a) == Some(s') && Evolution(cfg, s, c, a, s')
    requires (IsLink(a) ==> !a.t.ok)
    ensures forall r: nat :: r in s.registry && IsLive(s', r) ==> s'.records[r].value.cap == s.records[r].value.cap
  {
    hide Balanced, ClientOk, RecordOk, Times, CapTaken, RightsValid, Shaped, SizeOk, Touched, DoReserve, DoRelease,
         DoResize;
    forall r: nat | r in s.registry && IsLive(s', r)
      ensures s'.records[r].value.cap == s.records[r].value.cap
    {
      assert IsLive(s, r);
      assert RecordEvolves(cfg, s.records[r], s'.records[r], c, IsLink(a));
    }
  }

  // ------------------------------------------------------------------
  // The client that takes the step
  // ------------------------------------------------------------------

  lemma ReserveLockOk(cfg: Config, s: State, c: nat, a: ReserveAction, s': State)
    requires c < |s.clients| && DoReserve(cfg, s, c, a) == Some(s') && LockOk(s, c)
    ensures LockOk(s', c)
  {
    hide HandleShare, RightsValid;
    var cl := s.clients[c];
    if a.StartCopy? && HasHandle(cl, a.index) {
      HandleCounts(cl.handles, a.index);
    }
  }

  lemma TableLockOk(s: State, c: nat, a: TableAction, s': State)
    requires c < |s.clients| && DoTable(s, c, a) == Some(s') && LockOk(s, c)
    ensures LockOk(s', c)
  {
    hide HandleShare, RightsValid, CapTaken, Without;
  }

  lemma ReleaseLockOk(s: State, c: nat, a: ReleaseAction, s': State)
    requires c < |s.clients| && DoRelease(s, c, a) == Some(s') && LockOk(s, c)
    ensures LockOk(s', c)
  {
    hide HandleShare;
  }

  lemma ResizeLockOk(cfg: Config, s: State, c: nat, a: ResizeAction, s': State)
    requires c < |s.clients| && DoResize(cfg, s, c, a) == Some(s') && LockOk(s, c)
    ensures LockOk(s', c)
  {
    hide HandleShare;
    var cl := s.clients[c];
    if a.StartResize? && HasHandle(cl, a.index) {
      HandleCounts(cl.handles, a.index);
    }
  }

  lemma ReservePcOk(cfg: Config, s: State, c: nat, a: ReserveAction, s': State)
    requires c < |s.clients| && DoReserve(cfg, s, c, a) == Some(s') && PcOk(cfg, s, s.clients[c])
    requires |s'.clients| == |s.clients|
    requires s.clients[c].pc.Copying? && s.clients[c].pc.source < |s.records| ==>
               RecordOk(cfg, s, s.clients[c].pc.source)
    ensures PcOk(cfg, s', s'.clients[c])
  {
    hide RightsValid;
  }

  lemma TablePcOk(cfg: Config, s: State, c: nat, a: TableAction, s': State)
    requires c < |s.clients| && DoTable(s, c, a) == Some(s') && PcOk(cfg, s, s.clients[c])
    requires |s'.clients| == |s.clients|
    ensures PcOk(cfg, s', s'.clients[c])
  {
    hide RightsValid, CapTaken, Without, SizeOk;
    var cl := s'.clients[c];
    if a.AddHandle? && a.index < |cl.handles| && cl.pc.Replying? {
      assert cl.handles[a.index].Some?;
    }
  }

  lemma ResizePcOk(cfg: Config, s: State, c: nat, a: ResizeAction, s': State)
    requires c < |s.clients| && DoResize(cfg, s, c, a) == Some(s') && PcOk(cfg, s, s.clients[c])
    requires |s'.clients| == |s.clients|
    ensures PcOk(cfg, s', s'.clients[c])
  {
  }

  lemma {:induction false} OccupiedUpdate(handles: seq<Option<Handle>>, i: nat, x: Option<Handle>)
    requires i < |handles|
    ensures Occupied(handles[i := x]) + Bit(handles[i].Some?) == Occupied(handles) + Bit(x.Some?)
  {
    var n := |handles| - 1;
    if i == n {
      assert handles[i := x][..n] == handles[..n];
    } else {
      assert handles[i := x][..n] == handles[..n][i := x];
      OccupiedUpdate(handles[..n], i, x);
    }
  }

  lemma HandlesAdded(s: State, cl: Client, index: nat, r: nat, rights: set<Right>)
    requires HandlesOk(s, cl) && index < |cl.handles| && cl.handles[index].None?
    requires IsLive(s, r) && rights <= s.records[r].value.max
    ensures HandlesOk(s, WithHandle(cl, index, r, rights))
  {
    hide Occupied;
    OccupiedUpdate(cl.handles, index, Some(Handle(r, cl.next, rights)));
  }

  lemma HandlesRemoved(s: State, cl: Client, index: nat)
    requires HandlesOk(s, cl) && HasHandle(cl, index)
    ensures HandlesOk(s, WithoutHandle(cl, index))
  {
    hide Occupied;
    OccupiedUpdate(cl.handles, index, None);
  }

  lemma HandlesUntouched(cfg: Config, s: State, c: nat, a: Action, s': State)
    requires c < |s.clients| && Do(cfg, s, c, a) == Some(s') && |s'.clients| == |s.clients| && !a.Table?
    ensures s'.clients[c].handles == s.clients[c].handles && s'.clients[c].next == s.clients[c].next
    ensures s'.clients[c].count == s.clients[c].count
  {
    hide RightsValid;
  }

  lemma TableHandlesOk(cfg: Config, s: State, c: nat, a: TableAction, s': State)
    requires Inv(cfg, s) && c < |s.clients| && DoTable(s, c, a) == Some(s') && Evolution(cfg, s, c, Table(a), s')
    requires Balanced(cfg, s')
    ensures HandlesOk(s', s'.clients[c])
  {
    hide Balanced, RegistryOk, LockOk, RecordOk, Times, CapTaken, RightsValid, Without, HandleShare, HandlesOk,
         RecordEvolves, NewRecord;
    var cl := s.clients[c];
    assert ClientOk(cfg, s, c);
    if s'.clients[c].handles == cl.handles && s'.clients[c].next == cl.next && s'.clients[c].count == cl.count {
      HandlesKept(cfg, s, c, Table(a), s', c);
    } else if a.AddHandle? {
      HeldIsLive(cfg, s, c, cl.pc.record);
      HandlesAdded(s, cl, a.index, cl.pc.record, cl.pc.rights);
      SameHandles(s, WithHandle(cl, a.index, cl.pc.record, cl.pc.rights), s', s'.clients[c]);
    } else {
      HandlesRemoved(s, cl, a.index);
      SameHandles(s, WithoutHandle(cl, a.index), s', s'.clients[c]);
    }
  }

  lemma SameHandles(s: State, cl: Client, s': State, cl': Client)
    requires s'.records == s.records && cl'.handles == cl.handles && cl'.next == cl.next && cl'.count == cl.count
    requires HandlesOk(s, cl)
    ensures HandlesOk(s', cl')
  {
    forall i | 0 <= i < |cl.handles| && cl.handles[i].Some?
      ensures HandleOk(s', cl.next, cl.handles[i].value)
    {
      assert HandleOk(s, cl.next, cl.handles[i].value);
    }
  }

  lemma OwnClientOk(cfg: Config, s: State, c: nat, a: Action, s': State)
    requires Inv(cfg, s) && c < |s.clients| && Do(cfg, s, c, a) == Some(s') && Evolution(cfg, s, c, a, s')
    requires Balanced(cfg, s')
    ensures ClientOk(cfg, s', c)
  {
    hide Balanced, RegistryOk, LockOk, RecordOk, HandlesOk, DoReserve, DoTable, DoResize, RecordEvolves, NewRecord,
         Touched;
    assert ClientOk(cfg, s, c);
    if a.Table? {
      TableHandlesOk(cfg, s, c, a.t, s');
    } else {
      HandlesUntouched(cfg, s, c, a, s');
      HandlesKept(cfg, s, c, a, s', c);
    }
    match a
    case Reserve(x) => ReserveLockOk(cfg, s, c, x, s'); ReservePcOk(cfg, s, c, x, s');
    case Table(x) => TableLockOk(s, c, x, s'); TablePcOk(cfg, s, c, x, s');
    case Release(x) => ReleaseLockOk(s, c, x, s');
    case Resize(x) => ResizeLockOk(cfg, s, c, x, s'); ResizePcOk(cfg, s, c, x, s');
  }

  lemma ActionKeepsInv(cfg: Config, s: State, c: nat, a: Action, s': State)
    requires Inv(cfg, s) && c < |s.clients| && Do(cfg, s, c, a) == Some(s')
    ensures Inv(cfg, s')
  {
    hide Balanced, RegistryOk, LockOk, RecordOk, HandlesOk, PcOk, Do, RecordEvolves, NewRecord, Touched;
    assert ClientOk(cfg, s, c);
    Evolving(cfg, s, c, a, s');
    StepBalanced(cfg, s, c, a, s');
    RegistryStep(cfg, s, c, a, s');
    RecordsKept(cfg, s, c, a, s');
    forall d: nat | d < |s'.clients|
      ensures ClientOk(cfg, s', d)
    {
      if d == c {
        OwnClientOk(cfg, s, c, a, s');
      } else {
        OtherLockOk(cfg, s, c, a, s', d);
        HandlesKept(cfg, s, c, a, s', d);
        OtherPcOk(cfg, s, c, a, s', d);
      }
    }
  }

  lemma {:induction false} EmptyHandles(handles: seq<Option<Handle>>, r: nat)
    requires forall i :: 0 <= i < |handles| ==> handles[i] == None
    ensures HandleShare(handles, r) == 0 && Occupied(handles) == 0
  {
    if handles != [] {
      EmptyHandles(handles[..|handles| - 1], r);
    }
  }

  lemma {:induction false} IdleSum(clients: seq<Client>, m: Measure)
    requires forall c :: 0 <= c < |clients| ==> Idle(clients[c])
    ensures ClientSum(clients, m) == 0
  {
    if clients != [] {
      var cl := clients[|clients| - 1];
      IdleSum(clients[..|clients| - 1], m);
      assert Idle(cl);
      if m.Refs? {
        EmptyHandles(cl.handles, m.record);
      }
    }
  }

  /** A client that waits for a request and has no handles */
  ghost predicate Idle(cl: Client) {
    cl.pc == Ready && forall i :: 0 <= i < |cl.handles| ==> cl.handles[i] == None
  }

  lemma InitialInv(cfg: Config, s: State)
    requires Initial(s)
    ensures Inv(cfg, s)
  {
    hide HandleShare, Occupied, ClientSum;
    forall c | 0 <= c < |s.clients|
      ensures Idle(s.clients[c])
    {
      assert IsNewClient(s.clients[c]);
    }
    forall m: Measure
      ensures Sum(s, m) == 0
    {
      IdleSum(s.clients, m);
    }
    forall c: nat | c < |s.clients|
      ensures ClientOk(cfg, s, c)
    {
      assert IsNewClient(s.clients[c]);
      EmptyHandles(s.clients[c].handles, 0);
    }
  }

  /** Every state of every run of any number of clients satisfies the invariant. */
  lemma {:induction false} TraceInv(cfg: Config, tr: seq<State>, i: nat)
    requires Trace(cfg, tr) && i < |tr|
    ensures Inv(cfg, tr[i])
  {
    hide Inv, Do, Initial;
    if i == 0 {
      InitialInv(cfg, tr[0]);
    } else {
      TraceInv(cfg, tr, i - 1);
      assert Step(cfg, tr[i - 1], tr[i - 1 + 1]);
      var c: nat, a :| c < |tr[i - 1].clients| && Do(cfg, tr[i - 1], c, a) == Some(tr[i]);
      ActionKeepsInv(cfg, tr[i - 1], c, a, tr[i]);
    }
  }

  // ------------------------------------------------------------------
  // Theorems over every run
  // ------------------------------------------------------------------

  /** The server's counters are exactly what the records and the requests under way account for, within the limits. */
  lemma QuotasAreExact(cfg: Config, tr: seq<State>, i: nat)
    requires Trace(cfg, tr) && i < |tr|
    ensures tr[i].total == RecordSum(tr[i].records, Bytes) + ClientSum(tr[i].clients, Bytes) <= cfg.maxTotal
    ensures tr[i].live == RecordSum(tr[i].records, Slots) + ClientSum(tr[i].clients, Slots) <= cfg.maxNotes
    ensures forall r: nat :: IsLive(tr[i], r) ==> SizeOk(cfg, tr[i].records[r].value.size)
  {
    hide Trace, RegistryOk, ClientOk, RecordSum, ClientSum, SizeOk;
    TraceInv(cfg, tr, i);
    forall r: nat | IsLive(tr[i], r)
      ensures SizeOk(cfg, tr[i].records[r].value.size)
    {
      assert RecordOk(cfg, tr[i], r);
    }
  }

  /** A record is referenced by the registry, handles, snapshot children and requests under way, and by nothing else. */
  lemma ReferencesAreExact(cfg: Config, tr: seq<State>, i: nat, r: nat)
    requires Trace(cfg, tr) && i < |tr|
    ensures RefCount(tr[i], r)
         == Times(tr[i].registry, r) + RecordSum(tr[i].records, Refs(r)) + ClientSum(tr[i].clients, Refs(r))
    ensures IsLive(tr[i], r) <==> RefCount(tr[i], r) > 0
    ensures r in tr[i].registry ==> IsLive(tr[i], r)
  {
    hide Trace, ClientOk, RecordSum, ClientSum, Times;
    TraceInv(cfg, tr, i);
    assert RefCount(tr[i], r) == Sum(tr[i], Refs(r));
    if IsLive(tr[i], r) {
      assert RecordOk(cfg, tr[i], r);
    }
  }

  /** A handle names a live record with no more than the record's rights, and an id names one handle. */
  lemma HandlesStayWithinRights(cfg: Config, tr: seq<State>, i: nat, c: nat)
    requires Trace(cfg, tr) && i < |tr| && c < |tr[i].clients|
    ensures HandlesOk(tr[i], tr[i].clients[c])
  {
    hide Trace, HandlesOk, Balanced, RegistryOk;
    TraceInv(cfg, tr, i);
    assert ClientOk(cfg, tr[i], c);
  }

  lemma {:induction false} TimesTwo(list: seq<nat>, j: nat, k: nat)
    requires j < k < |list| && list[j] == list[k]
    ensures Times(list, list[j]) >= 2
  {
    if j == 0 {
      TimesIn(list[1..], list[k]);
      assert list[k] == list[1..][k - 1];
    } else {
      TimesTwo(list[1..], j - 1, k - 1);
    }
  }

  /** A capability opens one record at most, and never the zero capability. */
  lemma CapabilitiesAreDistinct(cfg: Config, tr: seq<State>, i: nat, j: nat, k: nat)
    requires Trace(cfg, tr) && i < |tr| && j < k < |tr[i].registry|
    ensures IsLive(tr[i], tr[i].registry[j]) && IsLive(tr[i], tr[i].registry[k])
    ensures tr[i].records[tr[i].registry[j]].value.cap != 0 && tr[i].records[tr[i].registry[k]].value.cap != 0
    ensures tr[i].records[tr[i].registry[j]].value.cap != tr[i].records[tr[i].registry[k]].value.cap
  {
    hide Trace, Balanced, ClientOk, Times;
    TraceInv(cfg, tr, i);
    var list := tr[i].registry;
    assert list[j] in list && list[k] in list && Times(list, list[j]) <= 1;
    if list[j] == list[k] {
      TimesTwo(list, j, k);
    }
  }

  /** While a request holds a record's op_lock, no other request holds it, frees the record or changes its size. */
  lemma LocksProtect(cfg: Config, tr: seq<State>, i: nat, c: nat, a: Action, d: nat)
    requires Trace(cfg, tr) && i < |tr| && c < |tr[i].clients| && d < |tr[i].clients| && c != d
    requires Locked(tr[i].clients[d].pc).Some?
    ensures Locked(tr[i].clients[c].pc) != Locked(tr[i].clients[d].pc)
    ensures var r := Locked(tr[i].clients[d].pc).value;
            && IsLive(tr[i], r)
            && (Do(cfg, tr[i], c, a).Some? ==>
                  var s' := Do(cfg, tr[i], c, a).value;
                  IsLive(s', r) && s'.records[r].value.size == tr[i].records[r].value.size)
  {
    hide Trace, Balanced, RegistryOk, HandlesOk, PcOk, Do, HandleShare, Touched, RecordOk, SizeOk;
    TraceInv(cfg, tr, i);
    var s := tr[i];
    assert ClientOk(cfg, s, d) && ClientOk(cfg, s, c);
    LockedIsLive(cfg, s, d);
    if Do(cfg, s, c, a).Some? {
      var s' := Do(cfg, s, c, a).value;
      ActionKeepsInv(cfg, s, c, a, s');
      Evolving(cfg, s, c, a, s');
      assert ClientOk(cfg, s', d);
      LockedIsLive(cfg, s', d);
      var r := Locked(s.clients[d].pc).value;
      assert RecordEvolves(cfg, s.records[r], s'.records[r], c, IsLink(a));
    }
  }

  /** A snapshot is charged what its source is charged when it is made. */
  lemma CopiesAreChargedAlike(cfg: Config, tr: seq<State>, i: nat, c: nat)
    requires Trace(cfg, tr) && i < |tr| && c < |tr[i].clients| && tr[i].clients[c].pc.HasBoth?
    requires tr[i].clients[c].pc.why.CopyOf?
    ensures var s' := Do(cfg, tr[i], c, Reserve(Allocate(true)));
            && s'.Some? && |s'.value.records| == |tr[i].records| + 1
            && var copy := s'.value.records[|tr[i].records|].value;
            && copy.parent == Some(tr[i].clients[c].pc.why.source) && IsLive(s'.value, copy.parent.value)
            && copy.size == s'.value.records[copy.parent.value].value.size
  {
    hide Trace, Balanced, RegistryOk, HandlesOk, HandleShare, RecordOk, SizeOk;
    TraceInv(cfg, tr, i);
    assert ClientOk(cfg, tr[i], c);
    LockedIsLive(cfg, tr[i], c);
  }

  // ------------------------------------------------------------------
  // No request uses a freed record, underflows a counter or gets stuck
  // ------------------------------------------------------------------

  ghost predicate CanAdd(cfg: Config, s: State, c: nat)
    requires c < |s.clients|
  {
    s.clients[c].count < |s.clients[c].handles| ==> exists index :: Do(cfg, s, c, Table(AddHandle(index, true))).Some?
  }

  /** What the code does next without a further check is possible. */
  ghost predicate CanGoOn(cfg: Config, s: State, c: nat)
    requires c < |s.clients|
  {
    var cl := s.clients[c];
    match cl.pc
    case Ready => forall j: nat :: j < |cl.handles| && cl.handles[j].Some? ==> Do(cfg, s, c, Table(Close(j))).Some?
    case Copying(_, _) => Do(cfg, s, c, Reserve(ReserveSlot)).Some?
    case HasSlot(size, _) => Do(cfg, s, c, Reserve(ReserveBytes(size <= cfg.maxTotal - s.total))).Some?
    case HasBoth(_, _) => Do(cfg, s, c, Reserve(Allocate(true))).Some? && Do(cfg, s, c, Reserve(Allocate(false))).Some?
    case GiveBytes(_, _) => Do(cfg, s, c, Reserve(ReturnBytes)).Some?
    case GiveSlot(_) => Do(cfg, s, c, Reserve(ReturnSlot)).Some?
    case Owner(_, rights, linked) =>
      if ShareRight in rights && !linked then
        forall cap: nat :: cap != 0 && !CapTaken(s, cap) ==> Do(cfg, s, c, Table(Link(cap, true))).Some?
      else CanAdd(cfg, s, c)
    case Opened(_, _) => CanAdd(cfg, s, c)
    case Replying(_, _) =>
      Do(cfg, s, c, Table(Reply(true, 0))).Some? && exists index :: Do(cfg, s, c, Table(Reply(false, index))).Some?
    case Dropping(_) => Do(cfg, s, c, Release(Drop)).Some?
    case FreedBytes(_, _, _) => Do(cfg, s, c, Release(FreeBytes)).Some?
    case FreedSlot(_, _) => Do(cfg, s, c, Release(FreeSlot)).Some?
    case ResizeAsked(r, size) =>
      IsLive(s, r) && Do(cfg, s, c, Resize(ReserveMore(size - s.records[r].value.size <= cfg.maxTotal - s.total))).Some?
    case ResizeTry(_, _, _) => Do(cfg, s, c, Resize(Apply(true))).Some? && Do(cfg, s, c, Resize(Apply(false))).Some?
    case ResizeGive(_, _) => Do(cfg, s, c, Resize(ReturnSurplus)).Some?
  }

  lemma {:induction false} OccupiedBounds(handles: seq<Option<Handle>>)
    ensures (exists i :: 0 <= i < |handles| && handles[i].Some?) <==> Occupied(handles) > 0
    ensures (exists i :: 0 <= i < |handles| && handles[i].None?) <==> Occupied(handles) < |handles|
    ensures Occupied(handles) <= |handles|
  {
    if handles != [] {
      var n := |handles| - 1;
      OccupiedBounds(handles[..n]);
      assert forall i :: 0 <= i < n ==> handles[..n][i] == handles[i];
      assert handles[n].Some? || handles[n].None?;
    }
  }

  /** What a request accounts for is still in the counters. */
  lemma SharesAreCovered(cfg: Config, s: State, c: nat)
    requires Balanced(cfg, s) && c < |s.clients|
    ensures PcShare(s.clients[c].pc, Bytes) <= s.total && PcShare(s.clients[c].pc, Slots) <= s.live
  {
    hide PcShare, RecordSum, ClientSum;
    ShareAtMost(s.clients, c, Bytes);
    ShareAtMost(s.clients, c, Slots);
  }

  lemma TableGoesOn(cfg: Config, s: State, c: nat)
    requires Inv(cfg, s) && c < |s.clients|
    requires s.clients[c].pc.Ready? || s.clients[c].pc.Owner? || s.clients[c].pc.Opened? || s.clients[c].pc.Replying?
    ensures CanGoOn(cfg, s, c)
  {
    hide Balanced, RegistryOk, LockOk, RecordOk, Occupied, CapTaken, HandleShare, Times, Without;
    var cl := s.clients[c];
    assert ClientOk(cfg, s, c);
    OccupiedBounds(cl.handles);
    if cl.pc.Owner? {
      HeldIsLive(cfg, s, c, cl.pc.record);
      if !cl.pc.linked {
        Unregistered(cfg, s, c);
      }
    }
    if cl.pc.Replying? {
      var j :| 0 <= j < |cl.handles| && cl.handles[j].Some? && cl.handles[j].value.record == cl.pc.record
              && cl.handles[j].value.id == cl.pc.id;
      assert Do(cfg, s, c, Table(Reply(false, j))).Some?;
    } else if (cl.pc.Owner? || cl.pc.Opened?) && cl.count < |cl.handles| {
      var j :| 0 <= j < |cl.handles| && cl.handles[j].None?;
      assert Do(cfg, s, c,
                Table(AddHandle(j, true))).Some? || (cl.pc.Owner? && ShareRight in cl.pc.rights && !cl.pc.linked);
    }
  }

  /** A record is not in the registry before its creator links it. */
  lemma Unregistered(cfg: Config, s: State, c: nat)
    requires Inv(cfg, s) && c < |s.clients| && s.clients[c].pc.Owner? && !s.clients[c].pc.linked
    ensures s.clients[c].pc.record !in s.registry
  {
    hide Balanced, RegistryOk, LockOk, RecordOk, HandlesOk, HandleShare, Times;
    var r := s.clients[c].pc.record;
    assert ClientOk(cfg, s, c);
    HeldIsLive(cfg, s, c, r);
    Holders(cfg, s, c, c, r);
    TimesIn(s.registry, r);
  }

  lemma RequestGoesOn(cfg: Config, s: State, c: nat)
    requires Inv(cfg, s) && c < |s.clients|
    requires !(s.clients[c].pc.Ready? || s.clients[c].pc.Owner? || s.clients[c].pc.Opened? || s.clients[c].pc.Replying?)
    ensures CanGoOn(cfg, s, c)
  {
    hide Balanced, RegistryOk, HandlesOk, HandleShare, Times, CapTaken;
    var pc := s.clients[c].pc;
    assert ClientOk(cfg, s, c);
    SharesAreCovered(cfg, s, c);
    if Locked(pc).Some? {
      LockedIsLive(cfg, s, c);
    }
    if pc.Dropping? && pc.todo != [] {
      var r := pc.todo[0];
      TimesIn(pc.todo, r);
      HeldIsLive(cfg, s, c, r);
      assert RecordOk(cfg, s, r);
    }
  }

  /** In every run: records are live where they are used, counters never underflow, and every request can go on. */
  lemma NoUseAfterFree(cfg: Config, tr: seq<State>, i: nat, c: nat)
    requires Trace(cfg, tr) && i < |tr| && c < |tr[i].clients|
    ensures CanGoOn(cfg, tr[i], c)
  {
    hide Trace, Inv, CanGoOn;
    TraceInv(cfg, tr, i);
    var pc := tr[i].clients[c].pc;
    if pc.Ready? || pc.Owner? || pc.Opened? || pc.Replying? {
      TableGoesOn(cfg, tr[i], c);
    } else {
      RequestGoesOn(cfg, tr[i], c);
    }
  }

  /** How much a request that releases references still has to do, at most */
  ghost function ToRelease(s: State, pc: Pc): nat {
    4 * RecordSum(s.records, Slots) +
    match pc
    case Dropping(todo) => |todo| + 1
    case FreedBytes(_, _, todo) => |todo| + 4
    case FreedSlot(_, todo) => |todo| + 3
    case _ => 0
  }

  /** However many snapshots keep each other alive, the cascade of releases of a client ends. */
  lemma ReleasingEnds(s: State, c: nat, a: ReleaseAction, s': State)
    requires c < |s.clients| && DoRelease(s, c, a) == Some(s') && |s'.clients| == |s.clients|
    ensures ToRelease(s', s'.clients[c].pc) < ToRelease(s, s.clients[c].pc)
  {
    hide RecordSum;
    var pc := s.clients[c].pc;
    if pc.Dropping? && pc.todo != [] {
      RecordUpdate(s.records, pc.todo[0], s'.records[pc.todo[0]], Slots);
    }
  }

  // ------------------------------------------------------------------
  // Nothing leaks
  // ------------------------------------------------------------------

  lemma {:induction false} ZeroRecordSum(records: seq<Option<Record>>, m: Measure)
    requires forall q :: 0 <= q < |records| ==> RecordShare(records[q], m) == 0
    ensures RecordSum(records, m) == 0
  {
    if records != [] {
      ZeroRecordSum(records[..|records| - 1], m);
    }
  }

  /**
   * With no handle, registration or request left, records go from the youngest down: parents are older than snapshots.
   */
  lemma {:induction false} NoneAbove(cfg: Config, s: State, k: nat)
    requires Inv(cfg, s) && s.registry == [] && k <= |s.records|
    requires AllIdle(s)
    ensures forall r: nat :: k <= r < |s.records| ==> s.records[r].None?
    decreases |s.records| - k
  {
    hide RegistryOk, ClientOk, Idle;
    if k < |s.records| {
      NoneAbove(cfg, s, k + 1);
      assert RefCount(s, k) == Sum(s, Refs(k)) && RecordOk(cfg, s, k);
      IdleSum(s.clients, Refs(k));
      forall q | 0 <= q < |s.records|
        ensures RecordShare(s.records[q], Refs(k)) == 0
      {
        assert RecordOk(cfg, s, q);
      }
      ZeroRecordSum(s.records, Refs(k));
    }
  }

  /** Once all clients are idle without handles and the registry is empty, every record, slot and byte is back. */
  lemma NothingLeaks(cfg: Config, tr: seq<State>, i: nat)
    requires Trace(cfg, tr) && i < |tr| && tr[i].registry == [] && AllIdle(tr[i])
    ensures forall r: nat :: !IsLive(tr[i], r)
    ensures tr[i].total == 0 && tr[i].live == 0
  {
    hide Trace, RegistryOk, ClientOk, RecordOk, Idle;
    TraceInv(cfg, tr, i);
    NoneAbove(cfg, tr[i], 0);
    IdleSum(tr[i].clients, Bytes);
    IdleSum(tr[i].clients, Slots);
    ZeroRecordSum(tr[i].records, Bytes);
    ZeroRecordSum(tr[i].records, Slots);
  }

  ghost predicate AllIdle(s: State) {
    forall c :: 0 <= c < |s.clients| ==> Idle(s.clients[c])
  }

  /** All clients but `c` are gone, and `c` has no handles and nothing to do but to release references. */
  ghost predicate Stopping(s: State, c: nat) {
    && c < |s.clients| && s.registry == []
    && (|| s.clients[c].pc.Ready? || s.clients[c].pc.Dropping?
        || s.clients[c].pc.FreedBytes? || s.clients[c].pc.FreedSlot?)
    && forall d :: 0 <= d < |s.clients| ==> Idle(s.clients[d].(pc := if d == c then Ready else s.clients[d].pc))
  }

  /** The next release of the one who stops */
  lemma StopGoesOn(cfg: Config, s: State, c: nat) returns (s': State)
    requires Inv(cfg, s) && Stopping(s, c) && !s.clients[c].pc.Ready?
    ensures Step(cfg, s, s') && Inv(cfg, s') && Stopping(s', c)
    ensures ToRelease(s', s'.clients[c].pc) < ToRelease(s, s.clients[c].pc)
  {
    hide Inv, ToRelease;
    var a := if s.clients[c].pc.Dropping? then Drop else if s.clients[c].pc.FreedBytes? then FreeBytes else FreeSlot;
    RequestGoesOn(cfg, s, c);
    s' := Do(cfg, s, c, Release(a)).value;
    ActionKeepsInv(cfg, s, c, Release(a), s');
    ReleaseShape(s, c, a, s');
    ReleasingEnds(s, c, a, s');
  }

  /** A run that goes on from a state */
  ghost predicate Runs(cfg: Config, run: seq<State>) {
    run != [] && forall i :: 0 <= i < |run| - 1 ==> Step(cfg, run[i], run[i + 1])
  }

  lemma {:induction false} StopEnds(cfg: Config, s: State, c: nat) returns (run: seq<State>)
    requires Inv(cfg, s) && Stopping(s, c)
    ensures Runs(cfg, run) && run[0] == s && Stopping(run[|run| - 1], c) && run[|run| - 1].clients[c].pc.Ready?
    decreases ToRelease(s, s.clients[c].pc)
  {
    hide Inv, ToRelease, Step, Idle;
    if s.clients[c].pc.Ready? {
      run := [s];
    } else {
      var s' := StopGoesOn(cfg, s, c);
      var rest := StopEnds(cfg, s', c);
      run := [s] + rest;
      forall i | 0 <= i < |run| - 1
        ensures Step(cfg, run[i], run[i + 1])
      {
        if i > 0 {
          assert run[i] == rest[i - 1] && run[i + 1] == rest[i];
        }
      }
    }
  }

  /** Stopping the server once its clients are gone frees every record and gives back every slot and byte. */
  lemma StopFreesAll(cfg: Config, tr: seq<State>, c: nat) returns (run: seq<State>)
    requires Trace(cfg, tr) && c < |tr[|tr| - 1].clients|
    requires AllIdle(tr[|tr| - 1])
    ensures Trace(cfg, run) && tr <= run
    ensures var last := run[|run| - 1]; last.total == 0 && last.live == 0 && forall r: nat :: !IsLive(last, r)
  {
    hide Step, Inv;
    var s := tr[|tr| - 1];
    TraceInv(cfg, tr, |tr| - 1);
    var s' := StopStarts(cfg, s, c);
    var rest := StopEnds(cfg, s', c);
    run := tr + rest;
    forall i | 0 <= i < |run| - 1
      ensures Step(cfg, run[i], run[i + 1])
    {
      if i < |tr| - 1 {
        assert Step(cfg, tr[i], tr[i + 1]);
      } else if i >= |tr| {
        assert run[i] == rest[i - |tr|] && run[i + 1] == rest[i - |tr| + 1];
      }
    }
    NothingLeaks(cfg, run, |run| - 1);
  }

  lemma StopStarts(cfg: Config, s: State, c: nat) returns (s': State)
    requires Inv(cfg, s) && c < |s.clients| && AllIdle(s)
    ensures Step(cfg, s, s') && Inv(cfg, s') && Stopping(s', c)
  {
    hide Inv;
    assert Idle(s.clients[c]);
    s' := Do(cfg, s, c, Table(Detach)).value;
    ActionKeepsInv(cfg, s, c, Table(Detach), s');
  }
}
