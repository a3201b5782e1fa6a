// The ETM channel allocator (esp_etm.c) under any interleaving of tasks that
// create and delete channels.
//
// A group object exists while something refers to it: a task that has acquired it,
// or a channel registered in it.  The reference count, guarded by the platform
// mutex, decides when the object is freed; the channel slots have a lock of their own.

module EtmPool {
  import opened Machine

  type Task = nat
  type Chan = nat
  type Obj = nat  // the address of a group object

  datatype PC =
    | Idle
    | Search(ch: Chan, i: nat)              // about to acquire group i
    | Scan(ch: Chan, i: nat, o: Obj)        // has acquired group i; about to look for a free slot
    | GiveUp(ch: Chan, i: nat, o: Obj)      // no free slot; about to release the group
    | Clear(ch: Chan, i: nat, o: Obj, j: nat)  // deletion: about to clear the slot
    | Drop(i: nat, o: Obj)                  // deletion: about to release the group
    | Free(o: Obj, next: PC)                // the count has reached 0; about to free the object

  /// A live channel: its group and its slot there.
  datatype Home = Home(i: nat, o: Obj, j: nat)

  datatype State = State(
    width: nat,                             // SOC_ETM_CHANNELS_PER_GROUP
    pool: seq<Option<Obj>>,                 // s_platform.groups
    refs: seq<int>,                         // s_platform.group_ref_counts
    slots: map<Obj, seq<Option<Chan>>>,     // the channels of every allocated group object
    live: map<Chan, Home>,
    pc: map<Task, PC>)

  /// A step of task `t`.  `o` is the address the allocator gives if asked.
  datatype Step =
    | New(t: Task, ch: Chan)
    | Delete(t: Task, ch: Chan)
    | Go(t: Task, o: Obj)
    | NoMemory(t: Task)

  /// Where a task continues after giving up group `i`.
  function Onward(s: State, ch: Chan, i: nat): PC {
    if i + 1 < |s.pool| then Search(ch, i + 1) else Idle
  }

  function FirstFree(c: seq<Option<Chan>>): (j: nat)
    ensures j <= |c| && (forall k :: 0 <= k < j ==> c[k].Some?) && (j < |c| ==> c[j].None?)
  {
    if c == [] then 0 else if c[0].None? then 0 else 1 + FirstFree(c[1..])
  }

  /// The search of etm_chan_register_to_group through one group, in place: what
  /// the step of a task at `Scan` does to the slots.
  method ClaimSlot(chans: array<Option<Chan>>, ch: Chan) returns (id: Option<nat>)
    modifies chans
    ensures var j := FirstFree(old(chans[..]));
      && id == (if j < chans.Length then Some(j) else None)
      && chans[..] == if j < chans.Length then old(chans[..])[j := Some(ch)] else old(chans[..])
  {
    for i := 0 to chans.Length
      invariant chans[..] == old(chans[..])
      invariant FirstFree(chans[..]) >= i
    {
      if chans[i].None? {
        chans[i] := Some(ch);
        return Some(i);
      }
    }
    return None;
  }

  /// The channel a task is creating or deleting.
  predicate WorksOn(p: PC, ch: Chan)
    decreases p
  {
    match p
    case Search(c, _) => c == ch
    case Scan(c, _, _) => c == ch
    case GiveUp(c, _, _) => c == ch
    case Clear(c, _, _, _) => c == ch
    case Free(_, next) => WorksOn(next, ch)
    case _ => false
  }

  predicate Enabled(s: State, step: Step) {
    && step.t in s.pc
    && match step
       case New(t, ch) => s.pc[t].Idle? && |s.pool| > 0 && ch !in s.live && forall u <- s.pc :: !WorksOn(s.pc[u], ch)
       case Delete(t, ch) => s.pc[t].Idle? && ch in s.live && forall u <- s.pc :: !WorksOn(s.pc[u], ch)
       case Go(t, o) => !s.pc[t].Idle? && o !in s.slots
       case NoMemory(t) => s.pc[t].Search? && s.pc[t].i < |s.pool| && s.pool[s.pc[t].i].None?
  }

  /// The memory the step touches is there.
  predicate Safe(s: State, step: Step)
    requires Enabled(s, step)
  {
    step.Go? ==>
      match s.pc[step.t]
      case Search(_, i) => i < |s.pool| == |s.refs| && (s.pool[i].Some? ==> s.pool[i].value in s.slots)
      case Scan(_, _, o) => o in s.slots
      case GiveUp(_, i, o) => o in s.slots && i < |s.pool| == |s.refs| && s.pool[i] == Some(o) && s.refs[i] > 0
      case Clear(ch, _, o, j) => o in s.slots && j < |s.slots[o]| && s.slots[o][j] == Some(ch)
      case Drop(i, o) => o in s.slots && i < |s.pool| == |s.refs| && s.pool[i] == Some(o) && s.refs[i] > 0
      case Free(o, _) => o in s.slots
      case Idle => true
  }

  /// etm_release_group_handle up to the unlock: the last reference takes the group
  /// out of the pool and leaves the object to be freed.
  function Release(s: State, t: Task, i: nat, o: Obj, next: PC): State
    requires i < |s.pool| == |s.refs|
  {
    if s.refs[i] - 1 == 0 then
      s.(refs := s.refs[i := 0], pool := s.pool[i := None], pc := s.pc[t := Free(o, next)])
    else s.(refs := s.refs[i := s.refs[i] - 1], pc := s.pc[t := next])
  }

  function Apply(s: State, step: Step): State
    requires Enabled(s, step) && Safe(s, step)
  {
    var t := step.t;
    match step
    case New(_, ch) => s.(pc := s.pc[t := Search(ch, 0)])
    case Delete(_, ch) => var h := s.live[ch]; s.(pc := s.pc[t := Clear(ch, h.i, h.o, h.j)])
    case NoMemory(_) => s.(pc := s.pc[t := Idle])
    case Go(_, made) =>
      match s.pc[t]
      case Search(ch, i) =>
        var o := if s.pool[i].Some? then s.pool[i].value else made;
        s.(pool := s.pool[i := Some(o)],
           slots := if s.pool[i].Some? then s.slots else s.slots[made := seq(s.width, _ => None)],
           refs := s.refs[i := s.refs[i] + 1],
           pc := s.pc[t := Scan(ch, i, o)])
      case Scan(ch, i, o) =>
        var j := FirstFree(s.slots[o]);
        if j < |s.slots[o]| then
          s.(slots := s.slots[o := s.slots[o][j := Some(ch)]],
             live := s.live[ch := Home(i, o, j)],
             pc := s.pc[t := Idle])
        else s.(pc := s.pc[t := GiveUp(ch, i, o)])
      case GiveUp(ch, i, o) => Release(s, t, i, o, Onward(s, ch, i))
      case Clear(ch, i, o, j) =>
        s.(slots := s.slots[o := s.slots[o][j := None]], live := s.live - {ch}, pc := s.pc[t := Drop(i, o)])
      case Drop(i, o) => Release(s, t, i, o, Idle)
      case Free(o, next) => s.(slots := s.slots - {o}, pc := s.pc[t := next])
      case Idle => s
  }

  ghost predicate Initial(s: State) {
    && |s.refs| == |s.pool| && (forall i :: 0 <= i < |s.pool| ==> s.pool[i].None? && s.refs[i] == 0)
    && s.slots == map[] && s.live == map[] && forall t <- s.pc :: s.pc[t].Idle?
  }

  // ---- The invariant ----

  /// Tasks that hold a reference to group `i`.
  predicate Holds(p: PC, i: nat) {
    match p
    case Scan(_, k, _) => k == i
    case GiveUp(_, k, _) => k == i
    case Drop(k, _) => k == i
    case _ => false
  }

  ghost function Holders(pc: map<Task, PC>, i: nat): set<Task> {
    set t | t in pc && Holds(pc[t], i)
  }

  ghost function Occupied(c: seq<Option<Chan>>): set<nat> {
    set j: nat | j < |c| && c[j].Some?
  }

  /// The reference count of a group is the number of its holders and channels, and
  /// the group is in the pool exactly while the count is positive.
  ghost predicate CountOk(s: State, i: nat)
    requires i < |s.pool| == |s.refs|
  {
    && (s.pool[i].Some? ==> s.pool[i].value in s.slots)
    && s.refs[i] == |Holders(s.pc, i)| + (if s.pool[i].Some? then |Occupied(s.slots[s.pool[i].value])| else 0)
    && (s.pool[i].Some? <==> s.refs[i] > 0)
  }

  ghost predicate Pooled(s: State, i: nat, o: Obj) {
    i < |s.pool| && s.pool[i] == Some(o)
  }

  /// What a task refers to is in the pool, or is about to be freed by it alone.
  ghost predicate TaskOk(s: State, t: Task)
    requires t in s.pc
  {
    match s.pc[t]
    case Idle => true
    case Search(ch, i) => i < |s.pool| && ch !in s.live
    case Scan(ch, i, o) => Pooled(s, i, o) && ch !in s.live
    case GiveUp(ch, i, o) => Pooled(s, i, o) && ch !in s.live
    case Clear(ch, i, o, j) => ch in s.live && s.live[ch] == Home(i, o, j)
    case Drop(i, o) => Pooled(s, i, o)
    case Free(o, next) =>
      && o in s.slots && (forall i :: 0 <= i < |s.pool| ==> s.pool[i] != Some(o))
      && (next.Idle? || (next.Search? && next.i < |s.pool| && next.ch !in s.live))
  }

  /// A live channel is in its slot of a group in the pool, and slots hold only live channels.
  ghost predicate ChansOk(s: State) {
    && (forall ch <- s.live :: InSlot(s, ch))
    && (forall i: nat, o: Obj, j: nat :: Pooled(s, i, o) ==> SlotOk(s, i, o, j))
  }

  ghost predicate InSlot(s: State, ch: Chan)
    requires ch in s.live
  {
    var h := s.live[ch];
    Pooled(s, h.i, h.o) && h.o in s.slots && h.j < |s.slots[h.o]| && s.slots[h.o][h.j] == Some(ch)
  }

  ghost predicate SlotOk(s: State, i: nat, o: Obj, j: nat) {
    o in s.slots && j < |s.slots[o]| && s.slots[o][j].Some? ==>
      var ch := s.slots[o][j].value; ch in s.live && s.live[ch] == Home(i, o, j)
  }

  /// Group objects are in at most one place of the pool, are freed by at most one
  /// task, and a channel is worked on by at most one task.
  ghost predicate PoolUnique(s: State) {
    forall i, k :: 0 <= i < |s.pool| && 0 <= k < |s.pool| && s.pool[i].Some? && s.pool[i] == s.pool[k] ==> i == k
  }

  ghost predicate FreeUnique(s: State) {
    forall t, u :: t in s.pc && u in s.pc && s.pc[t].Free? && s.pc[u].Free? && s.pc[t].o == s.pc[u].o ==> t == u
  }

  ghost predicate WorkUnique(s: State) {
    forall t, u, ch :: t in s.pc && u in s.pc && WorksOn(s.pc[t], ch) && WorksOn(s.pc[u], ch) ==> t == u
  }

  ghost predicate Unique(s: State) {
    PoolUnique(s) && FreeUnique(s) && WorkUnique(s)
  }

  /// A group object is in the pool or about to be freed.
  ghost predicate Accounted(s: State, o: Obj) {
    (exists i: nat :: Pooled(s, i, o)) || exists t <- s.pc :: s.pc[t].Free? && s.pc[t].o == o
  }

  ghost predicate NoLeak(s: State) {
    forall o <- s.slots :: Accounted(s, o)
  }

  ghost predicate CountsOk(s: State) {
    |s.refs| == |s.pool| && forall i :: 0 <= i < |s.pool| ==> CountOk(s, i)
  }

  ghost predicate TasksOk(s: State) {
    forall t <- s.pc :: TaskOk(s, t)
  }

  ghost predicate Inv(s: State) {
    && CountsOk(s) && TasksOk(s)
    && ChansOk(s) && Unique(s) && NoLeak(s)
  }

  lemma InitialInv(s: State)
    requires Initial(s)
    ensures Inv(s)
  {
    forall i | 0 <= i < |s.pool| ensures CountOk(s, i) {
      assert Holders(s.pc, i) == {};
    }
  }

  lemma StepSafe(s: State, step: Step)
    requires Inv(s) && Enabled(s, step)
    ensures Safe(s, step)
  {
    assert TaskOk(s, step.t);
    if step.Go? && !s.pc[step.t].Idle? && !s.pc[step.t].Free? {
      assert CountOk(s, s.pc[step.t].i);
    }
  }

  lemma HoldersAfter(pc: map<Task, PC>, t: Task, p: PC, i: nat)
    requires t in pc
    ensures |Holders(pc[t := p], i)| ==
      |Holders(pc, i)| + (if Holds(p, i) then 1 else 0) - (if Holds(pc[t], i) then 1 else 0)
  {
    var h, h' := Holders(pc, i), Holders(pc[t := p], i);
    SizeWith(h, t);
    assert t in h <==> Holds(pc[t], i);
    if Holds(p, i) {
      assert h' == h + {t};
    } else {
      assert h' == h - {t};
    }
  }

  lemma OccupiedAfter(c: seq<Option<Chan>>, j: nat, x: Option<Chan>)
    requires j < |c|
    ensures |Occupied(c[j := x])| == |Occupied(c)| + (if x.Some? then 1 else 0) - (if c[j].Some? then 1 else 0)
  {
    var d := Occupied(c);
    SizeWith(d, j);
    assert j in d <==> c[j].Some?;
    if x.Some? {
      assert Occupied(c[j := x]) == d + {j};
    } else {
      assert Occupied(c[j := x]) == d - {j};
    }
  }

  /// The counts of all groups stay right: one lemma for each kind of step.
  lemma StepCount(s: State, step: Step, k: nat)
    requires Inv(s) && Enabled(s, step) && Safe(s, step) && k < |s.pool|
    ensures k < |Apply(s, step).pool| == |Apply(s, step).refs| && CountOk(Apply(s, step), k)
  {
    assert step.t in s.pc;
    hide Inv, Enabled, Safe, Apply, CountOk;
    if step.Go? {
      match s.pc[step.t]
      case Search(_, _) => CountSearch(s, step, k);
      case Scan(_, _, _) => CountScan(s, step, k);
      case Clear(_, _, _, _) => CountClear(s, step, k);
      case GiveUp(_, _, _) => CountRelease(s, step, k);
      case Drop(_, _) => CountRelease(s, step, k);
      case _ => CountOther(s, step, k);
    } else {
      CountOther(s, step, k);
    }
  }

  /// The holders after a step, seen from the task that makes it.
  lemma StepHolders(s: State, step: Step, k: nat)
    requires Inv(s) && Enabled(s, step) && Safe(s, step) && k < |s.pool|
    ensures |Apply(s, step).pool| == |Apply(s, step).refs| == |s.pool| && step.t in Apply(s, step).pc
    ensures var p, p' := s.pc[step.t], Apply(s, step).pc[step.t];
      |Holders(Apply(s, step).pc, k)| ==
        |Holders(s.pc, k)| + (if Holds(p', k) then 1 else 0) - (if Holds(p, k) then 1 else 0)
  {
    hide ChansOk, NoLeak, Unique, WorksOn, Holders, CountOk, TasksOk, Holds;
    var s' := Apply(s, step);
    assert s'.pc == s.pc[step.t := s'.pc[step.t]];
    HoldersAfter(s.pc, step.t, s'.pc[step.t], k);
  }

  lemma CountSearch(s: State, step: Step, k: nat)
    requires Inv(s) && Enabled(s, step) && Safe(s, step) && k < |s.pool| && step.Go? && s.pc[step.t].Search?
    ensures k < |Apply(s, step).pool| == |Apply(s, step).refs| && CountOk(Apply(s, step), k)
  {
    assert CountOk(s, k);
    StepHolders(s, step, k);
    NoneOccupied(s.width);
    hide ChansOk, NoLeak, Unique, WorksOn, Holders, Occupied, TasksOk;
  }

  lemma CountScan(s: State, step: Step, k: nat)
    requires Inv(s) && Enabled(s, step) && Safe(s, step) && k < |s.pool| && step.Go? && s.pc[step.t].Scan?
    ensures k < |Apply(s, step).pool| == |Apply(s, step).refs| && CountOk(Apply(s, step), k)
  {
    assert CountOk(s, k) && TaskOk(s, step.t);
    StepHolders(s, step, k);
    hide ChansOk, NoLeak, FreeUnique, WorkUnique, WorksOn, Holders, Occupied, TasksOk;
    var p := s.pc[step.t];
    var j := FirstFree(s.slots[p.o]);
    if j < |s.slots[p.o]| {
      OccupiedAfter(s.slots[p.o], j, Some(p.ch));
    }
  }

  lemma CountClear(s: State, step: Step, k: nat)
    requires Inv(s) && Enabled(s, step) && Safe(s, step) && k < |s.pool| && step.Go? && s.pc[step.t].Clear?
    ensures k < |Apply(s, step).pool| == |Apply(s, step).refs| && CountOk(Apply(s, step), k)
  {
    var p := s.pc[step.t];
    assert CountOk(s, k) && TaskOk(s, step.t) && InSlot(s, p.ch);
    StepHolders(s, step, k);
    hide ChansOk, NoLeak, FreeUnique, WorkUnique, WorksOn, Holders, Occupied, TasksOk;
    OccupiedAfter(s.slots[p.o], p.j, None);
  }

  lemma CountRelease(s: State, step: Step, k: nat)
    requires Inv(s) && Enabled(s, step) && Safe(s, step) && k < |s.pool|
    requires step.Go? && (s.pc[step.t].GiveUp? || s.pc[step.t].Drop?)
    ensures k < |Apply(s, step).pool| == |Apply(s, step).refs| && CountOk(Apply(s, step), k)
  {
    assert CountOk(s, k) && TaskOk(s, step.t);
    StepHolders(s, step, k);
    hide ChansOk, NoLeak, Unique, WorksOn, Holders, Occupied, TasksOk;
  }

  lemma CountOther(s: State, step: Step, k: nat)
    requires Inv(s) && Enabled(s, step) && Safe(s, step) && k < |s.pool|
    requires step.Go? ==> s.pc[step.t].Idle? || s.pc[step.t].Free?
    ensures k < |Apply(s, step).pool| == |Apply(s, step).refs| && CountOk(Apply(s, step), k)
  {
    assert CountOk(s, k) && TaskOk(s, step.t);
    StepHolders(s, step, k);
    hide ChansOk, NoLeak, Unique, WorksOn, Holders, Occupied, TasksOk;
  }

  lemma NoneOccupied(n: nat)
    ensures Occupied(seq(n, _ => None)) == {}
  {
  }

  lemma TwoOf<T>(a: set<T>, x: T, y: T)
    requires x in a && y in a && x != y
    ensures |a| >= 2
  {
    assert {x, y} <= a;
    assert a == {x, y} + (a - {x, y});
  }

  /// A release leaves a group in the pool that another task holds...
  lemma OtherHolder(s: State, t: Task, u: Task, i: nat)
    requires Inv(s) && t in s.pc && u in s.pc && t != u && i < |s.pool|
    requires Holds(s.pc[t], i) && Holds(s.pc[u], i)
    ensures s.refs[i] >= 2
  {
    assert CountOk(s, i);
    TwoOf(Holders(s.pc, i), t, u);
  }

  /// ...or that has a channel.
  lemma HasChannel(s: State, t: Task, ch: Chan)
    requires Inv(s) && t in s.pc && ch in s.live && Holds(s.pc[t], s.live[ch].i)
    ensures s.live[ch].i < |s.pool| && s.refs[s.live[ch].i] >= 2
  {
    var h := s.live[ch];
    assert CountOk(s, h.i);
    assert t in Holders(s.pc, h.i) && h.j in Occupied(s.slots[h.o]);
  }

  /// The group of a channel that stays live stays in the pool.
  lemma ChannelKeepsGroup(s: State, step: Step, ch: Chan)
    requires Inv(s) && Enabled(s, step) && Safe(s, step) && ch in s.live
    ensures Pooled(Apply(s, step), s.live[ch].i, s.live[ch].o)
  {
    var h := s.live[ch];
    assert TaskOk(s, step.t) && CountOk(s, h.i);
    if step.Go? && Holds(s.pc[step.t], h.i) {
      HasChannel(s, step.t, ch);
    }
  }

  /// A group another task holds stays in the pool.
  lemma HolderKeepsGroup(s: State, step: Step, u: Task, i: nat, o: Obj)
    requires Inv(s) && Enabled(s, step) && Safe(s, step) && u in s.pc && u != step.t
    requires Pooled(s, i, o) && Holds(s.pc[u], i)
    ensures Pooled(Apply(s, step), i, o)
  {
    assert TaskOk(s, step.t);
    if step.Go? && Holds(s.pc[step.t], i) {
      OtherHolder(s, step.t, u, i);
    }
  }

  /// A step registers or unregisters only the channel its task works on.
  lemma LiveChanges(s: State, step: Step, ch: Chan)
    requires Inv(s) && Enabled(s, step) && Safe(s, step)
    requires (ch in s.live) != (ch in Apply(s, step).live)
    ensures WorksOn(s.pc[step.t], ch) && !WorksOn(Apply(s, step).pc[step.t], ch)
  {
  }

  /// The channel another task works on keeps its state.
  lemma OthersChannel(s: State, step: Step, u: Task, ch: Chan)
    requires Inv(s) && Enabled(s, step) && Safe(s, step) && u in s.pc && u != step.t && WorksOn(s.pc[u], ch)
    ensures ch in s.live <==> ch in Apply(s, step).live
    ensures ch in s.live ==> Apply(s, step).live[ch] == s.live[ch]
  {
    hide CountsOk, TasksOk, ChansOk, NoLeak, PoolUnique, FreeUnique;
    if (ch in s.live) != (ch in Apply(s, step).live) {
      LiveChanges(s, step, ch);
    }
  }

  /// The object another task is about to free stays as it is.
  lemma OthersObject(s: State, step: Step, u: Task)
    requires Inv(s) && Enabled(s, step) && Safe(s, step) && u in s.pc && u != step.t && s.pc[u].Free?
    ensures var s', o := Apply(s, step), s.pc[u].o;
      o in s'.slots && forall i :: 0 <= i < |s'.pool| ==> s'.pool[i] != Some(o)
  {
    assert TaskOk(s, u) && TaskOk(s, step.t);
    hide CountsOk, TasksOk, ChansOk, NoLeak, PoolUnique, WorkUnique;
    if step.Go? && s.pc[step.t].Search? {
      SearchKeepsObject(s, step, s.pc[u].o);
    }
  }

  /// A new group object is not one that is about to be freed.
  lemma SearchKeepsObject(s: State, step: Step, o: Obj)
    requires Enabled(s, step) && Safe(s, step) && step.Go? && s.pc[step.t].Search? && o in s.slots
    requires forall i :: 0 <= i < |s.pool| ==> s.pool[i] != Some(o)
    ensures var s' := Apply(s, step); o in s'.slots && forall i :: 0 <= i < |s'.pool| ==> s'.pool[i] != Some(o)
  {
  }

  lemma StepOtherTask(s: State, step: Step, u: Task)
    requires Inv(s) && Enabled(s, step) && Safe(s, step) && u in s.pc && u != step.t
    ensures TaskOk(Apply(s, step), u)
  {
    assert TaskOk(s, u);
    var s' := Apply(s, step);
    assert u in s'.pc && s'.pc[u] == s.pc[u] && |s'.pool| == |s.pool|;
    hide Inv, Enabled, Safe, Apply;
    match s.pc[u] {
      case Idle =>
      case Search(ch, _) =>
        OthersChannel(s, step, u, ch);
      case Scan(ch, i, o) =>
        OthersChannel(s, step, u, ch);
        HolderKeepsGroup(s, step, u, i, o);
      case GiveUp(ch, i, o) =>
        OthersChannel(s, step, u, ch);
        HolderKeepsGroup(s, step, u, i, o);
      case Clear(ch, _, _, _) =>
        OthersChannel(s, step, u, ch);
      case Drop(i, o) =>
        HolderKeepsGroup(s, step, u, i, o);
      case Free(o, next) =>
        OthersObject(s, step, u);
        if next.Search? {
          OthersChannel(s, step, u, next.ch);
        }
    }
  }

  lemma StepOwnTask(s: State, step: Step)
    requires Inv(s) && Enabled(s, step) && Safe(s, step)
    ensures TaskOk(Apply(s, step), step.t)
  {
    assert TaskOk(s, step.t);
  }

  /// A step that neither fills nor clears a slot leaves the channels alone.
  ghost predicate LeavesSlots(s: State, step: Step)
    requires Enabled(s, step)
  {
    step.Go? ==> !s.pc[step.t].Scan? && !s.pc[step.t].Clear?
  }

  lemma StepInSlot(s: State, step: Step, ch: Chan)
    requires Inv(s) && Enabled(s, step) && Safe(s, step) && ch in Apply(s, step).live
    ensures InSlot(Apply(s, step), ch)
  {
    assert TaskOk(s, step.t);
    if ch in s.live {
      assert InSlot(s, ch);
      ChannelKeepsGroup(s, step, ch);
    }
    if LeavesSlots(s, step) {
      InSlotLeft(s, step, ch);
    } else {
      InSlotChanged(s, step, ch);
    }
    hide *;
  }

  lemma InSlotLeft(s: State, step: Step, ch: Chan)
    requires Inv(s) && Enabled(s, step) && Safe(s, step) && LeavesSlots(s, step) && ch in Apply(s, step).live
    requires ch in s.live && InSlot(s, ch) && Pooled(Apply(s, step), s.live[ch].i, s.live[ch].o)
    ensures InSlot(Apply(s, step), ch)
  {
    SlotsStay(s, step, s.live[ch].i, s.live[ch].o);
    LiveStays(s, step);
    hide Inv, Enabled, Safe, Apply, LeavesSlots;
  }

  lemma LiveStays(s: State, step: Step)
    requires Enabled(s, step) && Safe(s, step) && LeavesSlots(s, step)
    ensures Apply(s, step).live == s.live
  {
  }

  lemma SlotsStay(s: State, step: Step, i: nat, o: Obj)
    requires Inv(s) && Enabled(s, step) && Safe(s, step) && LeavesSlots(s, step)
    requires Pooled(s, i, o) && o in s.slots
    ensures o in Apply(s, step).slots && Apply(s, step).slots[o] == s.slots[o]
  {
    assert TaskOk(s, step.t);
    hide CountsOk, ChansOk, NoLeak, Unique, TasksOk;
  }

  lemma InSlotChanged(s: State, step: Step, ch: Chan)
    requires Inv(s) && Enabled(s, step) && Safe(s, step) && !LeavesSlots(s, step) && ch in Apply(s, step).live
    requires ch in s.live ==> InSlot(s, ch)
    ensures InSlot(Apply(s, step), ch)
  {
    assert TaskOk(s, step.t);
    hide CountsOk, ChansOk, NoLeak, Unique, TasksOk;
  }

  lemma StepSlot(s: State, step: Step, i: nat, o: Obj, j: nat)
    requires Inv(s) && Enabled(s, step) && Safe(s, step) && Pooled(Apply(s, step), i, o)
    ensures SlotOk(Apply(s, step), i, o, j)
  {
    if Pooled(s, i, o) {
      assert SlotOk(s, i, o, j);
    }
    if LeavesSlots(s, step) {
      SlotLeft(s, step, i, o, j);
    } else {
      SlotChanged(s, step, i, o, j);
    }
    hide *;
  }

  lemma SlotLeft(s: State, step: Step, i: nat, o: Obj, j: nat)
    requires Inv(s) && Enabled(s, step) && Safe(s, step) && LeavesSlots(s, step) && Pooled(Apply(s, step), i, o)
    requires Pooled(s, i, o) ==> SlotOk(s, i, o, j)
    ensures SlotOk(Apply(s, step), i, o, j)
  {
    assert TaskOk(s, step.t);
    hide CountsOk, ChansOk, NoLeak, Unique, TasksOk;
  }

  lemma SlotChanged(s: State, step: Step, i: nat, o: Obj, j: nat)
    requires Inv(s) && Enabled(s, step) && Safe(s, step) && !LeavesSlots(s, step) && Pooled(Apply(s, step), i, o)
    requires Pooled(s, i, o) ==> SlotOk(s, i, o, j)
    ensures SlotOk(Apply(s, step), i, o, j)
  {
    assert TaskOk(s, step.t);
    hide CountsOk, ChansOk, NoLeak, FreeUnique, WorkUnique, TasksOk;
  }

  lemma StepPoolUnique(s: State, step: Step)
    requires Inv(s) && Enabled(s, step) && Safe(s, step)
    ensures PoolUnique(Apply(s, step))
  {
    hide CountOk, CountsOk, FirstFree, ChansOk, NoLeak, FreeUnique, WorkUnique;
    PoolInSlots(s);
  }

  lemma StepFreeUnique(s: State, step: Step)
    requires Inv(s) && Enabled(s, step) && Safe(s, step)
    ensures FreeUnique(Apply(s, step))
  {
    hide CountOk, CountsOk, FirstFree, ChansOk, NoLeak, PoolUnique, WorkUnique;
    assert TaskOk(s, step.t);
    forall u | u in s.pc && s.pc[u].Free? ensures forall i :: 0 <= i < |s.pool| ==> s.pool[i] != Some(s.pc[u].o) {
      assert TaskOk(s, u);
    }
  }

  /// A step makes its task work on no channel that it did not work on, except for
  /// the channel of a new call, on which no task works.
  lemma WorkChanges(s: State, step: Step, ch: Chan)
    requires TaskOkFor(s, step) && Enabled(s, step) && Safe(s, step) && WorksOn(Apply(s, step).pc[step.t], ch)
    ensures WorksOn(s.pc[step.t], ch) || forall u <- s.pc :: !WorksOn(s.pc[u], ch)
  {
  }

  ghost predicate TaskOkFor(s: State, step: Step) {
    step.t in s.pc && TaskOk(s, step.t)
  }

  lemma StepWorkUnique(s: State, step: Step)
    requires Inv(s) && Enabled(s, step) && Safe(s, step)
    ensures WorkUnique(Apply(s, step))
  {
    var s' := Apply(s, step);
    assert TaskOkFor(s, step);
    assert s'.pc == s.pc[step.t := s'.pc[step.t]];
    hide CountOk, CountsOk, FirstFree, ChansOk, NoLeak, PoolUnique, FreeUnique, Apply, Enabled, Safe, TaskOk, WorksOn;
    forall t, u, ch | t in s'.pc && u in s'.pc && WorksOn(s'.pc[t], ch) && WorksOn(s'.pc[u], ch) ensures t == u {
      if t == step.t || u == step.t {
        WorkChanges(s, step, ch);
      }
    }
  }

  lemma StepUnique(s: State, step: Step)
    requires Inv(s) && Enabled(s, step) && Safe(s, step)
    ensures Unique(Apply(s, step))
  {
    StepPoolUnique(s, step);
    StepFreeUnique(s, step);
    StepWorkUnique(s, step);
  }

  lemma PoolInSlots(s: State)
    requires Inv(s)
    ensures forall k :: 0 <= k < |s.pool| && s.pool[k].Some? ==> s.pool[k].value in s.slots
  {
    forall k | 0 <= k < |s.pool| && s.pool[k].Some? ensures s.pool[k].value in s.slots {
      assert CountOk(s, k);
    }
  }

  lemma StepNoLeak(s: State, step: Step)
    requires Inv(s) && Enabled(s, step) && Safe(s, step)
    ensures NoLeak(Apply(s, step))
  {
    hide CountOk, CountsOk, FirstFree, ChansOk, Unique;
    var s' := Apply(s, step);
    assert TaskOk(s, step.t);
    forall o | o in s'.slots ensures Accounted(s', o) {
      if o in s.slots {
        assert Accounted(s, o);
        if i: nat :| Pooled(s, i, o) {
          assert Pooled(s', i, o) || (s'.pc[step.t].Free? && s'.pc[step.t].o == o);
        } else {
          var t :| t in s.pc && s.pc[t].Free? && s.pc[t].o == o;
          assert t in s'.pc;
        }
      } else {
        assert Pooled(s', s.pc[step.t].i, o);
      }
    }
  }

  lemma StepCounts(s: State, step: Step)
    requires Inv(s) && Enabled(s, step) && Safe(s, step)
    ensures CountsOk(Apply(s, step))
  {
    var s' := Apply(s, step);
    assert |s'.pool| == |s'.refs| == |s.pool|;
    hide CountOk, Apply, Enabled, Safe, Inv;
    forall k: nat | k < |s.pool| ensures CountOk(s', k) {
      StepCount(s, step, k);
    }
  }

  lemma StepTasks(s: State, step: Step)
    requires Inv(s) && Enabled(s, step) && Safe(s, step)
    ensures TasksOk(Apply(s, step))
  {
    var s' := Apply(s, step);
    assert s'.pc.Keys == s.pc.Keys;
    hide TaskOk, Apply, Enabled, Safe, Inv;
    forall u | u in s'.pc ensures TaskOk(s', u) {
      if u == step.t {
        StepOwnTask(s, step);
      } else {
        StepOtherTask(s, step, u);
      }
    }
  }

  lemma StepChans(s: State, step: Step)
    requires Inv(s) && Enabled(s, step) && Safe(s, step)
    ensures ChansOk(Apply(s, step))
  {
    hide InSlot, SlotOk, Pooled, Apply, Enabled, Safe, Inv;
    var s' := Apply(s, step);
    forall ch | ch in s'.live ensures InSlot(s', ch) {
      StepInSlot(s, step, ch);
    }
    forall i: nat, o: Obj, j: nat | Pooled(s', i, o) ensures SlotOk(s', i, o, j) {
      StepSlot(s, step, i, o, j);
    }
  }

  lemma StepInv(s: State, step: Step)
    requires Inv(s) && Enabled(s, step)
    ensures Safe(s, step) && Inv(Apply(s, step))
  {
    StepSafe(s, step);
    StepCounts(s, step);
    StepTasks(s, step);
    StepChans(s, step);
    StepUnique(s, step);
    StepNoLeak(s, step);
    hide CountsOk, TasksOk, ChansOk, Unique, NoLeak, Apply, Enabled, Safe;
  }

  // ---- Runs ----

  ghost predicate Runs(s: State, steps: seq<Step>, e: State)
    decreases |steps|
  {
    if steps == [] then s == e
    else Enabled(s, steps[0]) && Safe(s, steps[0]) && Runs(Apply(s, steps[0]), steps[1..], e)
  }

  lemma {:induction false} RunInv(s: State, steps: seq<Step>, e: State)
    requires Inv(s) && Runs(s, steps, e)
    ensures Inv(e)
    decreases |steps|
  {
    if steps != [] {
      StepInv(s, steps[0]);
      RunInv(Apply(s, steps[0]), steps[1..], e);
    }
  }

  /// In every run of any number of tasks, creating and deleting channels at will:
  /// no step touches a freed group; the count of a group is the number of its
  /// channels and of the tasks that hold it, and the group exists exactly while it
  /// is positive; two live channels never share a slot; and a live channel's group
  /// is allocated and in the pool.
  lemma PoolIsSafe(s: State, steps: seq<Step>, e: State, next: Step)
    requires Initial(s) && Runs(s, steps, e)
    ensures Enabled(e, next) ==> Safe(e, next)
    ensures |e.refs| == |e.pool| && forall i :: 0 <= i < |e.pool| ==> CountOk(e, i)
    ensures forall c, d :: c in e.live && d in e.live ==>
      e.live[c].i == e.live[d].i && e.live[c].j == e.live[d].j ==> c == d
    ensures forall c <- e.live :: InSlot(e, c)
  {
    InitialInv(s);
    RunInv(s, steps, e);
    if Enabled(e, next) {
      StepSafe(e, next);
    }
    forall c, d | c in e.live && d in e.live && e.live[c].i == e.live[d].i && e.live[c].j == e.live[d].j
      ensures c == d
    {
      assert InSlot(e, c) && InSlot(e, d);
    }
  }

  /// When no task is inside a call, the groups allocated are exactly those that
  /// have a channel: nothing is leaked.
  lemma NothingLeaks(s: State, steps: seq<Step>, e: State)
    requires Initial(s) && Runs(s, steps, e) && forall t <- e.pc :: e.pc[t].Idle?
    ensures forall o :: o in e.slots <==> exists c <- e.live :: e.live[c].o == o
  {
    InitialInv(s);
    RunInv(s, steps, e);
    forall o | o in e.slots ensures exists c <- e.live :: e.live[c].o == o {
      assert Accounted(e, o);
      var i: nat :| Pooled(e, i, o);
      assert CountOk(e, i);
      assert Holders(e.pc, i) == {};
      var j :| j in Occupied(e.slots[o]);
      assert SlotOk(e, i, o, j);
    }
    forall c | c in e.live ensures e.live[c].o in e.slots {
      assert InSlot(e, c);
    }
  }

  /// All groups have the slots the hardware has.
  ghost predicate Wide(s: State) {
    forall o <- s.slots :: |s.slots[o]| == s.width
  }

  lemma {:induction false} RunWide(s: State, steps: seq<Step>, e: State)
    requires Wide(s) && Runs(s, steps, e)
    ensures Wide(e) && e.width == s.width && |e.pool| == |s.pool|
    decreases |steps|
  {
    if steps != [] {
      StepWide(s, steps[0]);
      hide Wide, Apply, Enabled, Safe;
      RunWide(Apply(s, steps[0]), steps[1..], e);
    }
  }

  lemma StepWide(s: State, step: Step)
    requires Wide(s) && Enabled(s, step) && Safe(s, step)
    ensures Wide(Apply(s, step)) && Apply(s, step).width == s.width && |Apply(s, step).pool| == |s.pool|
  {
  }

  /// In every run a live channel has a slot that the hardware has, and a group is full
  /// exactly if all of these slots hold live channels.
  lemma SlotsExist(s: State, steps: seq<Step>, e: State, i: nat)
    requires Initial(s) && Runs(s, steps, e) && i < |e.pool| && e.pool[i].Some?
    ensures e.width == s.width && |e.pool| == |s.pool|
    ensures forall c <- e.live :: e.live[c].i < |s.pool| && e.live[c].j < s.width
    ensures Full(e, i) <==>
      forall j: nat :: j < s.width ==> exists c <- e.live :: e.live[c] == Home(i, e.pool[i].value, j)
  {
    InitialInv(s);
    RunInv(s, steps, e);
    RunWide(s, steps, e);
    var o := e.pool[i].value;
    assert CountOk(e, i);
    hide Inv, TasksOk, CountsOk, NoLeak, Unique, CountOk, Runs;
    assert ChansOk(e);
    forall c | c in e.live ensures e.live[c].i < |s.pool| && e.live[c].j < s.width {
      assert InSlot(e, c);
    }
    forall j: nat | j < s.width
      ensures e.slots[o][j].Some? <==> exists c <- e.live :: e.live[c] == Home(i, o, j)
    {
      assert SlotOk(e, i, o, j);
      if c :| c in e.live && e.live[c] == Home(i, o, j) {
        assert InSlot(e, c);
      }
    }
  }

  // ---- When a creation succeeds ----

  /// Group `i` is allocated and has no free slot.
  ghost predicate Full(s: State, i: nat) {
    && i < |s.pool| && s.pool[i].Some? && s.pool[i].value in s.slots
    && FirstFree(s.slots[s.pool[i].value]) == |s.slots[s.pool[i].value]|
  }

  /// The first group from `i` on that is not full is allocated, or there is memory to
  /// allocate it.
  ghost predicate CanCreate(s: State, i: nat, mem: bool) {
    exists k: nat :: i <= k < |s.pool| && FirstNotFull(s, i, k) && (s.pool[k].None? ==> mem)
  }

  ghost predicate FirstNotFull(s: State, i: nat, k: nat) {
    !Full(s, k) && forall m: nat :: i <= m < k ==> Full(s, m)
  }

  /// Only task `t` runs, and memory suffices for a group exactly if `mem` holds.
  ghost predicate Alone(s: State, steps: seq<Step>, e: State, t: Task, mem: bool)
    requires Runs(s, steps, e)
    decreases |steps|
  {
    steps != [] ==>
      && steps[0].t == t && (steps[0].Go? || steps[0].NoMemory?)
      && (NeedsMemory(s, t) ==> steps[0].Go? == mem)
      && Alone(Apply(s, steps[0]), steps[1..], e, t, mem)
  }

  ghost predicate NeedsMemory(s: State, t: Task) {
    t in s.pc && s.pc[t].Search? && s.pc[t].i < |s.pool| && s.pool[s.pc[t].i].None?
  }

  ghost predicate SamePool(s: State, e: State) {
    e.pool == s.pool && e.refs == s.refs && e.slots == s.slots && e.live == s.live
  }

  /// Group `k` has the new channel in its first free slot, and nothing else is different.
  ghost predicate CreatedIn(s: State, e: State, ch: Chan, k: nat) {
    && k < |s.pool| == |s.refs| && ch in e.live
    && var h := e.live[ch];
       && h.i == k && IsFirstFree(SlotsBefore(s, k), h.j)
       && (s.pool[k].None? || s.pool[k] == Some(h.o))
       && e.live == s.live[ch := h] && e.pool == s.pool[k := Some(h.o)] && e.refs == s.refs[k := s.refs[k] + 1]
       && e.slots == s.slots[h.o := SlotsBefore(s, k)[h.j := Some(ch)]]
  }

  /// The slots of group `k`, all of them free if it is not allocated.
  ghost function SlotsBefore(s: State, k: nat): seq<Option<Chan>>
    requires k < |s.pool|
  {
    if s.pool[k].None? then NewSlots(s.width)
    else if s.pool[k].value in s.slots then s.slots[s.pool[k].value] else []
  }

  function NewSlots(width: nat): (r: seq<Option<Chan>>)
    ensures |r| == width && forall j :: 0 <= j < |r| ==> r[j].None?
  {
    seq(width, _ => None)
  }

  ghost predicate IsFirstFree(slots: seq<Option<Chan>>, j: nat) {
    j < |slots| && slots[j].None? && forall m: nat :: m < j ==> slots[m].Some?
  }

  /// The first group from `i` on that is not full has the new channel.
  ghost predicate Created(s: State, e: State, ch: Chan, i: nat) {
    forall k: nat :: i <= k < |s.pool| && FirstNotFull(s, i, k) ==> CreatedIn(s, e, ch, k)
  }

  /// A full group is left as it was, after three steps.
  lemma FullVisit(s: State, t: Task, ch: Chan, i: nat, x: Obj, y: Obj, z: Obj)
    requires Inv(s) && t in s.pc && s.pc[t] == Search(ch, i) && Full(s, i)
    requires x !in s.slots && y !in s.slots && z !in s.slots
    ensures Enabled(s, Go(t, x)) && Safe(s, Go(t, x))
    ensures var s1 := Apply(s, Go(t, x));
      Enabled(s1, Go(t, y)) && Safe(s1, Go(t, y))
    ensures t in Apply(s, Go(t, x)).pc && Apply(s, Go(t, x)).pc[t].Scan? && Apply(s, Go(t, x)).slots == s.slots
    ensures var s2 := Apply(Apply(s, Go(t, x)), Go(t, y));
      t in s2.pc && s2.pc[t].GiveUp? && s2.slots == s.slots
    ensures var s2 := Apply(Apply(s, Go(t, x)), Go(t, y));
      Enabled(s2, Go(t, z)) && Safe(s2, Go(t, z)) &&
        Apply(s2, Go(t, z)) == s.(pc := s.pc[t := Onward(s, ch, i)])
  {
    assert TaskOk(s, t) && CountOk(s, i);
    hide ChansOk, NoLeak, Unique, TasksOk, CountsOk, Holders, Occupied;
    var o := s.pool[i].value;
    var s1 := Apply(s, Go(t, x));
    assert s1 == s.(refs := s.refs[i := s.refs[i] + 1], pc := s.pc[t := Scan(ch, i, o)]);
    var s2 := Apply(s1, Go(t, y));
    assert s2 == s1.(pc := s.pc[t := GiveUp(ch, i, o)]);
    assert s2.refs[i := s2.refs[i] - 1] == s.refs;
    assert s2.pc[t := Onward(s, ch, i)] == s.pc[t := Onward(s, ch, i)];
  }

  /// A group that is not full gives the channel a slot, after two steps.
  lemma RoomVisit(s: State, t: Task, ch: Chan, i: nat, x: Obj, y: Obj)
    requires Inv(s) && s.width > 0 && t in s.pc && s.pc[t] == Search(ch, i) && i < |s.pool| && !Full(s, i)
    requires x !in s.slots
    ensures Enabled(s, Go(t, x)) && Safe(s, Go(t, x))
    ensures t in Apply(s, Go(t, x)).pc && Apply(s, Go(t, x)).pc[t].Scan?
    ensures var s1 := Apply(s, Go(t, x));
      y !in s1.slots ==>
        && Enabled(s1, Go(t, y)) && Safe(s1, Go(t, y))
        && t in Apply(s1, Go(t, y)).pc && Apply(s1, Go(t, y)).pc[t].Idle?
        && CreatedIn(s, Apply(s1, Go(t, y)), ch, i)
  {
    assert TaskOk(s, t) && CountOk(s, i);
    hide Inv, ChansOk, NoLeak, Unique, TasksOk, CountsOk, Holders, Occupied;
  }

  lemma IdleEnds(s: State, steps: seq<Step>, e: State, t: Task, mem: bool)
    requires Runs(s, steps, e) && Alone(s, steps, e, t, mem) && t in s.pc && s.pc[t].Idle?
    ensures steps == [] && e == s
  {
  }

  lemma FirstNotFullStep(s: State, i: nat, k: nat)
    requires i < k && Full(s, i)
    ensures FirstNotFull(s, i, k) <==> FirstNotFull(s, i + 1, k)
  {
    hide Full;
    if FirstNotFull(s, i + 1, k) {
      forall m: nat | i <= m < k ensures Full(s, m) {
        if m > i {
          assert i + 1 <= m < k;
        }
      }
    }
  }

  lemma CanCreateStep(s: State, i: nat, mem: bool)
    requires i < |s.pool|
    ensures CanCreate(s, i, mem) <==> if Full(s, i) then CanCreate(s, i + 1, mem) else s.pool[i].None? ==> mem
  {
    if Full(s, i) {
      forall k: nat | i < k ensures FirstNotFull(s, i, k) <==> FirstNotFull(s, i + 1, k) {
        FirstNotFullStep(s, i, k);
      }
      assert !FirstNotFull(s, i, i);
    } else {
      assert FirstNotFull(s, i, i);
    }
    hide Full;
  }

  /// A task that creates a channel while no other task runs gets one exactly if the
  /// first group that is not full is allocated or memory suffices for it; otherwise it
  /// leaves the pool as it was.
  lemma {:induction false} CreationOutcome(
    s: State, steps: seq<Step>, e: State, t: Task, ch: Chan, i: nat, mem: bool)
    requires Inv(s) && s.width > 0 && t in s.pc && s.pc[t] == Search(ch, i) && i < |s.pool|
    requires Runs(s, steps, e) && Alone(s, steps, e, t, mem) && t in e.pc && e.pc[t].Idle?
    ensures ch in e.live <==> CanCreate(s, i, mem)
    ensures if ch in e.live then Created(s, e, ch, i) else SamePool(s, e)
    decreases |steps|
  {
    hide Inv, Full, CanCreate, Alone, Runs, TaskOk, Created, CreatedIn;
    CanCreateStep(s, i, mem);
    NotOver(s, steps, e, t, mem);
    if steps[0].NoMemory? {
      NoMemoryEnds(s, steps, e, t, ch, i, mem);
      AllocatedIfFull(s, i);
    } else if Full(s, i) {
      var s3, rest := FullEnds(s, steps, e, t, ch, i, mem);
      NotYetLive(s, t, ch, i);
      if i + 1 < |s.pool| {
        CreationOutcome(s3, rest, e, t, ch, i + 1, mem);
        SameCanCreate(s, s3, i + 1, mem);
        CreatedBehind(s, s3, e, ch, i);
      } else {
        IdleEnds(s3, rest, e, t, mem);
        NothingBehind(s, i + 1, mem);
      }
    } else {
      RoomEnds(s, steps, e, t, ch, i, mem);
      CreatedHere(s, e, ch, i);
    }
  }

  lemma CreatedHere(s: State, e: State, ch: Chan, i: nat)
    requires !Full(s, i) && CreatedIn(s, e, ch, i)
    ensures ch in e.live && Created(s, e, ch, i)
  {
    hide Full;
    forall k: nat | i <= k < |s.pool| && FirstNotFull(s, i, k) ensures CreatedIn(s, e, ch, k) {
      assert k == i;
    }
  }

  lemma SameCreatedIn(s: State, u: State, e: State, ch: Chan, k: nat)
    requires u == s.(pc := u.pc)
    ensures CreatedIn(u, e, ch, k) <==> CreatedIn(s, e, ch, k)
  {
  }

  lemma SameCreated(s: State, u: State, e: State, ch: Chan, i: nat)
    requires u == s.(pc := u.pc)
    ensures Created(u, e, ch, i) <==> Created(s, e, ch, i)
  {
    assert forall k: nat :: Full(u, k) <==> Full(s, k);
    hide Full;
    assert forall k: nat :: FirstNotFull(u, i, k) <==> FirstNotFull(s, i, k);
    hide FirstNotFull;
    forall k: nat ensures CreatedIn(u, e, ch, k) <==> CreatedIn(s, e, ch, k) {
      SameCreatedIn(s, u, e, ch, k);
    }
    hide CreatedIn;
  }

  lemma CreatedBehind(s: State, u: State, e: State, ch: Chan, i: nat)
    requires Full(s, i) && u == s.(pc := u.pc)
    ensures Created(u, e, ch, i + 1) ==> Created(s, e, ch, i)
  {
    SameCreated(s, u, e, ch, i + 1);
    hide Full, CreatedIn;
    forall k: nat | i < k ensures FirstNotFull(s, i, k) <==> FirstNotFull(s, i + 1, k) {
      FirstNotFullStep(s, i, k);
    }
  }

  lemma NotOver(s: State, steps: seq<Step>, e: State, t: Task, mem: bool)
    requires Runs(s, steps, e) && Alone(s, steps, e, t, mem) && t in e.pc && e.pc[t].Idle?
    requires t in s.pc && s.pc[t].Search?
    ensures steps != [] && (steps[0].Go? || steps[0].NoMemory?)
  {
  }

  lemma AllocatedIfFull(s: State, i: nat)
    ensures Full(s, i) ==> i < |s.pool| && s.pool[i].Some?
  {
  }

  lemma NotYetLive(s: State, t: Task, ch: Chan, i: nat)
    requires Inv(s) && t in s.pc && s.pc[t] == Search(ch, i)
    ensures ch !in s.live
  {
    assert TaskOk(s, t);
  }

  lemma NothingBehind(s: State, i: nat, mem: bool)
    requires i >= |s.pool|
    ensures !CanCreate(s, i, mem)
  {
  }

  lemma SameCanCreate(s: State, u: State, i: nat, mem: bool)
    requires u.pool == s.pool && u.slots == s.slots
    ensures CanCreate(u, i, mem) <==> CanCreate(s, i, mem)
  {
    assert forall k: nat :: Full(u, k) <==> Full(s, k);
    hide Full;
    assert forall k: nat :: FirstNotFull(u, i, k) <==> FirstNotFull(s, i, k);
  }

  lemma NoMemoryEnds(s: State, steps: seq<Step>, e: State, t: Task, ch: Chan, i: nat, mem: bool)
    requires Inv(s) && t in s.pc && s.pc[t] == Search(ch, i) && i < |s.pool| && steps != []
    requires Runs(s, steps, e) && Alone(s, steps, e, t, mem) && steps[0].NoMemory?
    ensures s.pool[i].None? && !mem && SamePool(s, e) && ch !in e.live
  {
    assert TaskOk(s, t);
    IdleEnds(Apply(s, steps[0]), steps[1..], e, t, mem);
  }

  lemma FullEnds(s: State, steps: seq<Step>, e: State, t: Task, ch: Chan, i: nat, mem: bool)
    returns (s3: State, rest: seq<Step>)
    requires Inv(s) && t in s.pc && s.pc[t] == Search(ch, i) && Full(s, i) && steps != [] && steps[0].Go?
    requires Runs(s, steps, e) && Alone(s, steps, e, t, mem) && t in e.pc && e.pc[t].Idle?
    ensures s3 == s.(pc := s.pc[t := Onward(s, ch, i)]) && |rest| < |steps|
    ensures Inv(s3) && Runs(s3, rest, e) && Alone(s3, rest, e, t, mem)
  {
    var x := steps[0].o;
    FullVisit(s, t, ch, i, x, x, x);
    StepInv(s, steps[0]);
    var s1 := Apply(s, steps[0]);
    var y, steps1 := NextGo(s1, steps[1..], e, t, mem);
    FullVisit(s, t, ch, i, x, y, x);
    StepInv(s1, Go(t, y));
    var s2 := Apply(s1, Go(t, y));
    var z, steps2 := NextGo(s2, steps1, e, t, mem);
    FullVisit(s, t, ch, i, x, y, z);
    StepInv(s2, Go(t, z));
    s3, rest := Apply(s2, Go(t, z)), steps2;
    hide *;
  }

  /// A task in the middle of a visit goes on.
  lemma NextGo(s: State, steps: seq<Step>, e: State, t: Task, mem: bool) returns (o: Obj, rest: seq<Step>)
    requires Runs(s, steps, e) && Alone(s, steps, e, t, mem) && t in e.pc && e.pc[t].Idle?
    requires t in s.pc && !s.pc[t].Idle? && !s.pc[t].Search?
    ensures Enabled(s, Go(t, o)) && Safe(s, Go(t, o)) && |rest| < |steps|
    ensures Runs(Apply(s, Go(t, o)), rest, e) && Alone(Apply(s, Go(t, o)), rest, e, t, mem)
  {
    assert steps[0].Go?;
    o, rest := steps[0].o, steps[1..];
    assert steps[0] == Go(t, o);
  }

  lemma RoomEnds(s: State, steps: seq<Step>, e: State, t: Task, ch: Chan, i: nat, mem: bool)
    requires Inv(s) && s.width > 0 && t in s.pc && s.pc[t] == Search(ch, i) && i < |s.pool| && !Full(s, i)
    requires steps != [] && steps[0].Go?
    requires Runs(s, steps, e) && Alone(s, steps, e, t, mem) && t in e.pc && e.pc[t].Idle?
    ensures CreatedIn(s, e, ch, i) && (s.pool[i].None? ==> mem)
  {
    var x := steps[0].o;
    RoomVisit(s, t, ch, i, x, x);
    var s1 := Apply(s, steps[0]);
    var y, rest := NextGo(s1, steps[1..], e, t, mem);
    RoomVisit(s, t, ch, i, x, y);
    IdleEnds(Apply(s1, Go(t, y)), rest, e, t, mem);
  }

  /// The same for a whole call of esp_etm_new_channel.
  lemma CreationDecides(s: State, steps: seq<Step>, e: State, t: Task, ch: Chan, mem: bool)
    requires Inv(s) && s.width > 0 && Enabled(s, New(t, ch))
    requires var s1 := Apply(s, New(t, ch));
      Runs(s1, steps, e) && Alone(s1, steps, e, t, mem) && t in e.pc && e.pc[t].Idle?
    ensures ch in e.live <==> CanCreate(s, 0, mem)
    ensures if ch in e.live then Created(s, e, ch, 0) else SamePool(s, e)
  {
    var s1 := Apply(s, New(t, ch));
    StepInv(s, New(t, ch));
    CreationOutcome(s1, steps, e, t, ch, 0, mem);
    SameCanCreate(s, s1, 0, mem);
    SameCreated(s, s1, e, ch, 0);
    hide *;
  }

  /// The pool after the deletion of a channel: it is not live any more and its slot is
  /// free; the group goes with its last reference.
  ghost predicate Deleted(s: State, e: State, ch: Chan)
    requires ch in s.live && s.live[ch].i < |s.refs| == |s.pool| && InSlot(s, ch)
  {
    var h := s.live[ch];
    && e.live == s.live - {ch}
    && (s.refs[h.i] == 1 ==>
          e.pool == s.pool[h.i := None] && e.refs == s.refs[h.i := 0] && e.slots == s.slots - {h.o})
    && (s.refs[h.i] != 1 ==>
          e.pool == s.pool && e.refs == s.refs[h.i := s.refs[h.i] - 1]
          && e.slots == s.slots[h.o := s.slots[h.o][h.j := None]])
  }

  /// A task that deletes a channel while no other task runs removes exactly it.
  lemma DeletionOutcome(s: State, steps: seq<Step>, e: State, t: Task, ch: Chan, mem: bool)
    requires Inv(s) && Enabled(s, Delete(t, ch))
    requires var s1 := Apply(s, Delete(t, ch));
      Runs(s1, steps, e) && Alone(s1, steps, e, t, mem) && t in e.pc && e.pc[t].Idle?
    ensures s.live[ch].i < |s.refs| == |s.pool| && InSlot(s, ch) && Deleted(s, e, ch)
  {
    assert InSlot(s, ch);
    DeleteStarts(s, t, ch);
    var s1 := Apply(s, Delete(t, ch));
    StepInv(s, Delete(t, ch));
    hide Inv, Runs, Alone, Apply, Enabled, Safe;
    var x, steps1 := NextGo(s1, steps, e, t, mem);
    ClearsSlot(s, t, ch, x);
    var s2 := Apply(s1, Go(t, x));
    var y, steps2 := NextGo(s2, steps1, e, t, mem);
    DropsGroup(s, t, ch, s2, y, steps2, e, mem);
  }

  lemma DeleteStarts(s: State, t: Task, ch: Chan)
    requires Enabled(s, Delete(t, ch))
    ensures var h := s.live[ch]; Apply(s, Delete(t, ch)) == s.(pc := s.pc[t := Clear(ch, h.i, h.o, h.j)])
  {
  }

  ghost predicate Cleared(s: State, s2: State, t: Task, ch: Chan)
    requires ch in s.live && s.live[ch].o in s.slots && s.live[ch].j < |s.slots[s.live[ch].o]|
  {
    var h := s.live[ch];
    && s2.pool == s.pool && s2.refs == s.refs && s2.live == s.live - {ch}
    && s2.slots == s.slots[h.o := s.slots[h.o][h.j := None]]
    && t in s2.pc && s2.pc[t] == Drop(h.i, h.o)
  }

  lemma ClearsSlot(s: State, t: Task, ch: Chan, x: Obj)
    requires Enabled(s, Delete(t, ch)) && InSlot(s, ch)
    requires var s1 := Apply(s, Delete(t, ch)); Enabled(s1, Go(t, x)) && Safe(s1, Go(t, x))
    ensures Cleared(s, Apply(Apply(s, Delete(t, ch)), Go(t, x)), t, ch)
  {
  }

  lemma DropsGroup(s: State, t: Task, ch: Chan, s2: State, y: Obj, steps: seq<Step>, e: State, mem: bool)
    requires ch in s.live && s.live[ch].i < |s.refs| == |s.pool| && InSlot(s, ch) && Cleared(s, s2, t, ch)
    requires Enabled(s2, Go(t, y)) && Safe(s2, Go(t, y)) && t in e.pc && e.pc[t].Idle?
    requires Runs(Apply(s2, Go(t, y)), steps, e) && Alone(Apply(s2, Go(t, y)), steps, e, t, mem)
    ensures Deleted(s, e, ch)
  {
    hide Runs, Alone;
    var s3 := Apply(s2, Go(t, y));
    var h := s.live[ch];
    if s.refs[h.i] == 1 {
      assert s3.pc[t] == Free(h.o, Idle);
      var z, more := NextGo(s3, steps, e, t, mem);
      FreesObject(s3, t, z, h.o);
      IdleEnds(Apply(s3, Go(t, z)), more, e, t, mem);
      assert s.slots[h.o := s.slots[h.o][h.j := None]] - {h.o} == s.slots - {h.o};
    } else {
      IdleEnds(s3, steps, e, t, mem);
    }
  }

  lemma FreesObject(s: State, t: Task, z: Obj, o: Obj)
    requires t in s.pc && s.pc[t] == Free(o, Idle) && Enabled(s, Go(t, z)) && Safe(s, Go(t, z))
    ensures Apply(s, Go(t, z)) == s.(slots := s.slots - {o}, pc := s.pc[t := Idle])
  {
  }

  // ---- A creation ends ----

  lemma {:induction false} FreshNumber(x: set<nat>) returns (o: nat)
    ensures forall y <- x :: y < o
    decreases |x|
  {
    if x == {} {
      o := 0;
    } else {
      var y :| y in x;
      var p := FreshNumber(x - {y});
      o := if y < p then p else y + 1;
      assert forall z <- x :: z == y || z in x - {y};
    }
  }

  lemma GoesOn(s: State, step: Step, rest: seq<Step>, e: State, t: Task, mem: bool)
    requires Enabled(s, step) && Safe(s, step) && step.t == t && (step.Go? || step.NoMemory?)
    requires NeedsMemory(s, t) ==> step.Go? == mem
    requires Runs(Apply(s, step), rest, e) && Alone(Apply(s, step), rest, e, t, mem)
    ensures Runs(s, [step] + rest, e) && Alone(s, [step] + rest, e, t, mem)
  {
    var steps := [step] + rest;
    assert steps[0] == step && steps[1..] == rest;
    hide Enabled, Safe, Apply, NeedsMemory;
  }

  /// From any group on, the task alone comes to the end of the call.
  lemma {:induction false} CreationEnds(s: State, t: Task, ch: Chan, i: nat, mem: bool)
    returns (steps: seq<Step>, e: State)
    requires Inv(s) && s.width > 0 && t in s.pc && s.pc[t] == Search(ch, i) && i < |s.pool|
    ensures Runs(s, steps, e) && Alone(s, steps, e, t, mem) && t in e.pc && e.pc[t].Idle?
    decreases |s.pool| - i
  {
    var x := FreshNumber(s.slots.Keys);
    if s.pool[i].None? && !mem {
      e := Apply(s, NoMemory(t));
      GoesOn(s, NoMemory(t), [], e, t, mem);
      steps := [NoMemory(t)] + [];
    } else if Full(s, i) {
      FullVisit(s, t, ch, i, x, x, x);
      var s1 := Apply(s, Go(t, x));
      var s2 := Apply(s1, Go(t, x));
      var s3 := Apply(s2, Go(t, x));
      StepInv(s, Go(t, x));
      StepInv(s1, Go(t, x));
      StepInv(s2, Go(t, x));
      if i + 1 < |s.pool| {
        steps, e := CreationEnds(s3, t, ch, i + 1, mem);
      } else {
        steps, e := [], s3;
      }
      steps := ThreeMore(s, x, x, x, steps, e, t, mem);
    } else {
      RoomVisit(s, t, ch, i, x, x);
      var s1 := Apply(s, Go(t, x));
      var y := FreshNumber(s1.slots.Keys);
      RoomVisit(s, t, ch, i, x, y);
      e := Apply(s1, Go(t, y));
      GoesOn(s1, Go(t, y), [], e, t, mem);
      GoesOn(s, Go(t, x), [Go(t, y)] + [], e, t, mem);
      steps := [Go(t, x)] + ([Go(t, y)] + []);
    }
  }

  lemma ThreeMore(s: State, x: Obj, y: Obj, z: Obj, rest: seq<Step>, e: State, t: Task, mem: bool)
    returns (steps: seq<Step>)
    requires Enabled(s, Go(t, x)) && Safe(s, Go(t, x)) && (NeedsMemory(s, t) ==> mem)
    requires var s1 := Apply(s, Go(t, x));
      Enabled(s1, Go(t, y)) && Safe(s1, Go(t, y)) && !NeedsMemory(s1, t)
    requires var s2 := Apply(Apply(s, Go(t, x)), Go(t, y));
      Enabled(s2, Go(t, z)) && Safe(s2, Go(t, z)) && !NeedsMemory(s2, t)
    requires var s3 := Apply(Apply(Apply(s, Go(t, x)), Go(t, y)), Go(t, z));
      Runs(s3, rest, e) && Alone(s3, rest, e, t, mem)
    ensures Runs(s, steps, e) && Alone(s, steps, e, t, mem)
  {
    hide Enabled, Safe, Apply, NeedsMemory, Runs, Alone;
    var s1 := Apply(s, Go(t, x));
    var s2 := Apply(s1, Go(t, y));
    GoesOn(s2, Go(t, z), rest, e, t, mem);
    GoesOn(s1, Go(t, y), [Go(t, z)] + rest, e, t, mem);
    GoesOn(s, Go(t, x), [Go(t, y)] + ([Go(t, z)] + rest), e, t, mem);
    steps := [Go(t, x)] + ([Go(t, y)] + ([Go(t, z)] + rest));
  }
}
