/**
 Threads reading one snapshot source. A read is many seeks and many reads of the one cursor, and a
 seek followed by a read is not atomic; one mutex is held for the whole positioned read. Every
 seek, every 16384-byte read, every lock operation and every copy below is a step of its own.
 */
module SharedCursor {
  import opened Bytes
  import opened Chains
  import opened Descriptors
  import opened Readers
  import opened Reconstruct
  import opened Sources
  import opened Views
  import opened Wrappers

  /** Where one thread stands in `ImageSource::read_at`. */
  datatype Thread =
    | Idle
    | Waiting(offset: u64, len: nat)
    | Looping(offset: u64, len: nat, data: seq<byte>)
    | Fetching(offset: u64, len: nat, data: seq<byte>, todo: seq<Fetch>, out: Block)
    | Sought(offset: u64, len: nat, data: seq<byte>, todo: seq<Fetch>, out: Block)
    | Done(offset: u64, len: nat, data: seq<byte>)
    | Failed
  {
    /** Inside the critical section. */
    predicate Holding() { Looping? || Fetching? || Sought? }

    /** In the middle of a call. */
    predicate Busy() { Waiting? || Holding() }
  }

  /** The one reader, with its cursor and the log of what was done to it, its lock, and the threads. */
  datatype System = System(cursor: nat, log: seq<Access>, owner: Option<nat>, threads: map<nat, Thread>)

  function With(s: System, id: nat, t: Thread): System {
    s.(threads := s.threads[id := t])
  }

  /** The reply to a new call: nothing to serve returns at once, without the lock. */
  function Begin(img: Image, offset: u64, len: nat): Thread {
    if Served(|img|, offset, len) == 0 then Done(offset, len, []) else Waiting(offset, len)
  }

  /** The slice of the assembled block one turn of the loop copies out. */
  function Slice(img: Image, offset: u64, len: nat, data: seq<byte>, out: Block): seq<byte>
    requires |data| < Served(|img|, offset, len)
  {
    var cursor: u64 := offset + |data|;
    var within := cursor - BaseOf(cursor);
    out[within..within + Min(BLOCK_SIZE - within, Served(|img|, offset, len) - |data|)]
  }

  /** One step of thread `id`. Without `locked`, threads enter the critical section at will. */
  ghost predicate Act(img: Image, st: SnapshotState, locked: bool, id: nat, s: System, s': System) {
    id in s.threads &&
    match s.threads[id]
    case Idle => exists offset: u64, len: nat :: s' == With(s, id, Begin(img, offset, len))
    case Done(_, _, _) => exists offset: u64, len: nat :: s' == With(s, id, Begin(img, offset, len))
    case Waiting(offset, len) =>
      (locked ==> s.owner == None) && s' == With(s, id, Looping(offset, len, [])).(owner := Some(id))
    case Looping(offset, len, data) =>
      if |data| < Served(|img|, offset, len)
      then s' == With(s, id, Fetching(offset, len, data, Plan(st, BaseOf(offset + |data|)), Zeros(BLOCK_SIZE)))
      else s' == With(s, id, Done(offset, len, data)).(owner := None)
    case Fetching(offset, len, data, todo, out) =>
      if todo != []
      then s' == With(s, id, Sought(offset, len, data, todo, out))
                 .(cursor := todo[0].offset, log := s.log + [Seek(todo[0].offset)])
      else if |data| < Served(|img|, offset, len)
      then s' == With(s, id, Looping(offset, len, data + Slice(img, offset, len, data, out)))
      else false
    case Sought(offset, len, data, todo, out) =>
      if todo != [] && InVolume(|img|, s.cursor)
      then s' == With(s, id, Fetching(offset, len, data, todo[1..], Use(todo[0], BlockAt(img, s.cursor), out)))
                 .(cursor := s.cursor + BLOCK_SIZE, log := s.log + [Read(s.cursor, BLOCK_SIZE)])
      else s' == With(s, id, Failed)
    case Failed => false
  }

  ghost predicate Next(img: Image, st: SnapshotState, locked: bool, s: System, s': System) {
    exists id :: Act(img, st, locked, id, s, s')
  }

  /** Any number of threads, none in a call, from any cursor position. */
  predicate Init(s: System) {
    s.owner == None && forall id | id in s.threads :: s.threads[id] == Idle
  }

  ghost predicate IsRun(img: Image, st: SnapshotState, locked: bool, run: seq<System>) {
    && run != [] && Init(run[0])
    && forall i | 0 <= i < |run| - 1 :: Next(img, st, locked, run[i], run[i + 1])
  }

  // ---------- The invariant ----------

  predicate Prefix(img: Image, st: SnapshotState, offset: u64, len: nat, data: seq<byte>) {
    data <= ServedBytes(img, st, offset, len)
  }

  /** Finishing the planned reads gives the block the loop is at. */
  predicate Assembling(
    img: Image, st: SnapshotState, offset: u64, len: nat, data: seq<byte>, todo: seq<Fetch>, out: Block)
    requires st.volumeSize == |img|
  {
    && |data| < Served(|img|, offset, len) && Prefix(img, st, offset, len, data)
    && Fetchable(|img|, todo)
    && Render(img, todo, out) == Render(img, Plan(st, BaseOf(offset + |data|)), Zeros(BLOCK_SIZE))
  }

  predicate ThreadOk(img: Image, st: SnapshotState, cursor: nat, t: Thread)
    requires st.volumeSize == |img|
  {
    match t
    case Idle => true
    case Waiting(_, _) => true
    case Looping(offset, len, data) => Prefix(img, st, offset, len, data)
    case Fetching(offset, len, data, todo, out) => Assembling(img, st, offset, len, data, todo, out)
    case Sought(offset, len, data, todo, out) =>
      Assembling(img, st, offset, len, data, todo, out) && todo != [] && cursor == todo[0].offset
    case Done(offset, len, data) => data == ServedBytes(img, st, offset, len)
    case Failed => false
  }

  predicate Inv(img: Image, st: SnapshotState, s: System)
    requires st.volumeSize == |img|
  {
    && (forall id | id in s.threads :: s.threads[id].Holding() <==> s.owner == Some(id))
    && (s.owner.Some? ==> s.owner.value in s.threads)
    && (forall id | id in s.threads :: ThreadOk(img, st, s.cursor, s.threads[id]))
  }

  /** The block copied out at the end of a turn extends the served prefix. */
  lemma SliceExtendsPrefix(img: Image, st: SnapshotState, offset: u64, len: nat, data: seq<byte>, out: Block)
    requires st.volumeSize == |img| && Keyed(st)
    requires Assembling(img, st, offset, len, data, [], out)
    ensures Prefix(img, st, offset, len, data + Slice(img, offset, len, data, out))
  {
    var base := BaseOf(offset + |data|);
    var all := ServedBytes(img, st, offset, len);
    var slice := Slice(img, offset, len, data, out);
    RenderedBlockIsView(img, st, base, out);
    SliceIsServed(img, st, offset, len, data, out);
    ExtendPrefix(data, slice, all);
  }

  lemma SliceIsServed(img: Image, st: SnapshotState, offset: u64, len: nat, data: seq<byte>, out: Block)
    requires |data| < Served(|img|, offset, len) && Shows(img, st, BaseOf(offset + |data|), out)
    ensures var slice := Slice(img, offset, len, data, out); var all := ServedBytes(img, st, offset, len);
      |data| + |slice| <= |all| && all[|data|..|data| + |slice|] == slice
  {
    var slice, all := Slice(img, offset, len, data, out), ServedBytes(img, st, offset, len);
    var within := offset + |data| - BaseOf(offset + |data|);
    forall i | 0 <= i < |slice| ensures slice[i] == all[|data| + i] {
      assert slice[i] == out[within + i];
    }
  }

  lemma ExtendPrefix(data: seq<byte>, slice: seq<byte>, all: seq<byte>)
    requires data <= all && |data| + |slice| <= |all| && all[|data|..|data| + |slice|] == slice
    ensures data + slice <= all
  {
    assert all[..|data| + |slice|] == data + slice;
  }

  lemma OwnStepKeepsThread(img: Image, st: SnapshotState, id: nat, s: System, s': System)
    requires st.volumeSize == |img| && Keyed(st)
    requires Inv(img, st, s) && Act(img, st, true, id, s, s')
    ensures ThreadOk(img, st, s'.cursor, s'.threads[id])
  {
    match s.threads[id] {
      case Fetching(offset, len, data, todo, out) =>
        if todo == [] {
          SliceExtendsPrefix(img, st, offset, len, data, out);
        }
      case _ =>
    }
  }

  lemma ActKeepsInv(img: Image, st: SnapshotState, id: nat, s: System, s': System)
    requires st.volumeSize == |img| && Keyed(st)
    requires Inv(img, st, s) && Act(img, st, true, id, s, s')
    ensures Inv(img, st, s')
  {
    OwnStepKeepsThread(img, st, id, s, s');
    forall j | j in s'.threads && j != id
      ensures ThreadOk(img, st, s'.cursor, s'.threads[j])
    {
      assert s'.threads[j] == s.threads[j];
      assert s'.cursor == s.cursor || s.owner == Some(id);
    }
  }

  /** Any thread not in a call may begin any call; one that has nothing to serve is done at once. */
  lemma AnyCallCanBegin(img: Image, st: SnapshotState, s: System, id: nat, offset: u64, len: nat)
    requires id in s.threads && (s.threads[id].Idle? || s.threads[id].Done?)
    ensures Next(img, st, true, s, s.(threads := s.threads[id :=
      if offset >= |img| || len == 0 then Done(offset, len, []) else Waiting(offset, len)]))
  {
    var t := With(s, id, Begin(img, offset, len));
    assert Act(img, st, true, id, s, t);
  }

  /** A run may start with any threads at rest, wherever the cursor stands. */
  lemma AnyStartIsARun(img: Image, st: SnapshotState, s: System)
    requires s.owner == None && forall id | id in s.threads :: s.threads[id] == Idle
    ensures IsRun(img, st, true, [s])
  {
  }

  lemma NextKeepsInv(img: Image, st: SnapshotState, s: System, s': System)
    requires st.volumeSize == |img| && Keyed(st)
    requires Inv(img, st, s) && Next(img, st, true, s, s')
    ensures Inv(img, st, s')
  {
    var id :| Act(img, st, true, id, s, s');
    ActKeepsInv(img, st, id, s, s');
  }

  lemma {:induction false} RunKeepsInv(img: Image, st: SnapshotState, run: seq<System>)
    requires st.volumeSize == |img| && Keyed(st)
    requires IsRun(img, st, true, run)
    ensures Inv(img, st, run[|run| - 1])
    decreases |run|
  {
    var n := |run| - 1;
    if n > 0 {
      var init := run[..n];
      forall i | 0 <= i < n - 1 ensures Next(img, st, true, init[i], init[i + 1]) {
        assert Next(img, st, true, run[i], run[i + 1]);
      }
      RunKeepsInv(img, st, init);
      assert Next(img, st, true, run[n - 1], run[n - 1 + 1]);
      NextKeepsInv(img, st, run[n - 1], run[n]);
    }
  }

  /**
   In every interleaving of any number of threads, from any initial cursor, every completed read holds
   exactly the bytes the sequential source serves, and no read of the underlying volume fails.
   */
  lemma EveryInterleavingIsSequential(img: Image, st: SnapshotState, run: seq<System>, id: nat)
    requires st.volumeSize == |img| && Keyed(st)
    requires IsRun(img, st, true, run) && id in run[|run| - 1].threads
    ensures var t := run[|run| - 1].threads[id];
      t != Failed && (t.Done? ==> t.data == ServedBytes(img, st, t.offset, t.len))
    ensures var t := run[|run| - 1].threads[id];
      t.Done? ==>
        && |t.data| == (if t.offset >= |img| then 0 else if t.len <= |img| - t.offset then t.len else |img| - t.offset)
        && forall i | 0 <= i < |t.data| :: t.data[i] == ViewOf(img, st, t.offset + i)
  {
    RunKeepsInv(img, st, run);
  }

  /** Between a thread's seek and its read, no other thread moves the cursor. */
  lemma SeekStaysPut(img: Image, st: SnapshotState, id: nat, other: nat, s: System, s': System)
    requires st.volumeSize == |img| && Inv(img, st, s)
    requires id in s.threads && s.threads[id].Sought? && other != id
    requires Act(img, st, true, other, s, s')
    ensures s'.cursor == s.cursor && s'.threads[id] == s.threads[id]
  {
    assert s.owner == Some(id);
  }

  /** Some call in progress can always take a step, so the mutex never deadlocks the readers. */
  lemma NoDeadlock(img: Image, st: SnapshotState, s: System, id: nat) returns (runner: nat, s': System)
    requires st.volumeSize == |img| && Inv(img, st, s)
    requires id in s.threads && s.threads[id].Busy()
    ensures runner in s.threads && s.threads[runner].Busy() && Act(img, st, true, runner, s, s')
  {
    runner := if s.owner.Some? then s.owner.value else id;
    match s.threads[runner] {
      case Waiting(offset, len) =>
        s' := With(s, runner, Looping(offset, len, [])).(owner := Some(runner));
      case Looping(offset, len, data) =>
        if |data| < Served(|img|, offset, len) {
          s' := With(s, runner, Fetching(offset, len, data, Plan(st, BaseOf(offset + |data|)), Zeros(BLOCK_SIZE)));
        } else {
          s' := With(s, runner, Done(offset, len, data)).(owner := None);
        }
      case Fetching(offset, len, data, todo, out) =>
        if todo != [] {
          s' := With(s, runner, Sought(offset, len, data, todo, out))
                .(cursor := todo[0].offset, log := s.log + [Seek(todo[0].offset)]);
        } else {
          s' := With(s, runner, Looping(offset, len, data + Slice(img, offset, len, data, out)));
        }
      case Sought(offset, len, data, todo, out) =>
        s' := With(s, runner, Fetching(offset, len, data, todo[1..], Use(todo[0], BlockAt(img, s.cursor), out)))
              .(cursor := s.cursor + BLOCK_SIZE, log := s.log + [Read(s.cursor, BLOCK_SIZE)]);
    }
  }

  /** What the lock holder has left to do: bytes to serve, then steps to the end of the current turn. */
  function Remaining(img: Image, st: SnapshotState, t: Thread): (nat, nat)
    requires t.Holding() && |t.data| <= Served(|img|, t.offset, t.len)
  {
    var bytes := Served(|img|, t.offset, t.len) - |t.data|;
    match t
    case Looping(offset, _, data) => (bytes, if bytes == 0 then 0 else 2 * |Plan(st, BaseOf(offset + |data|))| + 2)
    case Fetching(_, _, _, todo, _) => (bytes, 2 * |todo| + 1)
    case Sought(_, _, _, todo, _) => (bytes, 2 * |todo|)
  }

  /** `t'` has less left to do than `t`. */
  predicate Nearer(img: Image, st: SnapshotState, t: Thread, t': Thread) {
    && t.Holding() && |t.data| <= Served(|img|, t.offset, t.len)
    && t'.Holding() && |t'.data| <= Served(|img|, t'.offset, t'.len)
    && var a, b := Remaining(img, st, t), Remaining(img, st, t');
       b.0 < a.0 || (b.0 == a.0 && b.1 < a.1)
  }

  /** Every step of the holder ends its call and frees the lock, or brings it nearer to that. */
  lemma HolderAdvances(img: Image, st: SnapshotState, id: nat, s: System, s': System)
    requires st.volumeSize == |img| && Keyed(st) && Inv(img, st, s)
    requires id in s.threads && s.threads[id].Holding() && Act(img, st, true, id, s, s')
    ensures (s'.threads[id].Done? && s'.owner == None) || Nearer(img, st, s.threads[id], s'.threads[id])
  {
    ActKeepsInv(img, st, id, s, s');
  }

  // ---------- The steps of a call are the accesses of `ReadAt` ----------

  /** The log a thread in the critical section leaves behind if it runs on from here alone. */
  function Finish(img: Image, st: SnapshotState, log: seq<Access>, t: Thread): seq<Access> {
    match t
    case Looping(offset, len, data) => PerformRead(log, st, offset, Served(|img|, offset, len), |data|)
    case Fetching(offset, len, data, todo, _) => AfterTurn(img, st, Perform(log, todo), offset, len, data)
    case Sought(offset, len, data, todo, _) =>
      if todo == [] then log
      else AfterTurn(img, st, Perform(log + [Read(todo[0].offset, BLOCK_SIZE)], todo[1..]), offset, len, data)
    case _ => log
  }

  /** The log of the turns after the current one. */
  function AfterTurn(
    img: Image, st: SnapshotState, log: seq<Access>, offset: u64, len: nat, data: seq<byte>): seq<Access>
  {
    var want := Served(|img|, offset, len);
    if |data| >= want then log
    else PerformRead(log, st, offset, want, |data| + TurnLength(offset + |data|, want - |data|))
  }

  // What each of the four kinds of step does to that log: nothing.

  lemma StartKeepsFinish(img: Image, st: SnapshotState, log: seq<Access>, offset: u64, len: nat, data: seq<byte>)
    requires |data| < Served(|img|, offset, len)
    ensures Finish(img, st, log, Looping(offset, len, data)) == Finish(img, st, log,
      Fetching(offset, len, data, Plan(st, BaseOf(offset + |data|)), Zeros(BLOCK_SIZE)))
  {
    assert Address(offset, |data|) == offset + |data|;
  }

  lemma CopyKeepsFinish(
    img: Image, st: SnapshotState, log: seq<Access>, offset: u64, len: nat, data: seq<byte>, out: Block)
    requires |data| < Served(|img|, offset, len)
    ensures Finish(img, st, log, Looping(offset, len, data + Slice(img, offset, len, data, out)))
         == Finish(img, st, log, Fetching(offset, len, data, [], out))
  {
    assert |Slice(img, offset, len, data, out)| == TurnLength(offset + |data|, Served(|img|, offset, len) - |data|);
  }

  lemma SeekKeepsFinish(
    img: Image, st: SnapshotState, log: seq<Access>, offset: u64, len: nat, data: seq<byte>, todo: seq<Fetch>,
    out: Block)
    requires todo != []
    ensures Finish(img, st, log + [Seek(todo[0].offset)], Sought(offset, len, data, todo, out))
         == Finish(img, st, log, Fetching(offset, len, data, todo, out))
  {
    var o := todo[0].offset;
    assert log + [Seek(o)] + [Read(o, BLOCK_SIZE)] == log + FetchAt(o);
  }

  lemma ReadKeepsFinish(
    img: Image, st: SnapshotState, log: seq<Access>, offset: u64, len: nat, data: seq<byte>, todo: seq<Fetch>,
    before: Block, after: Block)
    requires todo != []
    ensures Finish(img, st, log + [Read(todo[0].offset, BLOCK_SIZE)], Fetching(offset, len, data, todo[1..], after))
         == Finish(img, st, log, Sought(offset, len, data, todo, before))
  {
  }

  lemma OwnStepKeepsFinish(img: Image, st: SnapshotState, id: nat, s: System, s': System)
    requires st.volumeSize == |img| && Inv(img, st, s)
    requires id in s.threads && s.threads[id].Holding() && Act(img, st, true, id, s, s')
    ensures Finish(img, st, s'.log, s'.threads[id]) == Finish(img, st, s.log, s.threads[id])
  {
    match s.threads[id] {
      case Looping(offset, len, data) =>
        if |data| < Served(|img|, offset, len) {
          StartKeepsFinish(img, st, s.log, offset, len, data);
        }
      case Fetching(offset, len, data, todo, out) =>
        if todo == [] {
          CopyKeepsFinish(img, st, s.log, offset, len, data, out);
        } else {
          SeekKeepsFinish(img, st, s.log, offset, len, data, todo, out);
        }
      case Sought(offset, len, data, todo, out) =>
        ReadKeepsFinish(img, st, s.log, offset, len, data, todo, out, s'.threads[id].out);
    }
  }

  lemma StepKeepsFinish(img: Image, st: SnapshotState, id: nat, s: System, s': System)
    requires st.volumeSize == |img| && Inv(img, st, s)
    requires id in s.threads && s.threads[id].Holding() && Next(img, st, true, s, s')
    ensures id in s'.threads && Finish(img, st, s'.log, s'.threads[id]) == Finish(img, st, s.log, s.threads[id])
  {
    var actor :| Act(img, st, true, actor, s, s');
    if actor == id {
      OwnStepKeepsFinish(img, st, id, s, s');
    }
  }

  /** From step `enter` of the run until step `leave`, thread `id` stays in the critical section. */
  predicate HoldsLock(run: seq<System>, id: nat, enter: nat, leave: nat) {
    enter <= leave < |run| && forall k | enter <= k < leave :: id in run[k].threads && run[k].threads[id].Holding()
  }

  lemma InvAt(img: Image, st: SnapshotState, run: seq<System>, k: nat)
    requires st.volumeSize == |img| && Keyed(st) && IsRun(img, st, true, run) && k < |run|
    ensures Inv(img, st, run[k])
  {
    var past := run[..k + 1];
    forall i | 0 <= i < |past| - 1 ensures Next(img, st, true, past[i], past[i + 1]) {
      assert Next(img, st, true, run[i], run[i + 1]);
    }
    RunKeepsInv(img, st, past);
  }

  ghost predicate IsFinish(img: Image, st: SnapshotState, s: System, id: nat, end: seq<Access>) {
    id in s.threads && end == Finish(img, st, s.log, s.threads[id])
  }

  /** The call of thread `id` leaves no other log behind than `goal`. */
  ghost predicate Leads(img: Image, st: SnapshotState, s: System, id: nat, goal: seq<Access>) {
    id in s.threads && forall end | IsFinish(img, st, s, id, end) :: end == goal
  }

  lemma StepKeepsGoal(img: Image, st: SnapshotState, id: nat, s: System, s': System, goal: seq<Access>)
    requires st.volumeSize == |img| && Inv(img, st, s)
    requires id in s.threads && s.threads[id].Holding() && Next(img, st, true, s, s')
    requires Leads(img, st, s, id, goal)
    ensures Leads(img, st, s', id, goal)
  {
    StepKeepsFinish(img, st, id, s, s');
    assert IsFinish(img, st, s, id, Finish(img, st, s.log, s.threads[id]));
  }

  lemma {:induction false} HolderKeepsGoal(
    img: Image, st: SnapshotState, run: seq<System>, id: nat, enter: nat, leave: nat, goal: seq<Access>)
    requires st.volumeSize == |img| && Keyed(st) && IsRun(img, st, true, run)
    requires HoldsLock(run, id, enter, leave) && Leads(img, st, run[enter], id, goal)
    ensures Leads(img, st, run[leave], id, goal)
    decreases leave
  {
    if enter < leave {
      var k := leave - 1;
      HolderKeepsGoal(img, st, run, id, enter, k, goal);
      InvAt(img, st, run, k);
      assert Next(img, st, true, run[k], run[k + 1]);
      StepKeepsGoal(img, st, id, run[k], run[k + 1], goal);
    }
  }

  /**
   In every interleaving, what happens at the cursor from the moment a call enters the critical
   section until it is done is exactly what the method `ReadAt` logs for it: no access of another
   thread falls in between, and none is missing.
   */
  lemma CallPerformsReadAt(
    img: Image, st: SnapshotState, run: seq<System>, id: nat, enter: nat, leave: nat, offset: u64, len: nat)
    requires st.volumeSize == |img| && Keyed(st) && IsRun(img, st, true, run)
    requires HoldsLock(run, id, enter, leave) && id in run[enter].threads && id in run[leave].threads
    requires run[enter].threads[id] == Looping(offset, len, []) && run[leave].threads[id].Done?
    ensures run[leave].log == PerformRead(run[enter].log, st, offset, Served(|img|, offset, len), 0)
  {
    HolderKeepsGoal(img, st, run, id, enter, leave, Finish(img, st, run[enter].log, run[enter].threads[id]));
    assert IsFinish(img, st, run[leave], id, run[leave].log);
  }

  // ---------- The lock is what makes it so ----------

  /** A volume of two blocks, all ones and all twos, with no descriptor and no bitmap. */
  function TwoBlocks(): Image {
    seq<byte>(2 * BLOCK_SIZE, i => if i < BLOCK_SIZE then 1 else 2)
  }

  const PLAIN_STATE := SnapshotState(2 * BLOCK_SIZE, map[], [])

  lemma PlansOfPlainState()
    ensures Plan(PLAIN_STATE, 0) == [Whole(0)] && Plan(PLAIN_STATE, BLOCK_SIZE) == [Whole(BLOCK_SIZE)]
  {
  }

  lemma SliceOfTwos()
    ensures Slice(TwoBlocks(), 0, 1, [], BlockAt(TwoBlocks(), BLOCK_SIZE)) == [2]
  {
    var twos := BlockAt(TwoBlocks(), BLOCK_SIZE);
    assert twos[0] == TwoBlocks()[BLOCK_SIZE] == 2;
    assert BaseOf(0) == 0;
    assert Slice(TwoBlocks(), 0, 1, [], twos) == twos[0..1];
  }

  lemma RunExtends(img: Image, st: SnapshotState, locked: bool, run: seq<System>, id: nat, s': System)
    requires IsRun(img, st, locked, run) && Act(img, st, locked, id, run[|run| - 1], s')
    ensures IsRun(img, st, locked, run + [s'])
  {
    var longer := run + [s'];
    forall i | 0 <= i < |longer| - 1 ensures Next(img, st, locked, longer[i], longer[i + 1]) {
      if i < |run| - 1 {
        assert Next(img, st, locked, run[i], run[i + 1]);
      }
    }
  }

  lemma BothWait() returns (run: seq<System>)
    ensures IsRun(TwoBlocks(), PLAIN_STATE, false, run)
    ensures run[|run| - 1] == System(0, [], None, map[0 := Waiting(0, 1), 1 := Waiting(BLOCK_SIZE, 1)])
  {
    var img, st := TwoBlocks(), PLAIN_STATE;
    var s0 := System(0, [], None, map[0 := Idle, 1 := Idle]);
    var s1 := With(s0, 0, Begin(img, 0, 1));
    run := [s0];
    RunExtends(img, st, false, run, 0, s1);
    run := run + [s1];
    var s2 := With(s1, 1, Begin(img, BLOCK_SIZE, 1));
    RunExtends(img, st, false, run, 1, s2);
    run := run + [s2];
  }

  lemma BothCall() returns (run: seq<System>)
    ensures IsRun(TwoBlocks(), PLAIN_STATE, false, run)
    ensures run[|run| - 1] == System(0, [], Some(1), map[0 := Looping(0, 1, []), 1 := Looping(BLOCK_SIZE, 1, [])])
  {
    var img, st := TwoBlocks(), PLAIN_STATE;
    run := BothWait();
    var s3 := With(run[|run| - 1], 0, Looping(0, 1, [])).(owner := Some(0));
    RunExtends(img, st, false, run, 0, s3);
    run := run + [s3];
    var s4 := With(s3, 1, Looping(BLOCK_SIZE, 1, [])).(owner := Some(1));
    RunExtends(img, st, false, run, 1, s4);
    run := run + [s4];
  }

  /** Both threads have entered and planned their read of one byte, one in each block. */
  lemma BothPlan() returns (run: seq<System>)
    ensures IsRun(TwoBlocks(), PLAIN_STATE, false, run)
    ensures run[|run| - 1] == System(0, [], Some(1), map[
      0 := Fetching(0, 1, [], [Whole(0)], Zeros(BLOCK_SIZE)),
      1 := Fetching(BLOCK_SIZE, 1, [], [Whole(BLOCK_SIZE)], Zeros(BLOCK_SIZE))])
  {
    var img, st, zeros := TwoBlocks(), PLAIN_STATE, Zeros(BLOCK_SIZE);
    PlansOfPlainState();
    run := BothCall();
    var s5 := With(run[|run| - 1], 0, Fetching(0, 1, [], [Whole(0)], zeros));
    RunExtends(img, st, false, run, 0, s5);
    run := run + [s5];
    var s6 := With(s5, 1, Fetching(BLOCK_SIZE, 1, [], [Whole(BLOCK_SIZE)], zeros));
    RunExtends(img, st, false, run, 1, s6);
    run := run + [s6];
  }

  /** Without it, one thread's seek can fall between another's seek and read, which then serves the wrong block. */
  lemma UnlockedReadServesWrongBytes() returns (run: seq<System>)
    ensures Keyed(PLAIN_STATE) && IsRun(TwoBlocks(), PLAIN_STATE, false, run)
    ensures var s := run[|run| - 1];
      0 in s.threads && s.threads[0] == Done(0, 1, [2]) && ServedBytes(TwoBlocks(), PLAIN_STATE, 0, 1) == [1]
  {
    var img, st, zeros := TwoBlocks(), PLAIN_STATE, Zeros(BLOCK_SIZE);
    var twos := BlockAt(img, BLOCK_SIZE);
    run := BothPlan();
    var s7 := With(run[|run| - 1], 0, Sought(0, 1, [], [Whole(0)], zeros)).(cursor := 0, log := [Seek(0)]);
    RunExtends(img, st, false, run, 0, s7);
    run := run + [s7];
    var s8 := With(s7, 1, Sought(BLOCK_SIZE, 1, [], [Whole(BLOCK_SIZE)], zeros))
          .(cursor := BLOCK_SIZE, log := s7.log + [Seek(BLOCK_SIZE)]);
    RunExtends(img, st, false, run, 1, s8);
    run := run + [s8];
    var s9 := With(s8, 0, Fetching(0, 1, [], [], twos))
          .(cursor := 2 * BLOCK_SIZE, log := s8.log + [Read(BLOCK_SIZE, BLOCK_SIZE)]);
    assert [Whole(0)][1..] == [];
    RunExtends(img, st, false, run, 0, s9);
    run := run + [s9];
    var s10 := With(s9, 0, Looping(0, 1, [2]));
    SliceOfTwos();
    assert [] + Slice(img, 0, 1, [], twos) == [2];
    RunExtends(img, st, false, run, 0, s10);
    run := run + [s10];
    var s11 := With(s10, 0, Done(0, 1, [2])).(owner := None);
    RunExtends(img, st, false, run, 0, s11);
    run := run + [s11];
  }
}
