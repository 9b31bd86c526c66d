/** The threaded warp (gdalwarpoperation.cpp): the main thread launches one thread per chunk in one of
    two slots; an I/O mutex, a warp mutex and one mutex per slot order the threads. A state machine
    over the threads' steps; reading and writing a chunk go row by row. */
module WarpThreads {
  import opened Basics
  import opened WarpChunks

  datatype Config = Config(options: WarpOptions, kernel: Kernel, chunks: seq<Chunk>, original: Image)

  /** Where a chunk's thread is. */
  datatype WorkerPc =
    | Idle
    | Starting
    | AcquireThread
    | AcquireIO
    | Reading(row: nat)
    | ReleaseIO
    | AcquireWarp
    | Warping
    | ReleaseWarp
    | AcquireIOAgain
    | Writing(row: nat)
    | ReleaseIOAgain
    | Returning
    | Marking
    | ReleaseThread
    | Finished
  {
    predicate InIO() {
      Reading? || ReleaseIO? || Writing? || ReleaseIOAgain?
    }

    predicate InWarp() {
      Warping? || ReleaseWarp?
    }

    /** Holding the mutex of its slot. */
    predicate InSlot() {
      !Idle? && !Starting? && !AcquireThread? && !Finished?
    }

    /** Past the point where the slot is marked as done. */
    predicate Marked() {
      ReleaseThread? || Finished?
    }

    predicate Running() {
      !Idle? && !Marked()
    }

    predicate KnowsChunk() {
      !Idle? && !Starting?
    }
  }

  datatype Worker = Worker(pc: WorkerPc, chunk: nat, buf: Image)

  /** What the third word of a slot holds: the chunk to do, then the thread's result. */
  datatype Info = Nothing | ChunkInfo(k: nat) | Success

  datatype Holder = Nobody | MainThread | Thread(k: nat)

  datatype Slot = Slot(holder: Holder, busy: bool, info: Info)

  datatype Wait = ForChunk(k: nat) | ForSlot(slot: nat) {
    function Index(): nat {
      match this case ForChunk(k) => k % 2 case ForSlot(slot) => slot
    }
  }

  /** Where the main thread is. */
  datatype MainPc =
    | Fill(i: nat)
    | Spawn(i: nat)
    | Check(wait: Wait)
    | Try(wait: Wait)
    | Hold(wait: Wait)
    | Outcome(k: nat)
    | Over
  {
    predicate Waiting() { Check? || Try? || Hold? }
  }

  datatype State = State(main: MainPc, slots: seq<Slot>, workers: seq<Worker>, io: Option<nat>, warp: Option<nat>, dataset: Image)

  /** Timeout is the main thread's attempt to get a mutex running out of time. */
  datatype Action = Main | Timeout | Work(k: nat)

  function Initial(c: Config): State {
    State(Fill(0), [Slot(Nobody, false, Nothing), Slot(Nobody, false, Nothing)],
          seq(|c.chunks|, _ => Worker(Idle, 0, map[])), None, None, c.original)
  }

  predicate Formed(c: Config, s: State) {
    |s.slots| == 2 && |s.workers| == |c.chunks|
    && match s.main
       case Fill(i) => i <= |c.chunks| + 1
       case Spawn(i) => i < |c.chunks|
       case Check(w) => WaitFormed(c, w)
       case Try(w) => WaitFormed(c, w)
       case Hold(w) => WaitFormed(c, w)
       case Outcome(k) => k < |c.chunks|
       case Over => true
  }

  predicate WaitFormed(c: Config, w: Wait) {
    match w case ForChunk(k) => k < |c.chunks| case ForSlot(slot) => slot < 2
  }

  // ---------------------------------------------------------------------
  //  Steps
  // ---------------------------------------------------------------------

  predicate Enabled(c: Config, s: State, a: Action)
    requires Formed(c, s)
  {
    match a
    case Main =>
      !s.main.Over? && (s.main.Try? ==> s.slots[s.main.wait.Index()].holder == Nobody)
    case Timeout => s.main.Try?
    case Work(k) =>
      k < |c.chunks| &&
      match s.workers[k].pc
      case Idle => false
      case AcquireThread => s.slots[k % 2].holder == Nobody
      case AcquireIO => s.io == None
      case AcquireWarp => s.warp == None
      case AcquireIOAgain => s.io == None
      case Finished => false
      case _ => true
  }

  function Do(c: Config, s: State, a: Action): State
    requires Formed(c, s) && Enabled(c, s, a)
  {
    match a
    case Main => MainStep(c, s)
    case Timeout => s.(main := Check(s.main.wait))
    case Work(k) => WorkerStep(c, s, k)
  }

  /** After launching chunk i, or after the last one, the main thread waits for the chunk before. */
  function AfterLaunch(i: nat): MainPc {
    if i > 0 then Check(ForChunk(i - 1)) else Fill(1)
  }

  /** Where the main thread goes. */
  function NextMain(c: Config, s: State): MainPc
    requires Formed(c, s)
  {
    match s.main
    case Fill(i) => if i < |c.chunks| then Spawn(i) else if i == |c.chunks| then AfterLaunch(i) else Check(ForSlot(0))
    case Spawn(i) => AfterLaunch(i)
    case Check(w) => if s.slots[w.Index()].busy then Try(w) else AfterWait(w)
    case Try(w) => Hold(w)
    case Hold(w) => Check(w)
    case Outcome(k) => if s.slots[k % 2].info == Success then Fill(k + 2) else Check(ForSlot(0))
    case Over => Over
  }

  function AfterWait(w: Wait): MainPc {
    match w
    case ForChunk(k) => Outcome(k)
    case ForSlot(i) => if i == 0 then Check(ForSlot(1)) else Over
  }

  /** What the main thread does to the slots. */
  function NextSlots(c: Config, s: State): seq<Slot>
    requires Formed(c, s)
  {
    match s.main
    case Fill(i) => if i < |c.chunks| then s.slots[i % 2 := s.slots[i % 2].(busy := true, info := ChunkInfo(i))] else s.slots
    case Try(w) => s.slots[w.Index() := s.slots[w.Index()].(holder := MainThread)]
    case Hold(w) => s.slots[w.Index() := s.slots[w.Index()].(holder := Nobody)]
    case _ => s.slots
  }

  function MainStep(c: Config, s: State): State
    requires Formed(c, s)
  {
    s.(main := NextMain(c, s), slots := NextSlots(c, s),
       workers := if s.main.Spawn? then s.workers[s.main.i := s.workers[s.main.i].(pc := Starting)] else s.workers)
  }

  function Row(w: Window, row: nat): Window {
    Window(w.xOff, w.yOff + row, w.xSize, 1)
  }

  function Part(buf: Image, w: Window): Image {
    map p | p in buf && w.Contains(p) :: buf[p]
  }

  /** Where a thread with a chunk of so many rows goes. */
  function NextPc(pc: WorkerPc, rows: int): WorkerPc {
    match pc
    case Idle => Idle
    case Starting => AcquireThread
    case AcquireThread => AcquireIO
    case AcquireIO => Reading(0)
    case Reading(row) => if row < rows then Reading(row + 1) else ReleaseIO
    case ReleaseIO => AcquireWarp
    case AcquireWarp => Warping
    case Warping => ReleaseWarp
    case ReleaseWarp => AcquireIOAgain
    case AcquireIOAgain => Writing(0)
    case Writing(row) => if row < rows then Writing(row + 1) else ReleaseIOAgain
    case ReleaseIOAgain => Returning
    case Returning => Marking
    case Marking => ReleaseThread
    case ReleaseThread => Finished
    case Finished => Finished
  }

  /** What a step of thread k does to its slot. */
  function NextSlot(pc: WorkerPc, k: nat, slot: Slot): Slot {
    match pc
    case AcquireThread => slot.(holder := Thread(k))
    case Returning => slot.(info := Success)
    case Marking => slot.(busy := false)
    case ReleaseThread => slot.(holder := Nobody)
    case _ => slot
  }

  function NextIO(pc: WorkerPc, k: nat, io: Option<nat>): Option<nat> {
    match pc
    case AcquireIO => Some(k)
    case ReleaseIO => None
    case AcquireIOAgain => Some(k)
    case ReleaseIOAgain => None
    case _ => io
  }

  function NextWarp(pc: WorkerPc, k: nat, warp: Option<nat>): Option<nat> {
    match pc
    case AcquireWarp => Some(k)
    case ReleaseWarp => None
    case _ => warp
  }

  function NextBuffer(c: Config, w: Worker, chunk: Chunk, img: Image): Image {
    match w.pc
    case AcquireIO => map[]
    case Reading(row) => if row < chunk.dst.ySize then w.buf + Buffered(c.options, img, Row(chunk.dst, row)) else w.buf
    case Warping => Performed(c.kernel, chunk, w.buf)
    case _ => w.buf
  }

  function NextDataset(w: Worker, chunk: Chunk, img: Image): Image {
    match w.pc
    case Writing(row) => if row < chunk.dst.ySize then img + Part(w.buf, Row(chunk.dst, row)) else img
    case _ => img
  }

  /** A thread's chunk; before it has read its slot it has none. */
  function ChunkOf(c: Config, w: Worker): Chunk {
    if w.chunk < |c.chunks| then c.chunks[w.chunk] else Chunk(Window(0, 0, 0, 0), Window(0, 0, 0, 0))
  }

  function NextWorker(c: Config, w: Worker, slot: Slot, img: Image): Worker {
    Worker(NextPc(w.pc, ChunkOf(c, w).dst.ySize),
           if w.pc.Starting? && slot.info.ChunkInfo? then slot.info.k else w.chunk,
           NextBuffer(c, w, ChunkOf(c, w), img))
  }

  function WorkerStep(c: Config, s: State, k: nat): State
    requires Formed(c, s) && k < |c.chunks|
  {
    var w, slot := s.workers[k], s.slots[k % 2];
    s.(workers := s.workers[k := NextWorker(c, w, slot, s.dataset)],
       slots := s.slots[k % 2 := NextSlot(w.pc, k, slot)],
       io := NextIO(w.pc, k, s.io), warp := NextWarp(w.pc, k, s.warp),
       dataset := NextDataset(w, ChunkOf(c, w), s.dataset))
  }

  // ---------------------------------------------------------------------
  //  The control invariant
  // ---------------------------------------------------------------------

  /** How many threads the main thread has launched. */
  function Launched(c: Config, main: MainPc): int {
    match main
    case Fill(i) => Lesser(i, |c.chunks|)
    case Spawn(i) => i
    case Check(ForChunk(k)) => Lesser(k + 2, |c.chunks|)
    case Try(ForChunk(k)) => Lesser(k + 2, |c.chunks|)
    case Hold(ForChunk(k)) => Lesser(k + 2, |c.chunks|)
    case Outcome(k) => Lesser(k + 2, |c.chunks|)
    case _ => |c.chunks|
  }

  /** How many chunks have been put in a slot. */
  function Filled(c: Config, main: MainPc): int {
    match main
    case Spawn(i) => i + 1
    case _ => Launched(c, main)
  }

  /** How many chunks the main thread knows to be done. */
  function Joined(c: Config, main: MainPc): int {
    match main
    case Fill(i) => if i == 0 then 0 else i - 1
    case Spawn(i) => if i == 0 then 0 else i - 1
    case Check(ForChunk(k)) => k
    case Try(ForChunk(k)) => k
    case Hold(ForChunk(k)) => k
    case Outcome(k) => k + 1
    case _ => |c.chunks|
  }

  /** How far a thread has got. */
  predicate Placed(c: Config, s: State, k: nat)
    requires Formed(c, s) && k < |c.chunks|
  {
    var w := s.workers[k];
    && (w.pc.Idle? <==> k >= Launched(c, s.main))
    && (k < Joined(c, s.main) ==> w.pc.Marked())
    && (w.pc.KnowsChunk() ==> w.chunk == k)
  }

  /** Which mutexes a thread holds. */
  predicate Holds(c: Config, s: State, k: nat)
    requires Formed(c, s) && k < |c.chunks|
  {
    var w := s.workers[k];
    && (w.pc.InSlot() <==> s.slots[k % 2].holder == Thread(k))
    && (w.pc.InIO() <==> s.io == Some(k))
    && (w.pc.InWarp() <==> s.warp == Some(k))
  }

  /** What the slot says about the last chunk that was put in it. */
  predicate Filed(c: Config, s: State, k: nat)
    requires Formed(c, s) && k < |c.chunks|
  {
    var w, slot := s.workers[k], s.slots[k % 2];
    Filled(c, s.main) - 2 <= k < Filled(c, s.main) ==>
      && slot.busy == !w.pc.Marked()
      && slot.info == if w.pc.Marked() || w.pc.Marking? then Success else ChunkInfo(k)
  }

  predicate SlotOk(c: Config, s: State, i: nat)
    requires Formed(c, s) && i < 2
  {
    && (i >= Filled(c, s.main) ==> !s.slots[i].busy)
    && (s.slots[i].holder == MainThread <==> s.main.Hold? && s.main.wait.Index() == i)
    && (s.slots[i].holder.Thread? ==> s.slots[i].holder.k < |c.chunks| && s.slots[i].holder.k % 2 == i)
  }

  predicate ThreadOk(c: Config, s: State, k: nat)
    requires Formed(c, s) && k < |c.chunks|
  {
    Placed(c, s, k) && Holds(c, s, k) && Filed(c, s, k)
  }

  ghost predicate Control(c: Config, s: State) {
    && Formed(c, s)
    && SlotOk(c, s, 0) && SlotOk(c, s, 1)
    && (s.io.Some? ==> s.io.value < |c.chunks|) && (s.warp.Some? ==> s.warp.value < |c.chunks|)
    && forall k :: 0 <= k < |c.chunks| ==> ThreadOk(c, s, k)
  }

  lemma InitialControl(c: Config)
    ensures Control(c, Initial(c))
  {
  }

  // The main thread's steps

  lemma MainKeepsFormed(c: Config, s: State)
    requires Control(c, s) && Enabled(c, s, Main)
    ensures Formed(c, MainStep(c, s))
  {
  }

  /** Wait for the thread of a chunk: it is done once its slot is no longer busy, and its result is in the slot. */
  lemma WaitEnds(c: Config, s: State, k: nat)
    requires Control(c, s) && k < |c.chunks| && Filled(c, s.main) - 2 <= k < Filled(c, s.main)
    requires !s.slots[k % 2].busy || k < Joined(c, s.main)
    ensures s.workers[k].pc.Marked() && s.slots[k % 2].info == Success
  {
    assert ThreadOk(c, s, k);
  }

  lemma MainKeepsPlaced(c: Config, s: State, k: nat)
    requires Control(c, s) && Enabled(c, s, Main) && Formed(c, MainStep(c, s)) && k < |c.chunks|
    ensures Placed(c, MainStep(c, s), k)
  {
    hide Holds, Filed;
    assert ThreadOk(c, s, k);
    match s.main
    case Outcome(j) => WaitEnds(c, s, j);
    case Check(ForChunk(j)) => if !s.slots[j % 2].busy { WaitEnds(c, s, j); }
    case _ =>
  }

  lemma MainKeepsHolds(c: Config, s: State, k: nat)
    requires Control(c, s) && Enabled(c, s, Main) && Formed(c, MainStep(c, s)) && k < |c.chunks|
    ensures Holds(c, MainStep(c, s), k)
  {
    assert ThreadOk(c, s, k);
  }

  lemma MainKeepsFiled(c: Config, s: State, k: nat)
    requires Control(c, s) && Enabled(c, s, Main) && Formed(c, MainStep(c, s)) && k < |c.chunks|
    ensures Filed(c, MainStep(c, s), k)
  {
    hide Holds, SlotOk;
    assert ThreadOk(c, s, k);
    if s.main.Outcome? { WaitEnds(c, s, s.main.k); }
  }

  lemma MainKeepsControl(c: Config, s: State)
    requires Control(c, s) && Enabled(c, s, Main)
    ensures Control(c, MainStep(c, s))
  {
    var s' := MainStep(c, s);
    MainKeepsFormed(c, s);
    forall k | 0 <= k < |c.chunks| ensures ThreadOk(c, s', k) {
      MainKeepsPlaced(c, s, k);
      MainKeepsHolds(c, s, k);
      MainKeepsFiled(c, s, k);
    }
    MainKeepsSlots(c, s, 0);
    MainKeepsSlots(c, s, 1);
  }

  lemma MainKeepsSlots(c: Config, s: State, i: nat)
    requires Control(c, s) && Enabled(c, s, Main) && Formed(c, MainStep(c, s)) && i < 2
    ensures SlotOk(c, MainStep(c, s), i)
  {
    if s.main.Outcome? { WaitEnds(c, s, s.main.k); }
  }

  // The threads' steps

  lemma WorkKeepsThread(c: Config, s: State, k: nat, j: nat)
    requires Control(c, s) && Enabled(c, s, Work(k)) && j < |c.chunks|
    ensures Placed(c, WorkerStep(c, s, k), j) && Holds(c, WorkerStep(c, s, k), j) && Filed(c, WorkerStep(c, s, k), j)
  {
    assert ThreadOk(c, s, k) && ThreadOk(c, s, j);
    if j == k {
      WorkKeepsPlaced(c, s, k);
      WorkKeepsHolds(c, s, k);
      WorkKeepsFiled(c, s, k);
    } else {
      OtherKeepsHolds(c, s, k, j);
      OtherKeepsFiled(c, s, k, j);
    }
  }

  lemma WorkKeepsPlaced(c: Config, s: State, k: nat)
    requires Control(c, s) && Enabled(c, s, Work(k))
    ensures Placed(c, WorkerStep(c, s, k), k)
  {
    assert ThreadOk(c, s, k);
  }

  lemma WorkKeepsHolds(c: Config, s: State, k: nat)
    requires Control(c, s) && Enabled(c, s, Work(k))
    ensures Holds(c, WorkerStep(c, s, k), k)
  {
    assert ThreadOk(c, s, k);
  }

  lemma WorkKeepsFiled(c: Config, s: State, k: nat)
    requires Control(c, s) && Enabled(c, s, Work(k))
    ensures Filed(c, WorkerStep(c, s, k), k)
  {
    assert ThreadOk(c, s, k);
  }

  lemma OtherKeepsHolds(c: Config, s: State, k: nat, j: nat)
    requires Control(c, s) && Enabled(c, s, Work(k)) && j < |c.chunks| && j != k
    ensures Holds(c, WorkerStep(c, s, k), j)
  {
    hide Placed, Filed;
    assert ThreadOk(c, s, k) && ThreadOk(c, s, j);
  }

  /** A thread that is not done is the last one put in its slot. */
  lemma OtherKeepsFiled(c: Config, s: State, k: nat, j: nat)
    requires Control(c, s) && Enabled(c, s, Work(k)) && j < |c.chunks| && j != k
    ensures Filed(c, WorkerStep(c, s, k), j)
  {
    assert ThreadOk(c, s, k) && ThreadOk(c, s, j);
  }

  lemma WorkKeepsSlots(c: Config, s: State, k: nat, i: nat)
    requires Control(c, s) && Enabled(c, s, Work(k)) && i < 2
    ensures SlotOk(c, WorkerStep(c, s, k), i)
  {
    assert ThreadOk(c, s, k);
  }

  lemma WorkKeepsControl(c: Config, s: State, k: nat)
    requires Control(c, s) && Enabled(c, s, Work(k))
    ensures Control(c, WorkerStep(c, s, k))
  {
    forall j | 0 <= j < |c.chunks| ensures ThreadOk(c, WorkerStep(c, s, k), j) {
      WorkKeepsThread(c, s, k, j);
    }
    WorkKeepsSlots(c, s, k, 0);
    WorkKeepsSlots(c, s, k, 1);
  }

  lemma TimeoutKeepsControl(c: Config, s: State)
    requires Control(c, s) && s.main.Try?
    ensures Control(c, s.(main := Check(s.main.wait)))
  {
    var s' := s.(main := Check(s.main.wait));
    forall k | 0 <= k < |c.chunks| ensures ThreadOk(c, s', k) {
      assert ThreadOk(c, s, k);
    }
  }

  lemma StepKeepsControl(c: Config, s: State, a: Action)
    requires Control(c, s) && Enabled(c, s, a)
    ensures Control(c, Do(c, s, a))
  {
    match a
    case Main => MainKeepsControl(c, s);
    case Timeout => TimeoutKeepsControl(c, s);
    case Work(k) => WorkKeepsControl(c, s, k);
  }

  // ---------------------------------------------------------------------
  //  What is in the buffers and in the dataset
  // ---------------------------------------------------------------------

  /** The rows of its chunk that a thread has written. */
  function WrittenRows(pc: WorkerPc, rows: int): int {
    match pc
    case Writing(row) => row
    case ReleaseIOAgain => rows
    case Returning => rows
    case Marking => rows
    case ReleaseThread => rows
    case Finished => rows
    case _ => 0
  }

  function Written(c: Config, s: State, k: nat): Window
    requires Formed(c, s) && k < |c.chunks|
  {
    TopRows(c.chunks[k].dst, WrittenRows(s.workers[k].pc, c.chunks[k].dst.ySize))
  }

  predicate RowInRange(row: nat, rows: int) {
    row == 0 || row <= rows
  }

  /** A thread's buffer never holds what another thread wrote. */
  ghost predicate BufferRight(c: Config, w: Worker, k: nat)
    requires k < |c.chunks|
  {
    var chunk := c.chunks[k];
    match w.pc
    case Reading(row) => RowInRange(row, chunk.dst.ySize) && w.buf == Buffered(c.options, c.original, TopRows(chunk.dst, row))
    case ReleaseIO => w.buf == Buffered(c.options, c.original, chunk.dst)
    case AcquireWarp => w.buf == Buffered(c.options, c.original, chunk.dst)
    case Warping => w.buf == Buffered(c.options, c.original, chunk.dst)
    case ReleaseWarp => w.buf == WarpedBuffer(c.options, c.kernel, chunk, c.original)
    case AcquireIOAgain => w.buf == WarpedBuffer(c.options, c.kernel, chunk, c.original)
    case Writing(row) => RowInRange(row, chunk.dst.ySize) && w.buf == WarpedBuffer(c.options, c.kernel, chunk, c.original)
    case _ => true
  }

  ghost predicate BufferOk(c: Config, s: State, k: nat)
    requires Formed(c, s) && k < |c.chunks|
  {
    BufferRight(c, s.workers[k], k)
  }

  /** A point that has been written holds the right value; one that has not is as it was. */
  ghost predicate PointOk(c: Config, s: State, p: Pixel)
    requires Formed(c, s) && p in c.original && p in s.dataset
  {
    && (forall k :: 0 <= k < |c.chunks| && Written(c, s, k).Contains(p) && c.chunks[k].dst.Contains(p)
          ==> s.dataset[p] == WarpedBuffer(c.options, c.kernel, c.chunks[k], c.original)[p])
    && ((forall k :: 0 <= k < |c.chunks| ==> !Written(c, s, k).Contains(p)) ==> s.dataset[p] == c.original[p])
  }

  ghost predicate Data(c: Config, s: State)
    requires Formed(c, s)
  {
    && s.dataset.Keys == c.original.Keys
    && (forall k :: 0 <= k < |c.chunks| ==> BufferOk(c, s, k))
    && (forall p :: p in c.original ==> PointOk(c, s, p))
  }

  lemma InitialData(c: Config)
    ensures Data(c, Initial(c))
  {
  }

  lemma MainKeepsData(c: Config, s: State)
    requires Control(c, s) && Enabled(c, s, Main) && Formed(c, MainStep(c, s)) && Data(c, s)
    ensures Data(c, MainStep(c, s))
  {
    var s' := MainStep(c, s);
    if s.main.Spawn? { assert ThreadOk(c, s, s.main.i); }
    forall k | 0 <= k < |c.chunks| ensures BufferOk(c, s', k) && Written(c, s', k) == Written(c, s, k) {
      assert BufferOk(c, s, k);
    }
    forall p | p in c.original ensures PointOk(c, s', p) {
      assert PointOk(c, s, p);
    }
  }

  lemma TimeoutKeepsData(c: Config, s: State)
    requires Control(c, s) && s.main.Try? && Data(c, s)
    ensures Formed(c, s.(main := Check(s.main.wait))) && Data(c, s.(main := Check(s.main.wait)))
  {
    var s' := s.(main := Check(s.main.wait));
    forall k | 0 <= k < |c.chunks| ensures BufferOk(c, s', k) && Written(c, s', k) == Written(c, s, k) {
      assert BufferOk(c, s, k);
    }
    forall p | p in c.original ensures PointOk(c, s', p) {
      assert PointOk(c, s, p);
    }
  }

  /** A point of a chunk is as it was until the chunk's own thread writes it. */
  lemma UntouchedPoint(c: Config, s: State, k: nat, p: Pixel)
    requires Disjoint(c.chunks) && Formed(c, s) && Data(c, s) && k < |c.chunks| && p in c.original
    requires c.chunks[k].dst.Contains(p) && !Written(c, s, k).Contains(p)
    ensures s.dataset[p] == c.original[p]
  {
    assert PointOk(c, s, p);
    forall j | 0 <= j < |c.chunks| ensures !Written(c, s, j).Contains(p) {
      if j != k { NotByOthers(c, s, k, j, p); }
    }
  }

  lemma NotByOthers(c: Config, s: State, k: nat, j: nat, p: Pixel)
    requires Disjoint(c.chunks) && Formed(c, s) && k < |c.chunks| && j < |c.chunks| && j != k && BufferOk(c, s, j)
    requires c.chunks[k].dst.Contains(p)
    ensures !Written(c, s, j).Contains(p)
  {
  }

  lemma UntouchedRow(c: Config, s: State, k: nat, row: nat)
    requires Disjoint(c.chunks) && Formed(c, s) && Data(c, s) && k < |c.chunks| && s.workers[k].pc == Reading(row)
    requires row < c.chunks[k].dst.ySize
    ensures Buffered(c.options, s.dataset, Row(c.chunks[k].dst, row)) == Buffered(c.options, c.original, Row(c.chunks[k].dst, row))
  {
    forall p | p in c.original && Row(c.chunks[k].dst, row).Contains(p) ensures s.dataset[p] == c.original[p] {
      UntouchedPoint(c, s, k, p);
    }
  }

  lemma OneMoreRow(options: WarpOptions, img: Image, w: Window, row: nat)
    ensures Buffered(options, img, TopRows(w, row)) + Buffered(options, img, Row(w, row)) == Buffered(options, img, TopRows(w, row + 1))
  {
  }

  lemma NoRows(options: WarpOptions, img: Image, w: Window, row: nat)
    requires RowInRange(row, w.ySize) && row >= w.ySize
    ensures Buffered(options, img, TopRows(w, row)) == Buffered(options, img, w)
  {
  }

  lemma WorkKeepsBuffer(c: Config, s: State, k: nat)
    requires Disjoint(c.chunks) && Control(c, s) && Data(c, s) && Enabled(c, s, Work(k))
    ensures BufferOk(c, WorkerStep(c, s, k), k)
  {
    assert ThreadOk(c, s, k) && BufferOk(c, s, k);
    if s.workers[k].pc.Reading? && s.workers[k].pc.row < c.chunks[k].dst.ySize {
      UntouchedRow(c, s, k, s.workers[k].pc.row);
    }
    BufferGoesOn(c, s.workers[k], s.slots[k % 2], s.dataset, k);
  }

  lemma NothingRead(options: WarpOptions, img: Image, w: Window)
    ensures Buffered(options, img, TopRows(w, 0)) == map[]
  {
  }

  lemma ReadingGoesOn(c: Config, w: Worker, slot: Slot, img: Image, k: nat)
    requires k < |c.chunks| && w.pc.Reading? && BufferRight(c, w, k) && w.chunk == k
    requires w.pc.row < c.chunks[k].dst.ySize
             ==> Buffered(c.options, img, Row(c.chunks[k].dst, w.pc.row)) == Buffered(c.options, c.original, Row(c.chunks[k].dst, w.pc.row))
    ensures BufferRight(c, NextWorker(c, w, slot, img), k)
  {
    hide Buffered, Row;
    var row, dst := w.pc.row, c.chunks[k].dst;
    if row < dst.ySize {
      OneMoreRow(c.options, c.original, dst, row);
    } else {
      NoRows(c.options, c.original, dst, row);
    }
  }

  /** The buffer is right after a step if it was right before and the row that the step reads is untouched. */
  lemma BufferGoesOn(c: Config, w: Worker, slot: Slot, img: Image, k: nat)
    requires k < |c.chunks| && BufferRight(c, w, k) && (w.pc.KnowsChunk() ==> w.chunk == k)
    requires w.pc.Reading? && w.pc.row < c.chunks[k].dst.ySize
             ==> Buffered(c.options, img, Row(c.chunks[k].dst, w.pc.row)) == Buffered(c.options, c.original, Row(c.chunks[k].dst, w.pc.row))
    ensures BufferRight(c, NextWorker(c, w, slot, img), k)
  {
    hide Buffered, Performed, Row;
    if w.pc.Reading? {
      ReadingGoesOn(c, w, slot, img, k);
    } else {
      NothingRead(c.options, c.original, c.chunks[k].dst);
    }
  }

  predicate WritesPoint(c: Config, s: State, k: nat, p: Pixel)
    requires Formed(c, s) && k < |c.chunks|
  {
    var pc, dst := s.workers[k].pc, c.chunks[k].dst;
    pc.Writing? && pc.row < dst.ySize && Row(dst, pc.row).Contains(p)
  }

  /** What a step does to one point. */
  lemma PointAfter(c: Config, s: State, k: nat, p: Pixel)
    requires Control(c, s) && Data(c, s) && Enabled(c, s, Work(k)) && p in c.original
    ensures p in WorkerStep(c, s, k).dataset
    ensures WorkerStep(c, s, k).dataset[p]
            == if WritesPoint(c, s, k, p) then WarpedBuffer(c.options, c.kernel, c.chunks[k], c.original)[p] else s.dataset[p]
  {
    assert ThreadOk(c, s, k) && BufferOk(c, s, k);
    var w := s.workers[k];
    if w.pc.Writing? && w.pc.row < c.chunks[k].dst.ySize {
      PointWritten(w.buf, s.dataset, Row(c.chunks[k].dst, w.pc.row), p);
    }
  }

  lemma WrittenGrows(pc: WorkerPc, dst: Window, p: Pixel)
    requires pc.Writing? ==> RowInRange(pc.row, dst.ySize)
    ensures TopRows(dst, WrittenRows(NextPc(pc, dst.ySize), dst.ySize)).Contains(p)
            <==> TopRows(dst, WrittenRows(pc, dst.ySize)).Contains(p)
                 || (pc.Writing? && pc.row < dst.ySize && Row(dst, pc.row).Contains(p))
  {
  }

  lemma PointWritten(buf: Image, img: Image, w: Window, p: Pixel)
    requires p in img && (w.Contains(p) ==> p in buf)
    ensures (img + Part(buf, w))[p] == if w.Contains(p) then buf[p] else img[p]
  {
  }

  /** A point stays right when one thread writes it, and when none does. */
  lemma PointKept(c: Config, s: State, t: State, k: nat, p: Pixel, writes: bool)
    requires Disjoint(c.chunks) && Formed(c, s) && Formed(c, t) && k < |c.chunks|
    requires p in c.original && p in s.dataset && p in t.dataset && PointOk(c, s, p)
    requires forall j :: 0 <= j < |c.chunks| && j != k ==> Written(c, t, j) == Written(c, s, j)
    requires Written(c, t, k).Contains(p) <==> Written(c, s, k).Contains(p) || writes
    requires writes ==> c.chunks[k].dst.Contains(p)
    requires t.dataset[p] == if writes then WarpedBuffer(c.options, c.kernel, c.chunks[k], c.original)[p] else s.dataset[p]
    ensures PointOk(c, t, p)
  {
    hide Written, WarpedBuffer, Window.Contains;
    if writes {
      forall j | 0 <= j < |c.chunks| && c.chunks[j].dst.Contains(p) ensures j == k {
        assert c.chunks[k].dst.Contains(p);
      }
    }
  }

  lemma WrittenAfter(c: Config, s: State, k: nat, p: Pixel)
    requires Control(c, s) && Data(c, s) && Enabled(c, s, Work(k))
    ensures Written(c, WorkerStep(c, s, k), k).Contains(p) <==> Written(c, s, k).Contains(p) || WritesPoint(c, s, k, p)
    ensures forall j :: 0 <= j < |c.chunks| && j != k ==> Written(c, WorkerStep(c, s, k), j) == Written(c, s, j)
  {
    hide WarpedBuffer, Performed, Buffered, Row, NextBuffer, NextDataset;
    assert ThreadOk(c, s, k) && BufferOk(c, s, k);
    WrittenGrows(s.workers[k].pc, c.chunks[k].dst, p);
  }

  lemma WorkKeepsPoint(c: Config, s: State, k: nat, p: Pixel)
    requires Disjoint(c.chunks) && Control(c, s) && Data(c, s) && Enabled(c, s, Work(k)) && p in c.original
    requires p in WorkerStep(c, s, k).dataset
    ensures PointOk(c, WorkerStep(c, s, k), p)
  {
    hide WarpedBuffer, Written, NextWorker, NextSlot, NextIO, NextWarp, NextDataset;
    PointAfter(c, s, k, p);
    WrittenAfter(c, s, k, p);
    assert PointOk(c, s, p);
    PointKept(c, s, WorkerStep(c, s, k), k, p, WritesPoint(c, s, k, p));
  }

  lemma WorkKeepsData(c: Config, s: State, k: nat)
    requires Disjoint(c.chunks) && Control(c, s) && Data(c, s) && Enabled(c, s, Work(k))
    ensures Data(c, WorkerStep(c, s, k))
  {
    hide NextWorker, NextSlot;
    var s' := WorkerStep(c, s, k);
    assert ThreadOk(c, s, k) && BufferOk(c, s, k);
    assert s'.dataset.Keys == c.original.Keys;
    WorkKeepsBuffer(c, s, k);
    forall j | 0 <= j < |c.chunks| ensures BufferOk(c, s', j) {
      assert BufferOk(c, s, j);
    }
    forall p | p in c.original ensures PointOk(c, s', p) {
      WorkKeepsPoint(c, s, k, p);
    }
  }

  // ---------------------------------------------------------------------
  //  Whole runs
  // ---------------------------------------------------------------------

  ghost predicate Invariant(c: Config, s: State) {
    Control(c, s) && Data(c, s)
  }

  lemma StepKeepsInvariant(c: Config, s: State, a: Action)
    requires Disjoint(c.chunks) && Invariant(c, s) && Enabled(c, s, a)
    ensures Invariant(c, Do(c, s, a))
  {
    StepKeepsControl(c, s, a);
    match a
    case Main => MainKeepsData(c, s);
    case Timeout => TimeoutKeepsData(c, s);
    case Work(k) => WorkKeepsData(c, s, k);
  }

  /** Some steps, one after another, each one enabled. */
  ghost predicate Runs(c: Config, s: State, steps: seq<Action>, t: State)
    decreases |steps|
  {
    if |steps| == 0 then s == t
    else Formed(c, s) && Enabled(c, s, steps[0]) && Runs(c, Do(c, s, steps[0]), steps[1..], t)
  }

  lemma {:induction false} RunKeepsInvariant(c: Config, s: State, steps: seq<Action>, t: State)
    requires Disjoint(c.chunks) && Invariant(c, s) && Runs(c, s, steps, t)
    ensures Invariant(c, t)
    decreases |steps|
  {
    if |steps| > 0 {
      StepKeepsInvariant(c, s, steps[0]);
      RunKeepsInvariant(c, Do(c, s, steps[0]), steps[1..], t);
    }
  }

  ghost predicate Reachable(c: Config, t: State) {
    exists steps :: Runs(c, Initial(c), steps, t)
  }

  lemma ReachableInvariant(c: Config, t: State)
    requires Disjoint(c.chunks) && Reachable(c, t)
    ensures Invariant(c, t)
  {
    var steps :| Runs(c, Initial(c), steps, t);
    InitialControl(c);
    InitialData(c);
    RunKeepsInvariant(c, Initial(c), steps, t);
  }

  /** No two threads are in the I/O part or in the warp at once. */
  lemma MutualExclusion(c: Config, s: State, j: nat, k: nat)
    requires Disjoint(c.chunks) && Reachable(c, s) && Formed(c, s) && j < k < |c.chunks|
    ensures !(s.workers[j].pc.InIO() && s.workers[k].pc.InIO())
    ensures !(s.workers[j].pc.InWarp() && s.workers[k].pc.InWarp())
  {
    ReachableInvariant(c, s);
    assert ThreadOk(c, s, j) && ThreadOk(c, s, k);
  }

  /** When a chunk is put in a slot, all chunks but the one before it are done; so no more than two,
      neighbours in the list, are ever unfinished. */
  lemma TwoRunning(c: Config, s: State, j: nat, k: nat)
    requires Disjoint(c.chunks) && Reachable(c, s) && Formed(c, s) && j < k < |c.chunks|
    requires s.workers[j].pc.Running() && (s.workers[k].pc.Running() || s.main == Fill(k) || s.main == Spawn(k))
    ensures k == j + 1
  {
    ReachableInvariant(c, s);
    assert ThreadOk(c, s, j) && ThreadOk(c, s, k);
  }

  /** The result that the main thread reads is that of the chunk it waited for, never a chunk's address. */
  lemma OutcomeIsSuccess(c: Config, s: State)
    requires Disjoint(c.chunks) && Reachable(c, s) && Formed(c, s) && s.main.Outcome?
    ensures s.slots[s.main.k % 2].info == Success && s.workers[s.main.k].pc.Marked()
  {
    ReachableInvariant(c, s);
    WaitEnds(c, s, s.main.k);
  }

  /** Once the main thread is through, the dataset is what warping the chunks one by one makes of it. */
  lemma ThreadedIsSequential(c: Config, s: State)
    requires Disjoint(c.chunks) && Reachable(c, s) && s.main.Over?
    ensures WarpOf(c.options, c.kernel, c.chunks, c.original, s.dataset)
    ensures s.dataset == WarpedAll(c.options, c.kernel, c.chunks, c.original)
  {
    ReachableInvariant(c, s);
    forall k | 0 <= k < |c.chunks| ensures Written(c, s, k) == c.chunks[k].dst {
      assert ThreadOk(c, s, k);
    }
    forall p | p in c.original ensures WarpedAt(c.options, c.kernel, c.chunks, c.original, p, s.dataset[p]) {
      assert PointOk(c, s, p);
    }
    WarpedAllRight(c.options, c.kernel, c.chunks, c.original);
    WarpOfUnique(c.options, c.kernel, c.chunks, c.original, s.dataset, WarpedAll(c.options, c.kernel, c.chunks, c.original));
  }

  /** The chunks of a window can be warped by threads. */
  lemma ChunkAndWarpMulti(options: WarpOptions, sourceWindow: Finder, kernel: Kernel, w: Window, img: Image, s: State)
    requires var c := Config(options, kernel, Collected(options, sourceWindow, w).chunks, img); Reachable(c, s) && s.main.Over?
    ensures s.dataset == WarpedAll(options, kernel, Collected(options, sourceWindow, w).chunks, img)
  {
    CollectedDisjoint(options, sourceWindow, w);
    ThreadedIsSequential(Config(options, kernel, Collected(options, sourceWindow, w).chunks, img), s);
  }

  // ---------------------------------------------------------------------
  //  Progress
  // ---------------------------------------------------------------------

  function Height(c: Config, k: nat): nat
    requires k < |c.chunks|
  {
    if c.chunks[k].dst.ySize > 0 then c.chunks[k].dst.ySize else 0
  }

  /** The steps that a thread still has to take, for a chunk of so many rows. */
  function StepsLeft(pc: WorkerPc, rows: nat): int {
    match pc
    case Idle => 2 * rows + 15
    case Starting => 2 * rows + 14
    case AcquireThread => 2 * rows + 13
    case AcquireIO => 2 * rows + 12
    case Reading(row) => 2 * rows + 11 - row
    case ReleaseIO => rows + 10
    case AcquireWarp => rows + 9
    case Warping => rows + 8
    case ReleaseWarp => rows + 7
    case AcquireIOAgain => rows + 6
    case Writing(row) => rows + 5 - row
    case ReleaseIOAgain => 4
    case Returning => 3
    case Marking => 2
    case ReleaseThread => 1
    case Finished => 0
  }

  function WorkLeft(c: Config, s: State, n: nat): int
    requires Formed(c, s) && n <= |c.chunks|
  {
    if n == 0 then 0 else WorkLeft(c, s, n - 1) + StepsLeft(s.workers[n-1].pc, Height(c, n - 1))
  }

  /** The steps that the main thread still has to take, not counting those of its waiting loops. */
  function MainLeft(c: Config, main: MainPc): int {
    var n := |c.chunks|;
    match main
    case Fill(i) => 4 * (n + 1 - i) + 4
    case Spawn(i) => 4 * (n + 1 - i) + 3
    case Check(w) => WaitLeft(n, w)
    case Try(w) => WaitLeft(n, w)
    case Hold(w) => WaitLeft(n, w)
    case Outcome(k) => 4 * (n - k) + 1
    case Over => 0
  }

  function WaitLeft(n: nat, w: Wait): int {
    match w case ForChunk(k) => 4 * (n - k) + 2 case ForSlot(i) => 2 - i
  }

  function StepsToGo(c: Config, s: State): int
    requires Formed(c, s)
  {
    MainLeft(c, s.main) + WorkLeft(c, s, |c.chunks|)
  }

  /** A step that brings the end nearer. */
  ghost predicate Advances(c: Config, s: State, a: Action) {
    Formed(c, s) && Enabled(c, s, a) && Formed(c, Do(c, s, a)) && StepsToGo(c, Do(c, s, a)) < StepsToGo(c, s)
  }

  lemma {:induction false} WorkLeftSame(c: Config, s: State, t: State, n: nat)
    requires Formed(c, s) && Formed(c, t) && n <= |c.chunks|
    requires forall k :: 0 <= k < n ==> s.workers[k].pc == t.workers[k].pc
    ensures WorkLeft(c, s, n) == WorkLeft(c, t, n)
  {
    if n > 0 { WorkLeftSame(c, s, t, n - 1); }
  }

  lemma {:induction false} WorkLeftChange(c: Config, s: State, t: State, n: nat, k: nat)
    requires Formed(c, s) && Formed(c, t) && k < n <= |c.chunks|
    requires forall j :: 0 <= j < n && j != k ==> s.workers[j].pc == t.workers[j].pc
    ensures WorkLeft(c, t, n) - WorkLeft(c, s, n)
            == StepsLeft(t.workers[k].pc, Height(c, k)) - StepsLeft(s.workers[k].pc, Height(c, k))
  {
    if k < n - 1 { WorkLeftChange(c, s, t, n - 1, k); } else { WorkLeftSame(c, s, t, n - 1); }
  }

  lemma {:induction false} WorkLeftPositive(c: Config, s: State, n: nat)
    requires Formed(c, s) && Data(c, s) && n <= |c.chunks|
    ensures WorkLeft(c, s, n) >= 0
  {
    if n > 0 {
      WorkLeftPositive(c, s, n - 1);
      assert BufferOk(c, s, n - 1);
    }
  }

  lemma FewerSteps(pc: WorkerPc, ySize: int)
    requires !pc.Idle? && !pc.Finished? && (pc.Reading? || pc.Writing? ==> RowInRange(pc.row, ySize))
    ensures var rows := if ySize > 0 then ySize else 0; StepsLeft(NextPc(pc, ySize), rows) < StepsLeft(pc, rows)
  {
  }

  /** Every step of a thread brings the end nearer. */
  lemma WorkAdvances(c: Config, s: State, k: nat)
    requires Disjoint(c.chunks) && Invariant(c, s) && Enabled(c, s, Work(k))
    ensures Advances(c, s, Work(k))
  {
    hide Filed, Holds, NextSlot, NextIO, NextWarp, NextBuffer;
    var t := WorkerStep(c, s, k);
    assert ThreadOk(c, s, k) && BufferOk(c, s, k);
    WorkKeepsControl(c, s, k);
    WorkLeftChange(c, s, t, |c.chunks|, k);
    if s.workers[k].pc.Starting? {
      assert t.workers[k].pc == AcquireThread;
    } else {
      FewerSteps(s.workers[k].pc, c.chunks[k].dst.ySize);
      assert t.workers[k].pc == NextPc(s.workers[k].pc, c.chunks[k].dst.ySize);
    }
  }

  /** Every step of the main thread that is not part of a waiting loop brings the end nearer; those put it no further away. */
  lemma MainAdvances(c: Config, s: State)
    requires Invariant(c, s) && Enabled(c, s, Main)
    ensures Formed(c, MainStep(c, s)) && StepsToGo(c, MainStep(c, s)) <= StepsToGo(c, s)
    ensures !s.main.Waiting() || (s.main.Check? && !s.slots[s.main.wait.Index()].busy) ==> Advances(c, s, Main)
  {
    hide Data;
    var t := MainStep(c, s);
    MainKeepsControl(c, s);
    if s.main.Outcome? { WaitEnds(c, s, s.main.k); }
    if s.main.Spawn? {
      assert ThreadOk(c, s, s.main.i);
      WorkLeftChange(c, s, t, |c.chunks|, s.main.i);
    } else {
      WorkLeftSame(c, s, t, |c.chunks|);
    }
  }

  /** A thread that holds the I/O mutex, the warp mutex, or its slot's mutex while those two are free, can go on. */
  lemma HolderEnabled(c: Config, s: State, k: nat)
    requires Control(c, s) && k < |c.chunks|
    requires s.io == Some(k) || s.warp == Some(k) || (s.io == None && s.warp == None && s.slots[k % 2].holder == Thread(k))
    ensures Enabled(c, s, Work(k))
  {
    assert ThreadOk(c, s, k);
  }

  /** While a thread is not done, some thread can go on, unless the main thread holds the mutex it waits for. */
  lemma SomeThreadEnabled(c: Config, s: State, k: nat) returns (j: nat)
    requires Control(c, s) && k < |c.chunks| && s.slots[k % 2].holder != MainThread
    requires s.workers[k].pc.Running() || s.slots[k % 2].holder.Thread?
    ensures Enabled(c, s, Work(j))
  {
    assert ThreadOk(c, s, k);
    if s.io.Some? {
      j := s.io.value;
      HolderEnabled(c, s, j);
    } else if s.warp.Some? {
      j := s.warp.value;
      HolderEnabled(c, s, j);
    } else if s.slots[k % 2].holder.Thread? {
      j := s.slots[k % 2].holder.k;
      assert SlotOk(c, s, k % 2);
      HolderEnabled(c, s, j);
    } else {
      j := k;
    }
  }

  /** The slots are idle by the time the main thread waits for all threads. */
  lemma IdleAtEnd(c: Config, s: State)
    requires Control(c, s) && s.main.Waiting() && s.main.wait.ForSlot?
    ensures !s.slots[s.main.wait.Index()].busy
  {
    var i, n := s.main.wait.Index(), |c.chunks|;
    if n > i {
      assert ThreadOk(c, s, if (n - 1) % 2 == i then n - 1 else n - 2);
    }
  }

  /** While the slot is busy, or a thread holds its mutex, some thread's step brings the end nearer. */
  lemma ThreadAdvances(c: Config, s: State) returns (a: Action)
    requires Disjoint(c.chunks) && Invariant(c, s) && s.main.Waiting() && !s.main.Hold?
    requires s.slots[s.main.wait.Index()].busy || s.slots[s.main.wait.Index()].holder.Thread?
    ensures Advances(c, s, a)
  {
    var i, k := s.main.wait.Index(), 0;
    if s.slots[i].busy {
      if s.main.wait.ForSlot? { IdleAtEnd(c, s); }
      k := s.main.wait.k;
      assert ThreadOk(c, s, k);
    } else {
      k := s.slots[i].holder.k;
      assert SlotOk(c, s, i);
    }
    assert SlotOk(c, s, k % 2);
    var j := SomeThreadEnabled(c, s, k);
    WorkAdvances(c, s, j);
    a := Work(j);
  }

  /** A step of the main thread, and what it means for the way to go. */
  lemma MainGoesOn(c: Config, s: State)
    requires Disjoint(c.chunks) && Invariant(c, s) && Enabled(c, s, Main)
    ensures Formed(c, MainStep(c, s)) && Invariant(c, MainStep(c, s)) && StepsToGo(c, MainStep(c, s)) <= StepsToGo(c, s)
  {
    hide Invariant, StepsToGo;
    StepKeepsInvariant(c, s, Main);
    MainAdvances(c, s);
  }

  ghost predicate Blocked(c: Config, s: State)
    requires Formed(c, s)
  {
    s.main.Waiting() && (s.slots[s.main.wait.Index()].busy || s.slots[s.main.wait.Index()].holder.Thread?)
  }

  /** From a free slot's mutex the main thread gets back to its check in at most two steps. */
  lemma BackToCheck(c: Config, s: State) returns (first: seq<Action>, t: State)
    requires Disjoint(c.chunks) && Invariant(c, s) && !s.main.Over?
    ensures |first| <= 2 && Runs(c, s, first, t) && Invariant(c, t) && !t.main.Over?
    ensures Formed(c, s) && Formed(c, t) && StepsToGo(c, t) <= StepsToGo(c, s)
    ensures !t.main.Hold? && (Blocked(c, t) || !t.main.Waiting() || t.main.Check?)
  {
    hide StepsToGo, Data;
    first, t := [], s;
    if s.main.Try? && !Blocked(c, s) {
      assert SlotOk(c, s, s.main.wait.Index());
      MainGoesOn(c, s);
      t := MainStep(c, s);
      first := [Main];
    }
    if t.main.Hold? {
      MainGoesOn(c, t);
      t := MainStep(c, t);
      first := first + [Main];
      assert first[1..] == if s.main.Try? then [Main] else [];
    }
  }

  /** No state before the end is stuck: after at most two steps of the main thread's waiting loop, some
      step brings the end nearer. */
  lemma NeverStuck(c: Config, s: State) returns (first: seq<Action>, t: State, a: Action)
    requires Disjoint(c.chunks) && Invariant(c, s) && !s.main.Over?
    ensures |first| <= 2 && Runs(c, s, first, t) && Invariant(c, t) && Advances(c, t, a)
    ensures StepsToGo(c, t) <= StepsToGo(c, s)
  {
    hide Runs, StepsToGo, Data, Advances;
    first, t := BackToCheck(c, s);
    if Blocked(c, t) {
      a := ThreadAdvances(c, t);
    } else {
      MainAdvances(c, t);
      a := Main;
    }
  }

  lemma {:induction false} RunsConcat(c: Config, s: State, first: seq<Action>, t: State, next: seq<Action>, u: State)
    requires Runs(c, s, first, t) && Runs(c, t, next, u)
    ensures Runs(c, s, first + next, u)
    decreases |first|
  {
    hide Do;
    if |first| == 0 {
      assert first + next == next;
    } else {
      RunsConcat(c, Do(c, s, first[0]), first[1..], t, next, u);
      assert (first + next)[1..] == first[1..] + next;
    }
  }

  lemma StepsRemain(c: Config, s: State)
    requires Invariant(c, s)
    ensures StepsToGo(c, s) >= 0
  {
    WorkLeftPositive(c, s, |c.chunks|);
  }

  /** From every state that a run can come to, the end can be reached. */
  lemma {:induction false} CanFinish(c: Config, s: State) returns (steps: seq<Action>, t: State)
    requires Disjoint(c.chunks) && Invariant(c, s)
    ensures Runs(c, s, steps, t) && t.main.Over?
    decreases (StepsRemain(c, s); StepsToGo(c, s))
  {
    StepsRemain(c, s);
    if s.main.Over? {
      return [], s;
    }
    var first, u, a := NeverStuck(c, s);
    var v := Do(c, u, a);
    StepKeepsInvariant(c, u, a);
    StepsRemain(c, v);
    var rest;
    rest, t := CanFinish(c, v);
    assert ([a] + rest)[1..] == rest;
    RunsConcat(c, s, first, u, [a] + rest, t);
    steps := first + ([a] + rest);
  }

  /** Some run of the threads comes to an end, and warps every chunk. */
  lemma SomeRunFinishes(c: Config) returns (t: State)
    requires Disjoint(c.chunks)
    ensures Reachable(c, t) && t.main.Over? && WarpOf(c.options, c.kernel, c.chunks, c.original, t.dataset)
  {
    InitialControl(c);
    InitialData(c);
    var steps;
    steps, t := CanFinish(c, Initial(c));
    ThreadedIsSequential(c, t);
  }

  /** How many of some steps bring the end nearer. */
  ghost function Advancing(c: Config, s: State, steps: seq<Action>): nat
    decreases |steps|
  {
    if |steps| == 0 || !Formed(c, s) || !Enabled(c, s, steps[0]) then 0
    else (if Advances(c, s, steps[0]) then 1 else 0) + Advancing(c, Do(c, s, steps[0]), steps[1..])
  }

  /** Every run takes only so many steps outside of the main thread's waiting loops. */
  lemma {:induction false} RunIsBounded(c: Config, s: State, steps: seq<Action>, t: State)
    requires Disjoint(c.chunks) && Invariant(c, s) && Runs(c, s, steps, t)
    ensures Advancing(c, s, steps) <= StepsToGo(c, s)
    decreases |steps|
  {
    if |steps| == 0 {
      WorkLeftPositive(c, s, |c.chunks|);
    } else {
      var u := Do(c, s, steps[0]);
      StepKeepsInvariant(c, s, steps[0]);
      RunIsBounded(c, u, steps[1..], t);
      match steps[0]
      case Main => MainAdvances(c, s);
      case Timeout => WorkLeftSame(c, s, u, |c.chunks|);
      case Work(k) => WorkAdvances(c, s, k);
    }
  }
}
