/** Whole runs over one open file, and what becomes of a file whose commit never came. */
module ReeRuns {
  import opened Bytes
  import opened Image
  import opened TeeResult
  import opened HostFs
  import opened KeyManager
  import opened ReeLayout
  import opened ReeCommit
  import opened FlatFile
  import opened ReeFs

  /** The arguments are in range: sizes are not negative as 64-bit signed numbers, offsets are `int32_t`. */
  predicate InRange(op: Op) {
    match op
    case Read(len) => len < TWO_TO_THE_63
    case Write(bytes) => |bytes| < TWO_TO_THE_63
    case Seek(offset, whence) => -TWO_TO_THE_31 <= offset < TWO_TO_THE_31
    case Truncate(length) => length < TWO_TO_THE_63
  }

  /** What the operations report, one by one. */
  function Outcomes(file: FlatFile, ops: seq<Op>): (outcomes: seq<Outcome>)
    ensures |outcomes| == |ops|
  {
    if ops == [] then [] else
      var earlier := ops[..|ops| - 1];
      Outcomes(file, earlier) + [Apply(Run(file, earlier), ops[|ops| - 1]).1]
  }

  /** The contents one operation passes through. */
  function Stages(file: FlatFile, op: Op): (stages: set<seq<byte>>)
    ensures file.content in stages
  {
    if op.Write? then {file.content} + WriteStages(file.content, file.pos, op.bytes)
    else if op.Truncate? then {file.content, Resize(file.content, op.length)}
    else {file.content}
  }

  /** What an operation may be found to have done: nothing, all of it, or of a write past the end the
      zeros up to the cursor. */
  lemma StagesAre(file: FlatFile, op: Op, stage: seq<byte>)
    requires stage in Stages(file, op)
    ensures var FlatFile(content, pos) := file;
      || stage == content
      || (op.Truncate? && |stage| == op.length
          && forall i | 0 <= i < |stage| :: stage[i] == if i < |content| then content[i] else 0)
      || (op.Write? && pos > |content| && stage == content + Zeros(pos - |content|))
      || (op.Write? && pos >= 0 && |stage| == Max(|content|, pos + |op.bytes|)
          && forall i | 0 <= i < |stage| ::
               stage[i] == if pos <= i < pos + |op.bytes| then op.bytes[i - pos] else if i < |content| then content[i] else 0)
  {
    if op.Write? && file.pos >= 0 {
      WrittenAt(file.content, file.pos, op.bytes);
    }
    hide Written;
  }

  /** The contents a history passes through. */
  function RunStages(file: FlatFile, ops: seq<Op>): set<seq<byte>> {
    if ops == [] then {file.content} else
      var earlier := ops[..|ops| - 1];
      RunStages(file, earlier) + Stages(Run(file, earlier), ops[|ops| - 1])
  }

  lemma OneMoreOp(file: FlatFile, ops: seq<Op>, n: nat)
    requires n < |ops|
    ensures ops[..n + 1][..n] == ops[..n] && ops[..n + 1][n] == ops[n]
    ensures Run(file, ops[..n + 1]) == Apply(Run(file, ops[..n]), ops[n]).0
    ensures Outcomes(file, ops[..n + 1]) == Outcomes(file, ops[..n]) + [Apply(Run(file, ops[..n]), ops[n]).1]
    ensures RunStages(file, ops[..n + 1]) == RunStages(file, ops[..n]) + Stages(Run(file, ops[..n]), ops[n])
  {
    assert ops[..n + 1][..n] == ops[..n];
  }

  /** The operation goes through with a commit. */
  predicate Commits(file: FlatFile, op: Op) {
    && Apply(file, op).1.Done?
    && (op.Truncate? || (op.Write? && op.bytes != []))
  }

  /** Performs one operation on the handle. */
  method Perform(fd: TeeFsFd, op: Op) returns (outcome: Outcome, faulted: bool, ghost steps: seq<Step>)
    requires fd.Valid() && -TWO_TO_THE_31 <= fd.pos <= MAX_POSITION && InRange(op) && (op.Read? ==> Readable(fd.pos, op.len))
    modifies fd, fd.host
    ensures fd.Valid() && OnlyInode(old(fd.host.disk), fd.host.disk, fd.ino)
    ensures fd.host.log == old(fd.host.log) + steps && OnlyFile(steps, fd.ino, fd.host.dir, old(fd.host.disk))
    ensures old(fd.AllIntact()) && faulted ==> fd.host.faults > old(fd.host.faults)
    ensures fd.host.dir == old(fd.host.dir) && fd.host.faults >= old(fd.host.faults)
    ensures -TWO_TO_THE_31 <= fd.pos <= MAX_POSITION
    ensures old(fd.InStep()) ==> (fd.InStep() <==> fd.CounterOnDisk())
    ensures old(fd.AllTidy()) ==> fd.AllTidy()
    ensures faulted ==> fd.Contents() in Stages(old(fd.View()), op)
    ensures !faulted ==>
      && fd.host.faults == old(fd.host.faults)
      && (fd.View(), outcome) == Apply(old(fd.View()), op)
      && (old(fd.AllIntact()) ==> fd.AllIntact())
      && (old(fd.InStep()) || Commits(old(fd.View()), op) ==> fd.InStep())
    ensures old(fd.InStep()) ==> CrashSafe(fd.crypto, steps, fd.ino, Stages(old(fd.View()), op))
  {
    hide Covered, Content, Whole, Tidy, OpenMeta, Committed, OnlyFile, CrashSafe, OnlyInode, Splice, Resize, Crypto.Lawful;
    HandleFacts(fd);
    CursorBounded(fd.View(), op);
    if fd.InStep() {
      InStepCounter(fd);
    }
    ghost var view, content, stages := fd.View(), fd.Contents(), Stages(fd.View(), op);
    ghost var intact, inStep := fd.AllIntact(), fd.InStep();
    NoSteps(fd.crypto, fd.ino, fd.host.dir, fd.host.disk, stages);
    NothingElse(fd.host.disk, fd.ino);
    steps, faulted, outcome := [], false, Done;
    var res;
    match op {
      case Read(len) =>
        var data;
        res, data := fd.Read(len);
        faulted, outcome := res != Success, Got(data);
      case Write(bytes) =>
        res, steps := fd.Write(bytes);
        outcome := if res == BadParameters then Refused else Done;
        faulted := res != Success && res != BadParameters;
        if inStep {
          CrashSafeWiden(fd.crypto, steps, fd.ino, WriteStages(content, view.pos, bytes), stages);
        }
      case Seek(offset, whence) =>
        var newOffs;
        res, newOffs := fd.Seek(offset, whence);
        outcome := if res == BadParameters then Refused else Done;
      case Truncate(length) =>
        res, steps := fd.Truncate(length);
        outcome := if res == BadParameters then Refused else Done;
        faulted := res != Success && res != BadParameters;
    }
  }

  /** After an extension is cut off between two blocks, the first of them, beyond the committed
      length, has its live version in a hole. It stays usable exactly when a record of all zeros
      opens under the file's key. */
  lemma StrandedBlock(crypto: Crypto, image: Image, meta: Meta, b: nat, record: seq<byte>)
    requires |meta.info.table| == NUM_BLOCKS && b + 1 < NUM_BLOCKS
    requires meta.info.table[b] && meta.info.table[b + 1]
    requires |image| <= SlotPos(b, 1) && |record| == BLOCK_SLOT
    ensures var image' := WriteAt(image, BlockPos(meta.info.table, b + 1, false), record);
      Intact(crypto, image', meta, b) <==> Unseal(crypto, BlockFile, Zeros(BLOCK_SLOT), BLOCK_SIZE, meta.fek).Opened?
  {
    hide Unseal;
    var hole := SlotPos(b, 1);
    var image' := WriteAt(image, SlotPos(b + 1, 0), record);
    assert LiveSlot(meta, b) == hole && BlockPos(meta.info.table, b + 1, false) == SlotPos(b + 1, 0) == hole + BLOCK_SLOT;
    var read := ReadAt(image', hole, BLOCK_SLOT);
    assert |read| == BLOCK_SLOT;
    assert forall i | 0 <= i < BLOCK_SLOT :: read[i] == image'[hole + i] == 0;
    assert read == Zeros(BLOCK_SLOT);
  }

  // ----- Runs that go on after failures -----

  /** Handle and disk at one moment of a run. */
  datatype Moment = Moment(image: Image, counter: nat, meta: Meta, pos: int)

  ghost function Now(fd: TeeFsFd): Moment
    requires fd.ino in fd.host.disk
    reads fd, fd.host`disk
  {
    Moment(fd.Image(), fd.metaCounter, fd.meta, fd.pos)
  }

  /** The plain file the handle stands for. */
  ghost function Shown(crypto: Crypto, m: Moment): FlatFile
    requires Covered(crypto, m.image, m.meta)
  {
    FlatFile(Content(crypto, m.image, m.meta), m.pos)
  }

  /** The disk holds exactly the state of the handle. */
  ghost predicate Agrees(crypto: Crypto, m: Moment) {
    Committed(crypto, m.image, m.counter, m.meta)
  }

  /** Opening the file finds the counter of the handle. */
  ghost predicate SameCounter(crypto: Crypto, m: Moment) {
    OpenMeta(crypto, m.image).OpenedMeta? && OpenMeta(crypto, m.image).counter == m.counter
  }

  datatype Report = Performed(outcome: Outcome) | Failed

  /** One operation of a run, whether it failed or not, with its raw writes. */
  datatype Turn = Turn(op: Op, before: Moment, report: Report, steps: seq<Step>, after: Moment)

  /** What holds of every operation: performed, it does what it does to the plain file; failed, it leaves
      one of its stages. From a handle in step all its raw writes spare what is live and a crash at any of
      them shows one of its stages; afterwards the handle is in step exactly when the counter on the disk
      is its own. Blocks are left sealed or unwritten. */
  ghost predicate TurnHolds(crypto: Crypto, ino: Inode, t: Turn) {
    && Covered(crypto, t.before.image, t.before.meta) && Covered(crypto, t.after.image, t.after.meta)
    && var was, now := Shown(crypto, t.before), Shown(crypto, t.after);
    && (t.report.Performed? ==> (now, t.report.outcome) == Apply(was, t.op))
    && (t.report.Performed? && (Agrees(crypto, t.before) || Commits(was, t.op)) ==> Agrees(crypto, t.after))
    && (t.report.Failed? ==> now.content in Stages(was, t.op))
    && (Agrees(crypto, t.before) ==>
          && (Agrees(crypto, t.after) <==> SameCounter(crypto, t.after))
          && SlotSafe(crypto, t.steps, ino) && CrashSafe(crypto, t.steps, ino, Stages(was, t.op)))
    && (Tidy(crypto, t.before.image, t.before.meta) ==> Tidy(crypto, t.after.image, t.after.meta))
  }

  ghost predicate AllHold(crypto: Crypto, ino: Inode, turns: seq<Turn>) {
    && (forall n | 0 <= n < |turns| :: TurnHolds(crypto, ino, turns[n]))
    && (forall n | 0 < n < |turns| :: turns[n].before == turns[n - 1].after)
  }

  function AllSteps(turns: seq<Turn>): seq<Step> {
    if turns == [] then [] else AllSteps(turns[..|turns| - 1]) + turns[|turns| - 1].steps
  }

  /** The contents the operations of a run pass through. */
  ghost function PassedBy(crypto: Crypto, ino: Inode, turns: seq<Turn>): set<seq<byte>>
    requires AllHold(crypto, ino, turns)
  {
    if turns == [] then {} else
      var last := turns[|turns| - 1];
      PassedBy(crypto, ino, turns[..|turns| - 1]) + Stages(Shown(crypto, last.before), last.op)
  }

  /** A run over any number of commits and failures that starts in step: as long as the counter on the disk
      is that of the handle after each operation, every raw write spares what is live on the disk at that
      moment, and a crash anywhere shows one of the contents the operations pass through. */
  lemma {:induction false} SafeThroughFailures(crypto: Crypto, ino: Inode, turns: seq<Turn>)
    requires AllHold(crypto, ino, turns)
    requires turns != [] ==> Agrees(crypto, turns[0].before)
    requires forall n | 0 <= n < |turns| - 1 :: SameCounter(crypto, turns[n].after)
    ensures SlotSafe(crypto, AllSteps(turns), ino) && CrashSafe(crypto, AllSteps(turns), ino, PassedBy(crypto, ino, turns))
    ensures forall n | 0 <= n < |turns| :: Agrees(crypto, turns[n].before)
  {
    hide CrashSafe, SlotSafe, Agrees, SameCounter, Stages, TurnHolds;
    if turns == [] {
      NothingIsCrashSafe(crypto, ino, {});
      CrashSafeSlots(crypto, [], ino, {});
    } else {
      var front, last := turns[..|turns| - 1], turns[|turns| - 1];
      assert forall n | 0 <= n < |front| :: front[n] == turns[n];
      SafeThroughFailures(crypto, ino, front);
      if front != [] {
        TurnKeepsStep(crypto, ino, front[|front| - 1]);
      }
      TurnIsSafe(crypto, ino, last);
      var passed, stages := PassedBy(crypto, ino, front), Stages(Shown(crypto, last.before), last.op);
      CrashSafeConcat(crypto, AllSteps(front), last.steps, ino, passed, stages);
      CrashSafeSlots(crypto, AllSteps(turns), ino, passed + stages);
    }
  }

  lemma TurnKeepsStep(crypto: Crypto, ino: Inode, t: Turn)
    requires TurnHolds(crypto, ino, t) && Agrees(crypto, t.before) && SameCounter(crypto, t.after)
    ensures Agrees(crypto, t.after)
  {
  }

  lemma TurnIsSafe(crypto: Crypto, ino: Inode, t: Turn)
    requires TurnHolds(crypto, ino, t) && Agrees(crypto, t.before)
    ensures Covered(crypto, t.before.image, t.before.meta)
    ensures CrashSafe(crypto, t.steps, ino, Stages(Shown(crypto, t.before), t.op))
  {
  }

  /** Performs one operation, as part of a run. */
  method TakeTurn(fd: TeeFsFd, op: Op) returns (report: Report, ghost turn: Turn)
    requires fd.Valid() && -TWO_TO_THE_31 <= fd.pos <= MAX_POSITION && InRange(op) && (op.Read? ==> Readable(fd.pos, op.len))
    modifies fd, fd.host
    ensures fd.Valid() && OnlyInode(old(fd.host.disk), fd.host.disk, fd.ino) && fd.host.dir == old(fd.host.dir)
    ensures fd.host.log == old(fd.host.log) + turn.steps
    ensures OnlyFile(turn.steps, fd.ino, fd.host.dir, old(fd.host.disk))
    ensures fd.host.faults >= old(fd.host.faults) && -TWO_TO_THE_31 <= fd.pos <= MAX_POSITION
    ensures fd.ino in old(fd.host.disk) && turn == Turn(op, old(Now(fd)), report, turn.steps, Now(fd))
    ensures TurnHolds(fd.crypto, fd.ino, turn)
    ensures report.Performed? ==> fd.host.faults == old(fd.host.faults)
    ensures report.Performed? && old(fd.AllIntact()) ==> fd.AllIntact()
    ensures report.Failed? && old(fd.AllIntact()) ==> fd.host.faults > old(fd.host.faults)
  {
    hide Covered, Content, Whole, Tidy, OpenMeta, Committed, OnlyFile, CrashSafe, SlotSafe, OnlyInode, Crypto.Lawful, Stages,
      Apply, Commits;
    HandleFacts(fd);
    ghost var before, inStep := Now(fd), fd.InStep();
    ghost var stages := Stages(fd.View(), op);
    var outcome, faulted;
    ghost var steps;
    outcome, faulted, steps := Perform(fd, op);
    if inStep {
      CrashSafeSlots(fd.crypto, steps, fd.ino, stages);
    }
    HandleFacts(fd);
    report := if faulted then Failed else Performed(outcome);
    turn := Turn(op, before, report, steps, Now(fd));
  }

  /** No read is made from a negative cursor that would end before zero. */
  ghost predicate ReadsKept(file: FlatFile, ops: seq<Op>) {
    forall n | 0 <= n < |ops| && ops[n].Read? :: Readable(Run(file, ops[..n]).pos, ops[n].len)
  }

  /** Operation `n` of the run goes through with a commit. */
  ghost predicate CommitsAt(file: FlatFile, ops: seq<Op>, n: int) {
    0 <= n < |ops| && Commits(Run(file, ops[..n]), ops[n])
  }

  /** From the end of every operation that commits, or from the start of the run if the handle was in
      step then, all steps are crash safe; `marks[n]` is the number of steps of the first `n` operations. */
  ghost predicate SafeFromCommits(crypto: Crypto, steps: seq<Step>, ino: Inode, allowed: set<seq<byte>>,
                                  marks: seq<nat>, inStep: bool, file: FlatFile, ops: seq<Op>) {
    && |marks| > 0 && marks[0] == 0
    && (inStep ==> CrashSafe(crypto, steps, ino, allowed))
    && forall n | 0 <= n < |marks| - 1 && CommitsAt(file, ops, n) ::
         marks[n + 1] <= |steps| && CrashSafe(crypto, steps[marks[n + 1]..], ino, allowed)
  }

  lemma SafeStart(crypto: Crypto, ino: Inode, allowed: set<seq<byte>>, inStep: bool, file: FlatFile, ops: seq<Op>)
    ensures SafeFromCommits(crypto, [], ino, allowed, [0], inStep, file, ops)
  {
    NothingIsCrashSafe(crypto, ino, allowed);
  }

  /** The steps of one more operation keep that, if they are crash safe whenever the handle was in step. */
  lemma SafeMore(crypto: Crypto, steps: seq<Step>, more: seq<Step>, ino: Inode, allowed: set<seq<byte>>,
                 stages: set<seq<byte>>, marks: seq<nat>, inStep: bool, file: FlatFile, ops: seq<Op>, settled: bool)
    requires SafeFromCommits(crypto, steps, ino, allowed, marks, inStep, file, ops) && stages <= allowed
    requires settled ==> CrashSafe(crypto, more, ino, stages)
    requires inStep || (exists n :: n < |marks| - 1 && CommitsAt(file, ops, n)) ==> settled
    ensures SafeFromCommits(crypto, steps + more, ino, allowed, marks, inStep, file, ops)
    ensures SafeFromCommits(crypto, steps + more, ino, allowed, marks + [|steps + more|], inStep, file, ops)
  {
    hide CrashSafe, CommitsAt;
    if inStep {
      SafeConcat(crypto, steps, more, ino, allowed, stages);
    }
    forall n | 0 <= n < |marks| - 1 && CommitsAt(file, ops, n)
      ensures marks[n + 1] <= |steps + more| && CrashSafe(crypto, (steps + more)[marks[n + 1]..], ino, allowed)
    {
      var m := marks[n + 1];
      SafeConcat(crypto, steps[m..], more, ino, allowed, stages);
      assert (steps + more)[m..] == steps[m..] + more;
    }
    NothingIsCrashSafe(crypto, ino, allowed);
    assert (steps + more)[|steps + more|..] == [];
  }

  lemma SafeConcat(crypto: Crypto, steps: seq<Step>, more: seq<Step>, ino: Inode, allowed: set<seq<byte>>,
                   stages: set<seq<byte>>)
    requires CrashSafe(crypto, steps, ino, allowed) && CrashSafe(crypto, more, ino, stages) && stages <= allowed
    ensures CrashSafe(crypto, steps + more, ino, allowed)
  {
    CrashSafeConcat(crypto, steps, more, ino, allowed, stages);
    CrashSafeWiden(crypto, steps + more, ino, allowed + stages, allowed);
  }

  /** How many operations were performed before the first that failed. */
  function Unfailed(reports: seq<Report>): (k: nat)
    ensures k <= |reports| && (k < |reports| ==> reports[k].Failed?)
    ensures forall i | 0 <= i < k :: reports[i].Performed?
  {
    if reports == [] then 0 else
      var earlier := Unfailed(reports[..|reports| - 1]);
      if earlier == |reports| - 1 && reports[|reports| - 1].Performed? then |reports| else earlier
  }

  /** What those operations reported. */
  function OutcomesOf(reports: seq<Report>): (outcomes: seq<Outcome>)
    ensures |outcomes| == Unfailed(reports)
  {
    if reports == [] then [] else
      var last := reports[|reports| - 1];
      OutcomesOf(reports[..|reports| - 1]) + if Unfailed(reports) == |reports| then [last.outcome] else []
  }

  lemma OneMoreReport(reports: seq<Report>, report: Report)
    ensures var k, k' := Unfailed(reports), Unfailed(reports + [report]);
      && k' == (if k == |reports| && report.Performed? then k + 1 else k)
      && OutcomesOf(reports + [report])
         == OutcomesOf(reports) + if k == |reports| && report.Performed? then [report.outcome] else []
  {
    assert (reports + [report])[..|reports|] == reports;
  }

  /** The turns up to and including the first failure. */
  function UntilFailure(turns: seq<Turn>, reports: seq<Report>): seq<Turn>
    requires |turns| == |reports|
  {
    turns[..Min(Unfailed(reports) + 1, |turns|)]
  }

  lemma OneMoreTurn(turns: seq<Turn>, reports: seq<Report>, turn: Turn, report: Report)
    requires |turns| == |reports|
    ensures AllSteps(turns + [turn]) == AllSteps(turns) + turn.steps
    ensures AllSteps(UntilFailure(turns + [turn], reports + [report]))
         == if Unfailed(reports) == |reports| then AllSteps(turns) + turn.steps else AllSteps(UntilFailure(turns, reports))
  {
    var more := turns + [turn];
    OneMoreReport(reports, report);
    assert more[..|turns|] == turns && more[..|more|] == more;
    if Unfailed(reports) < |reports| {
      assert UntilFailure(more, reports + [report]) == UntilFailure(turns, reports);
    } else {
      assert UntilFailure(more, reports + [report]) == more;
    }
  }

  /** The turns make up the run: each operation with its report, from `first` to `last`. */
  ghost predicate Traces(turns: seq<Turn>, ops: seq<Op>, reports: seq<Report>, first: Moment, last: Moment) {
    && |turns| == |reports| <= |ops|
    && (forall n | 0 <= n < |turns| :: turns[n].op == ops[n] && turns[n].report == reports[n])
    && (if turns == [] then last == first else turns[0].before == first && turns[|turns| - 1].after == last)
  }

  lemma TraceMore(crypto: Crypto, ino: Inode, turns: seq<Turn>, ops: seq<Op>, reports: seq<Report>, first: Moment,
                  last: Moment, turn: Turn)
    requires AllHold(crypto, ino, turns) && Traces(turns, ops, reports, first, last) && |turns| < |ops|
    requires TurnHolds(crypto, ino, turn) && turn.op == ops[|turns|] && turn.before == last
    ensures AllHold(crypto, ino, turns + [turn])
    ensures Traces(turns + [turn], ops, reports + [turn.report], first, turn.after)
  {
    hide TurnHolds;
  }

  lemma TraceIsSafe(crypto: Crypto, ino: Inode, turns: seq<Turn>, ops: seq<Op>, reports: seq<Report>, first: Moment,
                    last: Moment)
    requires AllHold(crypto, ino, turns) && Traces(turns, ops, reports, first, last)
    ensures Agrees(crypto, first) && KeepsCounter(crypto, turns) ==>
      && SlotSafe(crypto, AllSteps(turns), ino)
      && CrashSafe(crypto, AllSteps(turns), ino, PassedBy(crypto, ino, turns))
  {
    hide TurnHolds, CrashSafe, SlotSafe, Agrees, SameCounter;
    if Agrees(crypto, first) && KeepsCounter(crypto, turns) {
      SafeThroughFailures(crypto, ino, turns);
    }
  }

  /** After every operation but the last, opening the file finds the counter of the handle. */
  ghost predicate KeepsCounter(crypto: Crypto, turns: seq<Turn>) {
    forall n | 0 <= n < |turns| - 1 :: SameCounter(crypto, turns[n].after)
  }

  lemma NothingTraced(crypto: Crypto, ino: Inode, ops: seq<Op>, now: Moment)
    ensures AllHold(crypto, ino, []) && Traces([], ops, [], now, now)
    ensures Unfailed([]) == 0 && OutcomesOf([]) == [] && AllSteps([]) == [] && UntilFailure([], []) == []
  {
  }

  /** A whole run, which goes on after failures. Every operation holds what `TurnHolds` says. Starting in
      step, as long as the counter on the disk is that of the handle, all raw writes of the run spare what is
      live on the disk at that moment, and a crash anywhere shows one of the contents passed through.

      Up to the first failure the run refines the plain file: every operation reports what it would on one
      byte sequence with a cursor, and if none fails that is what the handle shows at the end; from the first
      commit on, and in the failing operation too, a crash shows one of the contents that file goes through.
      No operation fails unless the host, memory or the cipher does. The run ends early only before a read
      from a negative cursor that would end before zero. */
  method PerformAll(fd: TeeFsFd, ops: seq<Op>)
      returns (reports: seq<Report>, ghost turns: seq<Turn>, ghost marks: seq<nat>)
    requires fd.Valid() && -TWO_TO_THE_31 <= fd.pos <= MAX_POSITION
    requires forall k | 0 <= k < |ops| :: InRange(ops[k])
    modifies fd, fd.host
    ensures fd.Valid() && OnlyInode(old(fd.host.disk), fd.host.disk, fd.ino) && fd.host.dir == old(fd.host.dir)
    ensures fd.ino in old(fd.host.disk) && fd.ino in fd.host.disk
    ensures fd.host.faults >= old(fd.host.faults) && -TWO_TO_THE_31 <= fd.pos <= MAX_POSITION
    ensures AllHold(fd.crypto, fd.ino, turns) && Traces(turns, ops, reports, old(Now(fd)), Now(fd))
    ensures fd.host.log == old(fd.host.log) + AllSteps(turns)
    ensures OnlyFile(AllSteps(turns), fd.ino, fd.host.dir, old(fd.host.disk))
    ensures |reports| == |turns| <= |ops|
    ensures |reports| < |ops| ==> ops[|reports|].Read? && !Readable(fd.pos, ops[|reports|].len)
    ensures old(fd.InStep()) && KeepsCounter(fd.crypto, turns) ==>
      && SlotSafe(fd.crypto, AllSteps(turns), fd.ino)
      && CrashSafe(fd.crypto, AllSteps(turns), fd.ino, PassedBy(fd.crypto, fd.ino, turns))
    ensures old(fd.AllTidy()) ==> fd.AllTidy()
    ensures OutcomesOf(reports) == Outcomes(old(fd.View()), ops[..Unfailed(reports)])
    ensures Unfailed(reports) == |reports| ==>
      && fd.View() == Run(old(fd.View()), ops[..|reports|])
      && (old(fd.AllIntact()) ==> fd.AllIntact())
      && (old(fd.InStep()) || (exists n :: n < |reports| && CommitsAt(old(fd.View()), ops, n)) ==> fd.InStep())
    ensures old(fd.AllIntact()) && fd.host.faults == old(fd.host.faults) ==>
      Unfailed(reports) == |reports| && (ReadsKept(old(fd.View()), ops) ==> |reports| == |ops|)
    ensures |marks| == Unfailed(reports) + 1
    ensures SafeFromCommits(fd.crypto, AllSteps(UntilFailure(turns, reports)), fd.ino, RunStages(old(fd.View()), ops), marks,
                            old(fd.InStep()), old(fd.View()), ops)
  {
    hide Covered, Content, Whole, Tidy, OpenMeta, Committed, OnlyFile, CrashSafe, SlotSafe, OnlyInode, Crypto.Lawful, Stages,
      RunStages, Outcomes, OutcomesOf, Unfailed, UntilFailure, Run, Apply, SafeFromCommits, Commits, AllHold, Traces, AllSteps,
      Readable;
    HandleFacts(fd);
    ghost var view, disk0, inStep, intact, tidy := fd.View(), fd.host.disk, fd.InStep(), fd.AllIntact(), fd.AllTidy();
    ghost var first := Now(fd);
    reports, turns, marks := [], [], [0];
    RunOfNothing(view);
    NothingElse(disk0, fd.ino);
    NoSteps(fd.crypto, fd.ino, fd.host.dir, disk0, RunStages(view, ops));
    NothingTraced(fd.crypto, fd.ino, ops, first);
    SafeStart(fd.crypto, fd.ino, RunStages(view, ops), inStep, view, ops);
    ghost var settled := inStep;
    var n := 0;
    assert ops[..0] == [];
    while n < |ops|
      invariant 0 <= n <= |ops| && |reports| == |turns| == n && |marks| == Unfailed(reports) + 1
      invariant fd.Valid() && fd.ino in fd.host.disk && -TWO_TO_THE_31 <= fd.pos <= MAX_POSITION
      invariant OnlyInode(disk0, fd.host.disk, fd.ino) && fd.host.dir == old(fd.host.dir)
      invariant fd.host.faults >= old(fd.host.faults) && (tidy ==> fd.AllTidy())
      invariant AllHold(fd.crypto, fd.ino, turns) && Traces(turns, ops, reports, first, Now(fd))
      invariant fd.host.log == old(fd.host.log) + AllSteps(turns) && OnlyFile(AllSteps(turns), fd.ino, fd.host.dir, disk0)
      invariant OutcomesOf(reports) == Outcomes(view, ops[..Unfailed(reports)])
      invariant Unfailed(reports) == n ==>
        && fd.View() == Run(view, ops[..n]) && (intact ==> fd.AllIntact()) && (settled ==> fd.InStep())
      invariant intact && Unfailed(reports) < n ==> fd.host.faults > old(fd.host.faults)
      invariant inStep || (exists k :: 0 <= k < Unfailed(reports) && CommitsAt(view, ops, k)) ==> settled
      invariant Unfailed(reports) == n ==> AllSteps(UntilFailure(turns, reports)) == AllSteps(turns)
      invariant SafeFromCommits(fd.crypto, AllSteps(UntilFailure(turns, reports)), fd.ino, RunStages(view, ops), marks, inStep,
                                view, ops)
    {
      if ops[n].Read? && !Readable(fd.pos, ops[n].len) {
        break;
      }
      ghost var before, disk, was, clean := fd.View(), fd.host.disk, fd.InStep(), Unfailed(reports) == n;
      ghost var last, steps := Now(fd), AllSteps(turns);
      var report;
      ghost var turn;
      report, turn := TakeTurn(fd, ops[n]);
      OneMoreReport(reports, report);
      OneMoreTurn(turns, reports, turn, report);
      TraceMore(fd.crypto, fd.ino, turns, ops, reports, first, last, turn);
      OneMoreOp(view, ops, n);
      OnlyFileConcat(steps, turn.steps, fd.ino, fd.host.dir, disk0, disk);
      OnlyInodeTransitive(disk0, disk, fd.host.disk, fd.ino);
      if clean {
        StagesGrow(view, ops, n + 1);
        SafeMore(fd.crypto, steps, turn.steps, fd.ino, RunStages(view, ops), Stages(before, ops[n]), marks, inStep, view, ops,
                 was);
        if report.Performed? {
          marks := marks + [|steps + turn.steps|];
          settled := settled || CommitsAt(view, ops, n);
        }
      }
      reports, turns := reports + [report], turns + [turn];
      n := n + 1;
    }
    TraceIsSafe(fd.crypto, fd.ino, turns, ops, reports, first, Now(fd));
    assert n == |ops| ==> ops[..n] == ops;
  }

  const EMPTY := FlatFile([], 0)

  /** A run seen as done only if all of it was performed. */
  method RunThrough(fd: TeeFsFd, ops: seq<Op>) returns (done: bool, outcomes: seq<Outcome>)
    requires fd.Valid() && -TWO_TO_THE_31 <= fd.pos <= MAX_POSITION
    requires (forall k | 0 <= k < |ops| :: InRange(ops[k])) && ReadsKept(fd.View(), ops)
    modifies fd, fd.host
    ensures fd.Valid() && OnlyInode(old(fd.host.disk), fd.host.disk, fd.ino) && fd.host.dir == old(fd.host.dir)
    ensures fd.host.faults >= old(fd.host.faults) && fd.ino in fd.host.disk
    ensures done ==>
      && outcomes == Outcomes(old(fd.View()), ops) && fd.View() == Run(old(fd.View()), ops)
      && (old(fd.AllIntact()) ==> fd.AllIntact())
      && (old(fd.InStep()) || (exists n :: CommitsAt(old(fd.View()), ops, n)) ==> fd.InStep())
    ensures old(fd.AllIntact()) && fd.host.faults == old(fd.host.faults) ==> done
  {
    hide TeeFsFd.Valid, TeeFsFd.Contents, TeeFsFd.InStep, TeeFsFd.AllIntact, TeeFsFd.AllTidy, Run, Outcomes, SafeFromCommits,
      SlotSafe, CrashSafe, AllHold, Traces, AllSteps, UntilFailure, Unfailed, OutcomesOf, ReadsKept, Readable, KeepsCounter,
      PassedBy, RunStages, OnlyFile, OnlyInode;
    var reports;
    ghost var turns, marks;
    reports, turns, marks := PerformAll(fd, ops);
    done, outcomes := Unfailed(reports) == |ops|, OutcomesOf(reports);
    assert ops[..|ops|] == ops;
  }

  /** Create, run, open again, run again. If nothing fails and the first run commits at least once, both
      runs report what they would on one plain file, cursor at zero in between, and the second handle shows
      what that file then holds. */
  method CreateRunOpenRun(host: Host, crypto: Crypto, file: string, ops: seq<Op>, later: seq<Op>)
      returns (fd: TeeFsFd?, outcomes: seq<Outcome>, laterOutcomes: seq<Outcome>)
    requires host.Valid() && crypto.Lawful() && file !in host.dir && file != "" && |file| + 1 <= TEE_FS_NAME_MAX
    requires (forall op | op in ops + later :: InRange(op)) && (exists n :: CommitsAt(EMPTY, ops, n))
    requires ReadsKept(EMPTY, ops) && ReadsKept(FlatFile(Run(EMPTY, ops).content, 0), later)
    modifies host
    ensures host.faults == old(host.faults) ==> fd != null
    ensures fd != null ==>
      var content := Run(EMPTY, ops).content;
      && outcomes == Outcomes(EMPTY, ops) && laterOutcomes == Outcomes(FlatFile(content, 0), later)
      && fd.Valid() && fd.View() == Run(FlatFile(content, 0), later) && fd.InStep() && fd.AllIntact()
  {
    hide TeeFsFd.Valid, TeeFsFd.Contents, TeeFsFd.InStep, TeeFsFd.AllIntact, Run, Outcomes,
      OnlyFile, OnlyInode, WellLinked, CommitsAt, Reopen, WholeFile, Uncommitted, SameElsewhere, OthersSafe, ReadsKept,
      Crypto.Lawful;
    fd, outcomes, laterOutcomes := null, [], [];
    assert forall k | 0 <= k < |ops| :: ops[k] == (ops + later)[k];
    assert forall k | 0 <= k < |later| :: later[k] == (ops + later)[|ops| + k];
    var res, created;
    ghost var making, begun, faults;
    res, created, making, begun, faults := Create(host, crypto, file);
    if res != Success {
      return;
    }
    ghost var disk := host.disk;
    var done;
    done, outcomes := RunThrough(created, ops);
    if !done {
      return;
    }
    HandleFacts(created);
    InStepReopens(created);
    StillLinked(host.dir, disk, host.disk, created.ino);
    var reopened;
    res, reopened := Open(host, crypto, file);
    if res != Success {
      return;
    }
    done, laterOutcomes := RunThrough(reopened, later);
    if done {
      fd := reopened;
    }
  }

  lemma StillLinked(dir: Directory, disk0: Disk, disk: Disk, ino: Inode)
    requires WellLinked(dir, disk0) && OnlyInode(disk0, disk, ino)
    ensures WellLinked(dir, disk)
  {
  }

  lemma RunOfNothing(file: FlatFile)
    ensures Run(file, []) == file && Outcomes(file, []) == []
  {
  }

  lemma {:induction false} StagesGrow(file: FlatFile, ops: seq<Op>, n: nat)
    requires n <= |ops|
    ensures RunStages(file, ops[..n]) <= RunStages(file, ops)
    decreases |ops|
  {
    if n < |ops| {
      var earlier := ops[..|ops| - 1];
      StagesGrow(file, earlier, n);
      assert earlier[..n] == ops[..n];
    } else {
      assert ops[..n] == ops;
    }
  }
}
