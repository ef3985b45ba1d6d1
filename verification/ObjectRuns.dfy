/** Whole runs over one open object: the two layers together behave as one data stream. */
module ObjectRuns {
  import opened Bytes
  import opened TeeResult
  import opened HostFs
  import opened KeyManager
  import opened ReeLayout
  import opened ReeCommit
  import opened FlatFile
  import opened ReeFs
  import opened ReeRuns
  import opened StorageObject

  /** Where a seek would put the data position. */
  function StreamTarget(stream: FlatFile, offset: int, whence: Whence): int {
    match whence
    case SeekSet => offset
    case SeekCur => stream.pos + offset
    case SeekEnd => |stream.content| + offset
  }

  /** The arguments are in range, and a seek lands in the data, below 2^31. */
  predicate LandsInData(base: nat, stream: FlatFile, op: Op) {
    && InRange(op)
    && (op.Seek? ==> 0 <= StreamTarget(stream, op.offset, op.whence) < TWO_TO_THE_31 - base)
    && (op.Truncate? ==> base + op.length < TWO_TO_THE_63)
  }

  /** What an operation does to the data stream of an object whose head and attributes take `base`
      bytes; those count towards the size limit. */
  function StreamApply(base: nat, stream: FlatFile, op: Op): (FlatFile, Outcome) {
    var FlatFile(content, pos) := stream;
    match op
    case Read(len) => Apply(stream, op)
    case Write(bytes) =>
      if bytes != [] && (pos < 0 || base + pos + |bytes| > MAX_FILE_SIZE) then (stream, Refused)
      else (FlatFile(DataWritten(content, pos, bytes), pos + |bytes|), Done)
    case Seek(offset, whence) => (FlatFile(content, StreamTarget(stream, offset, whence)), Done)
    case Truncate(length) =>
      if base + length > MAX_FILE_SIZE then (stream, Refused) else (FlatFile(Resize(content, length), pos), Done)
  }

  /** One operation on the stream, byte by byte. Only what would make the file too long is refused. */
  lemma OneStreamOp(base: nat, stream: FlatFile, op: Op)
    requires stream.pos >= 0 && LandsInData(base, stream, op)
    ensures var (after, outcome) := StreamApply(base, stream, op);
      var content, pos := stream.content, stream.pos;
      var puts, cuts := op.Write? && op.bytes != [] && outcome.Done?, op.Truncate? && outcome.Done?;
      && (outcome.Refused? <==>
            || (op.Write? && op.bytes != [] && base + pos + |op.bytes| > MAX_FILE_SIZE)
            || (op.Truncate? && base + op.length > MAX_FILE_SIZE))
      && |after.content| == (if puts then Max(|content|, pos + |op.bytes|) else if cuts then op.length else |content|)
      && (forall i | 0 <= i < |after.content| ::
            after.content[i] == if puts && pos <= i < pos + |op.bytes| then op.bytes[i - pos]
                                else if i < |content| then content[i] else 0)
      && (op.Read? <==> outcome.Got?)
      && (op.Read? ==>
            && |outcome.bytes| == Max(0, Min(op.len, |content| - pos))
            && (forall i | 0 <= i < |outcome.bytes| :: outcome.bytes[i] == content[pos + i]))
      && after.pos == match op
           case Read(len) => pos + |outcome.bytes|
           case Write(bytes) => if outcome.Refused? then pos else pos + |bytes|
           case Truncate(_) => pos
           case Seek(offset, whence) =>
             (match whence
              case SeekSet => offset
              case SeekCur => pos + offset
              case SeekEnd => |content| + offset)
  {
  }

  function StreamRun(base: nat, stream: FlatFile, ops: seq<Op>): FlatFile {
    if ops == [] then stream else StreamApply(base, StreamRun(base, stream, ops[..|ops| - 1]), ops[|ops| - 1]).0
  }

  function StreamOutcomes(base: nat, stream: FlatFile, ops: seq<Op>): (outcomes: seq<Outcome>)
    ensures |outcomes| == |ops|
  {
    if ops == [] then [] else
      var earlier := ops[..|ops| - 1];
      StreamOutcomes(base, stream, earlier) + [StreamApply(base, StreamRun(base, stream, earlier), ops[|ops| - 1]).1]
  }

  ghost predicate StaysInData(base: nat, stream: FlatFile, ops: seq<Op>) {
    forall n | 0 <= n < |ops| :: LandsInData(base, StreamRun(base, stream, ops[..n]), ops[n])
  }

  /** No operation cuts the stream, and nothing empty is written past its end. */
  ghost predicate OnlyGrows(base: nat, stream: FlatFile, ops: seq<Op>) {
    forall n | 0 <= n < |ops| :: Grows(StreamRun(base, stream, ops[..n]), ops[n])
  }

  predicate Grows(stream: FlatFile, op: Op) {
    !op.Truncate? && (op.Write? && op.bytes == [] ==> stream.pos <= |stream.content|)
  }

  /** The data stream and the data position of an open object. */
  ghost function StreamOf(o: TeeObj): FlatFile
    requires o.Valid()
    reads o, o.fh, if o.fh == null then {} else {o.fh.host}
  {
    FlatFile(Stream(o.fh.Contents(), o.Base()), o.dataPosition)
  }

  /** What an object is, as no operation on its data changes it. */
  datatype Info = Info(objectType: uint32, maxObjectSize: uint32, objectUsage: uint32, haveAttrs: uint32, attr: seq<byte>)

  function InfoOf(o: TeeObj): Info
    reads o
  {
    Info(o.objectType, o.maxObjectSize, o.objectUsage, o.haveAttrs, o.attr)
  }

  /** The contents of the file an operation passes through. */
  function Passed(content: seq<byte>, base: nat, dataPosition: uint64, dataSize: uint64, op: Op): set<seq<byte>>
    requires HEAD_SIZE <= |content|
  {
    if op.Write? && (op.bytes == [] || base + dataPosition + |op.bytes| <= MAX_FILE_SIZE) then
      ObjectWriteStages(content, base + dataPosition, dataPosition, op.bytes, dataSize)
    else if op.Truncate? && base + op.length <= MAX_FILE_SIZE then {content, Resize(content, base + op.length)}
    else {content}
  }

  /** What an operation makes the data stream pass through. */
  function StreamStages(base: nat, stream: FlatFile, op: Op): (stages: set<seq<byte>>)
    ensures stream.content in stages
  {
    var FlatFile(content, pos) := stream;
    if op.Write? && op.bytes != [] && 0 <= pos && base + pos + |op.bytes| <= MAX_FILE_SIZE then
      {content, Reaching(content, pos), Written(content, pos, op.bytes)}
    else if op.Truncate? && base + op.length <= MAX_FILE_SIZE then {content, Resize(content, op.length)}
    else {content}
  }

  lemma StreamStagesAre(base: nat, stream: FlatFile, op: Op, stage: seq<byte>)
    requires stage in StreamStages(base, stream, op)
    ensures var FlatFile(content, pos) := stream;
      || stage == content
      || (op.Truncate? && |stage| == op.length
          && forall i | 0 <= i < |stage| :: stage[i] == if i < |content| then content[i] else 0)
      || (op.Write? && pos > |content| && stage == content + Zeros(pos - |content|))
      || (op.Write? && pos >= 0 && |stage| == Max(|content|, pos + |op.bytes|)
          && forall i | 0 <= i < |stage| ::
               stage[i] == if pos <= i < pos + |op.bytes| then op.bytes[i - pos] else if i < |content| then content[i] else 0)
  {
    if op.Write? && stream.pos >= 0 {
      WrittenAt(stream.content, stream.pos, op.bytes);
    }
    hide Written;
  }

  function StreamRunStages(base: nat, stream: FlatFile, ops: seq<Op>): set<seq<byte>> {
    if ops == [] then {stream.content} else
      var earlier := ops[..|ops| - 1];
      StreamRunStages(base, stream, earlier) + StreamStages(base, StreamRun(base, stream, earlier), ops[|ops| - 1])
  }

  /** The file still starts with the head and attributes it had, size aside, and the data behind them is
      one of these stages. */
  ghost predicate KeepsObject(content: seq<byte>, after: seq<byte>, base: nat, stages: set<seq<byte>>) {
    HeadKept(content, after, base) && Stream(after, base) in stages
  }

  lemma PassedKeepsObject(content: seq<byte>, base: nat, dataPosition: uint64, dataSize: uint64, op: Op)
    requires HEAD_SIZE <= base <= |content| && dataPosition < TWO_TO_THE_31
    ensures forall after | after in Passed(content, base, dataPosition, dataSize, op) ::
      KeepsObject(content, after, base, StreamStages(base, FlatFile(Stream(content, base), dataPosition), op))
  {
    hide Written, Reaching, Resize, ObjectWritten, HeadKept, Stream;
    HeadKeptSelf(content, base);
    if op.Write? && (op.bytes == [] || base + dataPosition + |op.bytes| <= MAX_FILE_SIZE) {
      ObjectWriteKeepsHead(content, base, dataPosition, op.bytes, dataSize);
      DataKeepsHead(content, base, dataPosition, op.bytes);
    } else if op.Truncate? {
      StreamResized(content, base, op.length);
    }
  }

  lemma DataKeepsHead(content: seq<byte>, base: nat, dataPosition: nat, data: seq<byte>)
    requires base <= |content|
    ensures var reaching, written := Reaching(content, base + dataPosition), DataWritten(content, base + dataPosition, data);
      && HeadKept(content, reaching, base) && Stream(reaching, base) == Reaching(Stream(content, base), dataPosition)
      && HeadKept(content, written, base) && Stream(written, base) == DataWritten(Stream(content, base), dataPosition, data)
  {
    DataOnStream(content, base, dataPosition, data);
    var reaching, written := Reaching(content, base + dataPosition), DataWritten(content, base + dataPosition, data);
    hide DataWritten;
    assert forall i | 0 <= i < base :: written[i] == written[..base][i] == content[..base][i];
    if |content| < base + dataPosition {
      StreamResized(content, base, dataPosition);
    }
  }

  lemma PassedCovered(content: seq<byte>, base: nat, dataPosition: uint64, dataSize: uint64, op: Op)
    requires DsCovered(content, base) && InRange(op) && dataPosition < TWO_TO_THE_31
    requires Grows(FlatFile(Stream(content, base), dataPosition), op)
    ensures forall stage | stage in Passed(content, base, dataPosition, dataSize, op) :: DsCovered(stage, base)
  {
    hide ObjectWriteStages, DsCovered;
    if op.Write? && (op.bytes == [] || base + dataPosition + |op.bytes| <= MAX_FILE_SIZE) {
      DsStaysCovered(content, base, dataPosition, op.bytes, dataSize);
    }
  }

  /** Cutting an object's data keeps the size on disk covered exactly when that size is no more than
      what is kept. */
  lemma TruncCoveredExactly(content: seq<byte>, base: nat, len: nat)
    requires HEAD_SIZE <= base <= |content|
    ensures DsCovered(Resize(content, base + len), base) <==> WordAt(content, DS_SIZE_OFFSET) <= len
  {
    hide WordAt;
    SameWord(content, Resize(content, base + len), DS_SIZE_OFFSET);
  }

  /** Bytes before the data that an operation may not touch: all but the size. */
  predicate HeadKept(content: seq<byte>, after: seq<byte>, base: nat) {
    && base <= |content| && base <= |after|
    && forall i | 0 <= i < base && !(DS_SIZE_OFFSET <= i < DS_SIZE_OFFSET + 4) :: after[i] == content[i]
  }

  lemma StreamResized(content: seq<byte>, base: nat, len: nat)
    requires base <= |content|
    ensures Stream(Resize(content, base + len), base) == Resize(Stream(content, base), len)
    ensures HeadKept(content, Resize(content, base + len), base)
  {
    var after, stream := Resize(content, base + len), Stream(content, base);
    assert forall i | 0 <= i < len :: Stream(after, base)[i] == Resize(stream, len)[i];
  }

  /** An object write from an agreeing cursor, as far as the data stream and the head are concerned. */
  lemma ObjectWriteKeepsHead(content: seq<byte>, base: nat, dataPosition: uint64, data: seq<byte>, dataSize: uint64)
    requires HEAD_SIZE <= base <= |content| && dataPosition < TWO_TO_THE_31
    ensures data == [] || base + dataPosition + |data| <= MAX_FILE_SIZE ==>
      var after := ObjectWritten(content, base + dataPosition, dataPosition, data, dataSize);
      && |after| >= base && HeadKept(content, after, base)
      && Stream(after, base) == DataWritten(Stream(content, base), dataPosition, data)
      && Advanced(dataPosition, |data|) == dataPosition + |data|
      && after in ObjectWriteStages(content, base + dataPosition, dataPosition, data, dataSize)
  {
    hide Word, WordAt, DataWritten, ObjectWritten, Reaching;
    if data == [] || base + dataPosition + |data| <= MAX_FILE_SIZE {
      WriteIsOnStream(content, base, dataPosition, data, dataSize);
    }
  }

  /** A seek that lands in the data, as the file sees it. */
  lemma SeekLands(content: seq<byte>, base: nat, dataPosition: nat, offset: int, whence: Whence)
    requires base <= |content| && LandsInData(base, FlatFile(Stream(content, base), dataPosition), Op.Seek(offset, whence))
    ensures var target := StreamTarget(FlatFile(Stream(content, base), dataPosition), offset, whence);
      && 0 <= target && base + target < TWO_TO_THE_31 && (ToInt32(base + target) - base) % TWO_TO_THE_64 == target
      && base + target == (match whence
           case SeekSet => ToInt32(offset + base)
           case SeekCur => base + dataPosition + offset
           case SeekEnd => |content| + offset)
      && target == match whence
           case SeekSet => offset
           case SeekCur => dataPosition + offset
           case SeekEnd => |content| - base + offset
  {
  }

  /** A seek that lands in the data. */
  method SeekStep(o: TeeObj, offset: int, whence: Whence)
    requires o.Valid() && o.Synced() && LandsInData(o.Base(), StreamOf(o), Op.Seek(offset, whence))
    modifies o`dataPosition, o.fh`pos
    ensures o.Valid() && o.Synced() && o.fh.Contents() == old(o.fh.Contents())
    ensures o.dataPosition == match whence
      case SeekSet => offset
      case SeekCur => old(o.dataPosition) + offset
      case SeekEnd => |o.fh.Contents()| - o.Base() + offset
  {
    hide TeeFsFd.Valid, TeeFsFd.Contents, ToInt32;
    SeekLands(o.fh.Contents(), o.Base(), o.dataPosition, offset, whence);
    var res := o.Seek(offset, whence);
  }

  /** What an operation that takes effect, or does not, passes through and does to the stream. */
  lemma StepKnown(content: seq<byte>, base: nat, dataPosition: uint64, dataSize: uint64, op: Op)
    requires HEAD_SIZE <= base <= |content|
    ensures var passed, stream := Passed(content, base, dataPosition, dataSize, op), FlatFile(Stream(content, base), dataPosition);
      && |stream.content| == |content| - base
      && match op
      case Read(_) => passed == {content} && StreamApply(base, stream, op) == Apply(stream, op)
      case Write(bytes) =>
        if bytes != [] && base + dataPosition + |bytes| > MAX_FILE_SIZE then
          passed == {content} && StreamApply(base, stream, op) == (stream, Refused)
        else
          && passed == ObjectWriteStages(content, base + dataPosition, dataPosition, bytes, dataSize)
          && StreamApply(base, stream, op)
             == (FlatFile(DataWritten(stream.content, dataPosition, bytes), dataPosition + |bytes|), Done)
      case Seek(offset, whence) =>
        passed == {content}
        && StreamApply(base, stream, op) == (FlatFile(stream.content, StreamTarget(stream, offset, whence)), Done)
      case Truncate(length) =>
        if base + length > MAX_FILE_SIZE then passed == {content} && StreamApply(base, stream, op) == (stream, Refused)
        else
          && passed == {content, Resize(content, base + length)}
          && StreamApply(base, stream, op) == (FlatFile(Resize(stream.content, length), dataPosition), Done)
  {
  }

  /** One operation on the object. */
  method ObjectStep(o: TeeObj, op: Op) returns (outcome: Outcome, faulted: bool, ghost steps: seq<Step>)
    requires o.Valid() && o.Synced() && o.canRead && o.canWrite && LandsInData(o.Base(), StreamOf(o), op)
    modifies o, o.fh, o.fh.host
    ensures InfoOf(o) == old(InfoOf(o))
    ensures var fd := old(o.fh);
      && fd.Valid() && OnlyInode(old(o.fh.host.disk), fd.host.disk, fd.ino) && fd.host.dir == old(o.fh.host.dir)
      && fd.host.log == old(o.fh.host.log) + steps && OnlyFile(steps, fd.ino, fd.host.dir, old(o.fh.host.disk))
      && fd.host.faults >= old(o.fh.host.faults)
      && (old(o.fh.AllIntact()) && faulted ==> fd.host.faults > old(o.fh.host.faults))
      && (!faulted ==>
            && o.fh == fd && fd.host.faults == old(o.fh.host.faults)
            && o.Valid() && o.Synced() && o.canRead && o.canWrite
            && (StreamOf(o), outcome) == StreamApply(o.Base(), old(StreamOf(o)), op)
            && (op.Seek? ==>
                  o.dataPosition == match op.whence
                    case SeekSet => op.offset
                    case SeekCur => old(o.dataPosition) + op.offset
                    case SeekEnd => old(|o.fh.Contents()| - o.Base()) + op.offset)
            && HeadKept(old(o.fh.Contents()), fd.Contents(), o.Base())
            && fd.Contents() in Passed(old(o.fh.Contents()), old(o.Base()), old(o.dataPosition), old(o.dataSize), op)
            && (old(o.fh.AllIntact()) ==> fd.AllIntact()) && (old(o.fh.InStep()) ==> fd.InStep()))
      && (old(o.fh.InStep()) ==>
            CrashSafe(fd.crypto, steps, fd.ino,
                      Passed(old(o.fh.Contents()), old(o.Base()), old(o.dataPosition), old(o.dataSize), op)))
  {
    hide TeeFsFd.Valid, TeeFsFd.AllIntact, TeeFsFd.AllTidy, TeeFsFd.InStep, TeeFsFd.CounterOnDisk, TeeFsFd.Contents,
      OnlyFile, CrashSafe, OnlyInode, WithDsSize, DataWritten, ObjectWritten, ObjectWriteStages, WriteStages, Apply,
      Resize, HeadKept, Stream, Slice, Advanced, ToInt32;
    ghost var fd, content := o.fh, o.fh.Contents();
    var base := o.Base();
    HeadKeptSelf(content, base);
    HandleFacts(fd);
    StepKnown(content, base, o.dataPosition, o.dataSize, op);
    hide Passed, StreamApply;
    steps, faulted, outcome := [], false, Done;
    NothingElse(fd.host.disk, fd.ino);
    NoSteps(fd.crypto, fd.ino, fd.host.dir, fd.host.disk, Passed(content, base, o.dataPosition, o.dataSize, op));
    match op {
      case Read(len) =>
        ApplyRead(Stream(content, base), o.dataPosition, len);
        var res, data := o.Read(len);
        faulted, outcome := res != Success, Got(data);
      case Write(bytes) =>
        ghost var size, at := o.dataSize, o.dataPosition;
        ObjectWriteKeepsHead(content, base, at, bytes, size);
        outcome := if bytes != [] && base + o.dataPosition + |bytes| > MAX_FILE_SIZE then Refused else Done;
        var res;
        res, steps := o.Write(bytes);
        faulted := res != Success && outcome == Done;
      case Seek(offset, whence) =>
        SeekStep(o, offset, whence);
      case Truncate(length) =>
        StreamResized(content, base, length);
        var res;
        res, steps := o.Trunc(length);
        outcome := if base + length > MAX_FILE_SIZE then Refused else Done;
        faulted := res != Success && outcome == Done;
    }
  }

  lemma OneMoreStreamOp(base: nat, stream: FlatFile, ops: seq<Op>, n: nat)
    requires n < |ops|
    ensures StreamRun(base, stream, ops[..n + 1]) == StreamApply(base, StreamRun(base, stream, ops[..n]), ops[n]).0
    ensures StreamOutcomes(base, stream, ops[..n + 1])
         == StreamOutcomes(base, stream, ops[..n]) + [StreamApply(base, StreamRun(base, stream, ops[..n]), ops[n]).1]
  {
    assert ops[..n + 1][..n] == ops[..n];
  }

  lemma NoStreamOps(base: nat, stream: FlatFile)
    ensures StreamRun(base, stream, []) == stream && StreamOutcomes(base, stream, []) == []
  {
  }

  lemma HeadKeptTransitive(a: seq<byte>, b: seq<byte>, c: seq<byte>, base: nat)
    requires HeadKept(a, b, base) && HeadKept(b, c, base)
    ensures HeadKept(a, c, base)
  {
  }

  ghost predicate AllCovered(contents: set<seq<byte>>, base: nat) {
    forall content | content in contents :: DsCovered(content, base)
  }

  /** Every content shows the head and attributes of `content`, size aside, and a stage of the stream. */
  ghost predicate AllKeepObject(content: seq<byte>, contents: set<seq<byte>>, base: nat, stages: set<seq<byte>>) {
    forall after | after in contents :: KeepsObject(content, after, base, stages)
  }

  /** A whole run on an open object. The two layers together behave as one data stream with a position:
      every operation reports what it would on that stream, and if the run is not broken off, the stream at
      the end is the one it leads to, the attributes and all of the head but the size are as they were, and
      the file cursor still agrees with the data position. Unless something fails it is not broken off.
      Wherever it is cut off, the file shows one of the contents in `passed`: the same head and attributes,
      size aside, with the data stream as it was before, during or after one of the operations. If the
      stream only grows, none of them claims more data than there is. */
  method PerformOnObject(o: TeeObj, ops: seq<Op>)
      returns (outcomes: seq<Outcome>, ghost steps: seq<Step>, ghost passed: set<seq<byte>>)
    requires o.Valid() && o.Synced() && o.canRead && o.canWrite && StaysInData(o.Base(), StreamOf(o), ops)
    modifies o, o.fh, o.fh.host
    ensures InfoOf(o) == old(InfoOf(o))
    ensures var fd, base, stream := old(o.fh), old(o.Base()), old(StreamOf(o));
      && OnlyInode(old(o.fh.host.disk), fd.host.disk, fd.ino) && fd.host.dir == old(o.fh.host.dir)
      && fd.host.log == old(o.fh.host.log) + steps && OnlyFile(steps, fd.ino, fd.host.dir, old(o.fh.host.disk))
      && fd.host.faults >= old(o.fh.host.faults)
      && |outcomes| <= |ops| && outcomes == StreamOutcomes(base, stream, ops[..|outcomes|])
      && (|outcomes| == |ops| ==>
            && o.fh == fd && o.Valid() && o.Synced() && o.canRead && o.canWrite
            && StreamOf(o) == StreamRun(base, stream, ops)
            && HeadKept(old(o.fh.Contents()), fd.Contents(), base)
            && (old(o.fh.AllIntact()) ==> fd.AllIntact()) && (old(o.fh.InStep()) ==> fd.InStep()))
      && (old(o.fh.AllIntact()) && fd.host.faults == old(o.fh.host.faults) ==> |outcomes| == |ops|)
      && (old(o.fh.InStep()) ==> SlotSafe(fd.crypto, steps, fd.ino) && CrashSafe(fd.crypto, steps, fd.ino, passed))
      && AllKeepObject(old(o.fh.Contents()), passed, base, StreamRunStages(base, stream, ops))
      && (DsCovered(old(o.fh.Contents()), base) && OnlyGrows(base, stream, ops) ==> AllCovered(passed, base))
  {
    hide TeeFsFd.Valid, TeeFsFd.AllIntact, TeeFsFd.InStep, TeeFsFd.Contents, OnlyFile, CrashSafe, OnlyInode, DsCovered, Passed,
      StreamRun, StreamOutcomes, StreamApply, StreamStages, StreamRunStages, HeadKept, AllKeepObject, LandsInData, Grows,
      Stream, SlotSafe;
    HandleFacts(o.fh);
    ghost var fd, base, stream, content := o.fh, o.Base(), StreamOf(o), o.fh.Contents();
    ghost var disk0, inStep, intact := fd.host.disk, fd.InStep(), fd.AllIntact();
    ghost var covered := DsCovered(content, base) && OnlyGrows(base, stream, ops);
    ghost var allowed := StreamRunStages(base, stream, ops);
    outcomes, steps, passed := [], [], {};
    NoStreamOps(base, stream);
    NothingElse(disk0, fd.ino);
    NoSteps(fd.crypto, fd.ino, fd.host.dir, disk0, {});
    CrashSafeSlots(fd.crypto, steps, fd.ino, {});
    NothingKeepsObject(content, base, allowed);
    HeadKeptSelf(content, base);
    var n := 0;
    assert ops[..0] == [];
    while n < |ops|
      invariant 0 <= n <= |ops|
      invariant o.fh == fd && fd.ino in fd.host.disk && o.Valid() && o.Synced() && o.canRead && o.canWrite
      invariant InfoOf(o) == old(InfoOf(o)) && (intact ==> fd.AllIntact()) && (inStep ==> fd.InStep())
      invariant OnlyInode(disk0, fd.host.disk, fd.ino) && fd.host.dir == old(o.fh.host.dir)
      invariant fd.host.log == old(o.fh.host.log) + steps && OnlyFile(steps, fd.ino, fd.host.dir, disk0)
      invariant fd.host.faults == old(o.fh.host.faults)
      invariant outcomes == StreamOutcomes(base, stream, ops[..n]) && StreamOf(o) == StreamRun(base, stream, ops[..n])
      invariant HeadKept(content, fd.Contents(), base) && AllKeepObject(content, passed, base, allowed)
      invariant inStep ==> SlotSafe(fd.crypto, steps, fd.ino) && CrashSafe(fd.crypto, steps, fd.ino, passed)
      invariant covered ==> DsCovered(fd.Contents(), base) && AllCovered(passed, base)
    {
      ghost var was, disk := fd.Contents(), fd.host.disk;
      ghost var stages := Passed(was, base, o.dataPosition, o.dataSize, ops[n]);
      assert LandsInData(base, StreamRun(base, stream, ops[..n]), ops[n]);
      StepKeepsObject(o, ops[n]);
      StreamStagesGrow(base, stream, ops, n);
      KeepsObjectTransitive(content, was, passed, stages, base, StreamStages(base, StreamOf(o), ops[n]), allowed);
      if covered {
        assert Grows(StreamRun(base, stream, ops[..n]), ops[n]);
        StepCovered(o, ops[n]);
      }
      var outcome, faulted;
      ghost var more;
      outcome, faulted, more := ObjectStep(o, ops[n]);
      OneMoreStreamOp(base, stream, ops, n);
      OnlyFileConcat(steps, more, fd.ino, fd.host.dir, disk0, disk);
      OnlyInodeTransitive(disk0, disk, fd.host.disk, fd.ino);
      if inStep {
        CrashSafeConcat(fd.crypto, steps, more, fd.ino, passed, stages);
        CrashSafeSlots(fd.crypto, steps + more, fd.ino, passed + stages);
      }
      steps, passed := steps + more, passed + stages;
      if faulted {
        return;
      }
      HandleFacts(fd);
      HeadKeptTransitive(content, was, fd.Contents(), base);
      outcomes := outcomes + [outcome];
      n := n + 1;
    }
    assert ops[..n] == ops;
  }

  lemma NothingKeepsObject(content: seq<byte>, base: nat, stages: set<seq<byte>>)
    ensures AllKeepObject(content, {}, base, stages)
  {
  }

  lemma KeepsObjectTransitive(content: seq<byte>, was: seq<byte>, passed: set<seq<byte>>, more: set<seq<byte>>, base: nat,
                              stages: set<seq<byte>>, allowed: set<seq<byte>>)
    requires HeadKept(content, was, base) && AllKeepObject(content, passed, base, allowed)
    requires AllKeepObject(was, more, base, stages) && stages <= allowed
    ensures AllKeepObject(content, passed + more, base, allowed)
  {
    hide HeadKept;
    forall after | after in passed + more
      ensures KeepsObject(content, after, base, allowed)
    {
      if after !in passed {
        assert KeepsObject(was, after, base, stages);
        HeadKeptTransitive(content, was, after, base);
      }
    }
  }

  lemma StepKeepsObject(o: TeeObj, op: Op)
    requires o.Valid() && o.Synced()
    ensures AllKeepObject(o.fh.Contents(), Passed(o.fh.Contents(), o.Base(), o.dataPosition, o.dataSize, op), o.Base(),
                          StreamStages(o.Base(), StreamOf(o), op))
  {
    hide Passed, StreamStages, KeepsObject, TeeFsFd.Valid, TeeFsFd.Contents;
    PassedKeepsObject(o.fh.Contents(), o.Base(), o.dataPosition, o.dataSize, op);
  }

  lemma {:induction false} StreamStagesGrow(base: nat, stream: FlatFile, ops: seq<Op>, n: nat)
    requires n < |ops|
    ensures StreamStages(base, StreamRun(base, stream, ops[..n]), ops[n]) <= StreamRunStages(base, stream, ops)
    decreases |ops|
  {
    var earlier := ops[..|ops| - 1];
    if n < |earlier| {
      StreamStagesGrow(base, stream, earlier, n);
      assert earlier[..n] == ops[..n];
    }
  }

  lemma HeadKeptSelf(content: seq<byte>, base: nat)
    requires base <= |content|
    ensures HeadKept(content, content, base)
  {
  }

  lemma StepCovered(o: TeeObj, op: Op)
    requires o.Valid() && o.Synced() && LandsInData(o.Base(), StreamOf(o), op)
    requires DsCovered(o.fh.Contents(), o.Base()) && Grows(StreamOf(o), op)
    ensures AllCovered(Passed(o.fh.Contents(), o.Base(), o.dataPosition, o.dataSize, op), o.Base())
  {
    hide Passed, DsCovered, TeeFsFd.Valid, TeeFsFd.Contents;
    PassedCovered(o.fh.Contents(), o.Base(), o.dataPosition, o.dataSize, op);
  }

  // ----- From create to open -----

  /** A file whose head is kept, size aside, holds the same object with the same attributes. */
  lemma HeadKeptDecodes(content: seq<byte>, after: seq<byte>)
    requires HoldsObject(content) && HeadKept(content, after, HEAD_SIZE + DecodeHead(content).metaSize)
    ensures DecodeHead(after) == DecodeHead(content).(dsSize := DecodeHead(after).dsSize)
    ensures HoldsObject(after) && ObjectAttr(after) == ObjectAttr(content)
  {
    hide WordAt;
    forall offset | offset in {0, 4, 8, 16, 20, 24, 28, 32}
      ensures WordAt(after, offset) == WordAt(content, offset)
    {
      SameWord(content, after, offset);
    }
  }

  /** An object truncate cuts the file at a sum that wraps around. The file still holds an object, with
      the same head and attributes and as much of the stream as was asked for, exactly when it does not. */
  lemma TruncKeepsObject(content: seq<byte>, len: nat)
    requires HoldsObject(content) && len < TWO_TO_THE_64
    ensures var base := HEAD_SIZE + DecodeHead(content).metaSize;
      var after := Resize(content, (base + len) % TWO_TO_THE_64);
      && (HoldsObject(after) <==> base + len < TWO_TO_THE_64)
      && (HoldsObject(after) ==>
            && DecodeHead(after) == DecodeHead(content) && ObjectAttr(after) == ObjectAttr(content)
            && Stream(after, base) == Resize(Stream(content, base), len))
      && (!HoldsObject(after) ==> after == content[..base - (TWO_TO_THE_64 - len)])
  {
    hide WordAt;
    var base := HEAD_SIZE + DecodeHead(content).metaSize;
    var after := Resize(content, (base + len) % TWO_TO_THE_64);
    if |after| >= HEAD_SIZE {
      forall offset | offset in {0, 4, 8, 12, 16, 20, 24, 28, 32}
        ensures WordAt(after, offset) == WordAt(content, offset)
      {
        SameWord(content, after, offset);
      }
    }
    if base + len < TWO_TO_THE_64 {
      StreamResized(content, base, len);
    }
  }

  /** Create, run, open again, run again, on an object. If nothing fails, both runs report what they would
      on one data stream that starts as the initial data, position zero in between, and the object opened
      the second time carries what the first was created with. */
  method CreateRunOpenRunObject(host: Host, crypto: Crypto, id: ObjectId, overwrite: bool, source: Source, data: Buffer,
                                size: uint64, ops: seq<Op>, later: seq<Op>)
      returns (o: TeeObj?, outcomes: seq<Outcome>, laterOutcomes: seq<Outcome>)
    requires host.Valid() && crypto.Lawful() && (source.FromObject? ==> |source.attr| < TWO_TO_THE_32)
    requires data.Data? ==> |data.bytes| == size
    requires var file, tmpfile := CreateFilename(id, false), CreateFilename(id, true);
      tmpfile !in host.dir && (overwrite || file !in host.dir) && |tmpfile| + 1 <= TEE_FS_NAME_MAX
    requires var base := HEAD_SIZE + (if source.NoObject? then 0 else |source.attr|);
      var first := FlatFile(if data.Null? then [] else data.bytes[..size % TWO_TO_THE_32], 0);
      && base + |first.content| <= MAX_FILE_SIZE && StaysInData(base, first, ops)
      && StaysInData(base, FlatFile(StreamRun(base, first, ops).content, 0), later)
    modifies host
    ensures host.faults == old(host.faults) ==> o != null
    ensures o != null ==>
      var base := HEAD_SIZE + (if source.NoObject? then 0 else |source.attr|);
      var first := FlatFile(if data.Null? then [] else data.bytes[..size % TWO_TO_THE_32], 0);
      var second := FlatFile(StreamRun(base, first, ops).content, 0);
      && outcomes == StreamOutcomes(base, first, ops) && laterOutcomes == StreamOutcomes(base, second, later)
      && o.Valid() && o.Synced() && StreamOf(o) == StreamRun(base, second, later)
      && o.fh.InStep() && o.fh.AllIntact()
      && (source.NoObject? ==>
            && o.objectType == TEE_TYPE_DATA && o.maxObjectSize == o.objectUsage == o.haveAttrs == 0 && o.attr == [])
      && (source.FromObject? ==>
            && o.objectType == source.objectType && o.maxObjectSize == source.maxObjectSize
            && o.objectUsage == source.objectUsage && o.haveAttrs == source.haveAttrs && o.attr == source.attr)
  {
    hide TeeFsFd.Valid, TeeFsFd.Contents, TeeFsFd.InStep, TeeFsFd.AllIntact, StreamRun, StreamOutcomes, StreamRunStages,
      StaysInData, AllKeepObject, SlotSafe, CrashSafe, CreateSafe, OnlyFile, OnlyInode, WellLinked, Reopen, WholeFile, OpenMeta,
      DecodeHead, NewObject, HoldsObject, ObjectAttr, HeadKept, Stream, CreateFilename, Crypto.Lawful, DsCovered;
    o, outcomes, laterOutcomes := null, [], [];
    var file := CreateFilename(id, false);
    TemporaryName(id);
    var res, created;
    ghost var making, keySize, progress, faults, steps, passed;
    res, created, making, keySize, progress, faults := CreateObject(host, crypto, id, overwrite, source, data, size, true, true);
    NewObjectHolds(source, Kept(data, size % TWO_TO_THE_32), size % TWO_TO_THE_32, keySize);
    if res != Success {
      return;
    }
    ghost var disk, content := host.disk, created.fh.Contents();
    var fd := created.fh;
    outcomes, steps, passed := PerformOnObject(created, ops);
    if |outcomes| < |ops| {
      return;
    }
    assert ops[..|ops|] == ops && later[..|later|] == later;
    HandleFacts(fd);
    InStepReopens(fd);
    HeadKeptDecodes(content, fd.Contents());
    StillLinked(host.dir, disk, host.disk, fd.ino);
    var reopened;
    res, reopened := OpenObject(host, crypto, file, true, true);
    if res != Success {
      return;
    }
    laterOutcomes, steps, passed := PerformOnObject(reopened, later);
    if |laterOutcomes| == |later| {
      o := reopened;
    }
  }
}
