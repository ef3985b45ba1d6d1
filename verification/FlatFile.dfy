/** The plain file a secure storage file stands for: one byte sequence and a cursor. This is the
    specification the double-version store is proved against. */
module FlatFile {
  import opened Bytes

  /** MAX_FILE_SIZE of compat/mitee_compat/tee_ree_fs.c: 32 blocks of 256 bytes. */
  const MAX_FILE_SIZE := 8192
  /** TEE_DATA_MAX_POSITION of the GlobalPlatform TEE Internal Core API, section 5.2. */
  const MAX_POSITION := 0xFFFF_FFFF

  datatype Whence = SeekSet | SeekCur | SeekEnd

  datatype FlatFile = FlatFile(content: seq<byte>, pos: int)

  datatype Op =
    | Read(len: nat)
    | Write(bytes: seq<byte>)
    | Seek(offset: int, whence: Whence)
    | Truncate(length: nat)

  datatype Outcome = Done | Got(bytes: seq<byte>) | Refused

  /** `content` with `bytes` put at `from`, extending it if they reach past the end. */
  function Splice(content: seq<byte>, from: nat, bytes: seq<byte>): (spliced: seq<byte>)
    requires from <= |content|
    ensures |spliced| == Max(|content|, from + |bytes|)
  {
    content[..from] + bytes + (if from + |bytes| < |content| then content[from + |bytes|..] else [])
  }

  /** `content` cut or zero-extended to `length` bytes. */
  function Resize(content: seq<byte>, length: nat): (resized: seq<byte>)
    ensures |resized| == length
  {
    if length <= |content| then content[..length] else content + Zeros(length - |content|)
  }

  /** `content` reaching at least up to `pos`, the gap filled with zeros. */
  function Reaching(content: seq<byte>, pos: nat): (reaching: seq<byte>)
    ensures |reaching| == Max(|content|, pos)
  {
    if |content| < pos then Resize(content, pos) else content
  }

  function Written(content: seq<byte>, pos: nat, bytes: seq<byte>): seq<byte> {
    Splice(Reaching(content, pos), pos, bytes)
  }

  lemma ReachingKeeps(content: seq<byte>, pos: nat)
    ensures content <= Reaching(content, pos)
  {
  }

  lemma WrittenAt(content: seq<byte>, pos: nat, bytes: seq<byte>)
    ensures |Written(content, pos, bytes)| == Max(|content|, pos + |bytes|)
    ensures forall i | 0 <= i < |Written(content, pos, bytes)| ::
      Written(content, pos, bytes)[i] == if pos <= i < pos + |bytes| then bytes[i - pos]
                                         else if i < |content| then content[i] else 0
  {
  }

  /** What a write may leave behind when it does not complete: nothing done, the gap before it
      filled, or all of it done. */
  function WriteStages(content: seq<byte>, pos: int, bytes: seq<byte>): set<seq<byte>> {
    if pos < 0 then {content} else {content, Reaching(content, pos), Written(content, pos, bytes)}
  }

  /** A write that does not complete leaves the file as it was or as the write makes it, and nothing else,
      exactly when it does not start past the end. */
  lemma AtomicExactly(content: seq<byte>, pos: nat, bytes: seq<byte>)
    requires bytes != []
    ensures WriteStages(content, pos, bytes) == {content, Written(content, pos, bytes)} <==> pos <= |content|
  {
    WrittenAt(content, pos, bytes);
    hide Written;
    if pos > |content| {
      var middle := Reaching(content, pos);
      assert |content| < |middle| < |Written(content, pos, bytes)|;
      assert middle in WriteStages(content, pos, bytes);
    }
  }

  function Slice(content: seq<byte>, pos: nat, len: nat): (slice: seq<byte>)
    ensures |slice| <= len && pos + |slice| <= Max(pos, |content|)
  {
    if pos >= |content| then [] else content[pos..Min(pos + len, |content|)]
  }

  /** How many bytes a slice has, as a reader clips its request. */
  lemma SliceSize(content: seq<byte>, pos: nat, len: nat, size: int)
    requires pos <= MAX_POSITION && len < TWO_TO_THE_63
    requires size == if (pos + len) % TWO_TO_THE_64 < len || pos > |content| then 0
                     else if pos + len > |content| then |content| - pos else len
    ensures size == |Slice(content, pos, len)| && 0 <= size <= len
    ensures size == 0 ==> Slice(content, pos, len) == []
    ensures size > 0 ==> pos + size <= |content| && Slice(content, pos, len) == Part(content, pos, size)
  {
  }

  /** The same test lets a readable request at a negative cursor through as a request for nothing. */
  lemma ReadBeforeStart(content: seq<byte>, pos: int, len: nat, size: int)
    requires -TWO_TO_THE_31 <= pos < 0 && Readable(pos, len) && len < TWO_TO_THE_63
    requires |content| <= MAX_FILE_SIZE
    requires size == if (pos + len) % TWO_TO_THE_64 < len || pos > |content| then 0
                     else if pos + len > |content| then |content| - pos else len
    ensures size == 0 && Apply(FlatFile(content, pos), Read(len)) == (FlatFile(content, pos), Got([]))
  {
  }

  /** `size` bytes of the content. */
  function Part(content: seq<byte>, from: nat, size: nat): (part: seq<byte>)
    requires from + size <= |content|
    ensures |part| == size
  {
    content[from..from + size]
  }

  lemma PartsJoin(content: seq<byte>, from: nat, size: nat, more: nat)
    requires from + size + more <= |content|
    ensures Part(content, from, size) + Part(content, from + size, more) == Part(content, from, size + more)
  {
  }

  lemma PartOfNothing(content: seq<byte>, from: nat)
    requires from <= |content|
    ensures Part(content, from, 0) == []
  {
  }

  lemma PartIsPrefix(content: seq<byte>, from: nat, size: nat, len: nat)
    requires from + size <= |content| && size <= len
    ensures Part(content, from, size) <= Slice(content, from, len)
  {
  }

  /** Where a seek lands, before the upper bound is checked. */
  function SeekTarget(length: nat, pos: int, offset: int, whence: Whence): nat {
    Max(0, match whence
           case SeekSet => offset
           case SeekCur => pos + offset
           case SeekEnd => length + offset)
  }

  /** The cursor after a truncate: an extension passes it through a C `int`. */
  function TruncatedPos(length: nat, pos: int, newLength: nat): int {
    if length < newLength <= MAX_FILE_SIZE then ToInt32(pos) else pos
  }

  /** A read from a negative cursor delivers nothing when it reaches zero, or asks for nothing; one that
      ends before zero would be served from blocks with negative numbers. */
  predicate Readable(pos: int, len: nat) {
    pos < 0 ==> len == 0 || pos + len >= 0
  }

  function Apply(file: FlatFile, op: Op): (FlatFile, Outcome) {
    var FlatFile(content, pos) := file;
    match op
    case Read(len) =>
      if pos < 0 then (file, Got([])) else
        var got := Slice(content, pos, len);
        (FlatFile(content, pos + |got|), Got(got))
    case Write(bytes) =>
      if bytes == [] then (file, Done)
      else if pos < 0 || pos + |bytes| > MAX_FILE_SIZE then (file, Refused)
      else (FlatFile(Written(content, pos, bytes), pos + |bytes|), Done)
    case Seek(offset, whence) =>
      var target := SeekTarget(|content|, pos, offset, whence);
      if target > MAX_POSITION then (file, Refused) else (FlatFile(content, target), Done)
    case Truncate(length) =>
      if length > MAX_FILE_SIZE then (file, Refused)
      else (FlatFile(Resize(content, length), TruncatedPos(|content|, pos, length)), Done)
  }

  lemma ApplyRead(content: seq<byte>, pos: nat, len: nat)
    ensures var got := Slice(content, pos, len);
      Apply(FlatFile(content, pos), Read(len)) == (FlatFile(content, pos + |got|), Got(got))
  {
  }

  lemma ApplyTruncate(content: seq<byte>, pos: int, length: nat)
    requires -TWO_TO_THE_31 <= pos <= MAX_POSITION
    ensures Apply(FlatFile(content, pos), Truncate(length))
         == if length > MAX_FILE_SIZE then (FlatFile(content, pos), Refused)
            else (FlatFile(Resize(content, length), TruncatedPos(|content|, pos, length)), Done)
    ensures pos < TWO_TO_THE_31 ==> TruncatedPos(|content|, pos, length) == pos
    ensures -TWO_TO_THE_31 <= TruncatedPos(|content|, pos, length) <= MAX_POSITION
  {
  }

  function Run(file: FlatFile, ops: seq<Op>): FlatFile {
    if ops == [] then file else Apply(Run(file, ops[..|ops| - 1]), ops[|ops| - 1]).0
  }

  // ----- No stale bytes -----

  /** Length and cursor alone, without any content. */
  datatype Shape = Shape(length: nat, pos: int)

  /** The range a write takes effect on; empty when the operation is no write or is refused. */
  predicate Covers(shape: Shape, op: Op, i: nat) {
    op.Write? && 0 <= shape.pos <= i < shape.pos + |op.bytes| <= MAX_FILE_SIZE
  }

  function NextShape(shape: Shape, op: Op): Shape {
    match op
    case Read(len) => if 0 <= shape.pos < shape.length then shape.(pos := Min(shape.pos + len, shape.length)) else shape
    case Write(bytes) =>
      if bytes != [] && 0 <= shape.pos && shape.pos + |bytes| <= MAX_FILE_SIZE
      then Shape(Max(shape.length, shape.pos + |bytes|), shape.pos + |bytes|) else shape
    case Seek(offset, whence) =>
      var target := offset + (if whence == SeekSet then 0 else if whence == SeekCur then shape.pos else shape.length);
      if target < 0 then shape.(pos := 0) else if target > MAX_POSITION then shape else shape.(pos := target)
    case Truncate(length) =>
      if length > MAX_FILE_SIZE then shape
      else if length <= shape.length || -TWO_TO_THE_31 <= shape.pos < TWO_TO_THE_31 then Shape(length, shape.pos)
      else Shape(length, ToInt32(shape.pos))
  }

  function ShapeAfter(shape: Shape, ops: seq<Op>): Shape {
    if ops == [] then shape else NextShape(ShapeAfter(shape, ops[..|ops| - 1]), ops[|ops| - 1])
  }

  /** Looking back from the end of the history: the last value written at `i` since `i` last became
      part of the file; zero if it became part of it without being written. */
  function LastWritten(initial: seq<byte>, pos: int, ops: seq<Op>, i: nat): byte {
    if ops == [] then (if i < |initial| then initial[i] else 0) else
      var earlier, op := ops[..|ops| - 1], ops[|ops| - 1];
      var shape := ShapeAfter(Shape(|initial|, pos), earlier);
      if Covers(shape, op, i) then op.bytes[i - shape.pos]
      else if i >= shape.length then 0
      else LastWritten(initial, pos, earlier, i)
  }

  /** After any history of reads, writes, seeks and truncates, every byte of the file is the last
      one written there since it became part of the file, or zero. */
  lemma {:induction false} NoStaleBytes(initial: seq<byte>, pos: int, ops: seq<Op>)
    ensures var file := Run(FlatFile(initial, pos), ops);
      && Shape(|file.content|, file.pos) == ShapeAfter(Shape(|initial|, pos), ops)
      && forall i | 0 <= i < |file.content| :: file.content[i] == LastWritten(initial, pos, ops, i)
  {
    if ops != [] {
      NoStaleBytes(initial, pos, ops[..|ops| - 1]);
      OneOp(Run(FlatFile(initial, pos), ops[..|ops| - 1]), ops[|ops| - 1]);
    }
  }

  /** One operation, byte by byte. A read delivers the bytes its cursor passes; everything is refused that
      would leave the file longer than it may be or the cursor out of range, and nothing else. */
  lemma OneOp(file: FlatFile, op: Op)
    ensures var (after, outcome) := Apply(file, op); var shape := Shape(|file.content|, file.pos);
      && Shape(|after.content|, after.pos) == NextShape(shape, op)
      && (forall i | 0 <= i < |after.content| ::
            after.content[i] == if Covers(shape, op, i) then op.bytes[i - file.pos]
                                else if i >= |file.content| then 0 else file.content[i])
      && (op.Read? <==> outcome.Got?)
      && (op.Read? ==>
            && |outcome.bytes| == after.pos - file.pos
            && forall i | 0 <= i < |outcome.bytes| :: outcome.bytes[i] == file.content[file.pos + i])
      && (outcome.Refused? <==>
            || (op.Write? && op.bytes != [] && (file.pos < 0 || file.pos + |op.bytes| > MAX_FILE_SIZE))
            || (op.Seek? && op.whence == SeekSet && op.offset > MAX_POSITION)
            || (op.Seek? && op.whence == SeekCur && file.pos + op.offset > MAX_POSITION)
            || (op.Seek? && op.whence == SeekEnd && |file.content| + op.offset > MAX_POSITION)
            || (op.Truncate? && op.length > MAX_FILE_SIZE))
      && (outcome.Refused? ==> after == file)
  {
    ToInt32Small(file.pos);
  }

  /** A history that starts from a file within the size limit stays within it. */
  lemma {:induction false} LengthBounded(file: FlatFile, ops: seq<Op>)
    requires |file.content| <= MAX_FILE_SIZE
    ensures |Run(file, ops).content| <= MAX_FILE_SIZE
  {
    if ops != [] {
      LengthBounded(file, ops[..|ops| - 1]);
    }
  }

  /** A cursor within these bounds stays within them. */
  lemma CursorBounded(file: FlatFile, op: Op)
    requires |file.content| <= MAX_FILE_SIZE && -TWO_TO_THE_31 <= file.pos <= MAX_POSITION
    ensures -TWO_TO_THE_31 <= Apply(file, op).0.pos <= MAX_POSITION && |Apply(file, op).0.content| <= MAX_FILE_SIZE
  {
  }

  /** The cursor never goes negative except by one path: an extending truncate made while it stands
      at or past 2^31. */
  lemma CursorLostIff(file: FlatFile, op: Op)
    requires 0 <= file.pos <= MAX_POSITION
    ensures Apply(file, op).0.pos < 0 <==>
      op.Truncate? && |file.content| < op.length <= MAX_FILE_SIZE && file.pos >= TWO_TO_THE_31
  {
  }
}
