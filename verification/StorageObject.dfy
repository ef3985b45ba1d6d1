/** compat/mitee_compat/tee_svc_storage.c: a persistent object as a head, its attributes and a data
    stream in one storage file. */
module StorageObject {
  import opened Bytes
  import opened Image
  import opened TeeResult
  import opened HostFs
  import opened KeyManager
  import opened ReeLayout
  import opened ReeCommit
  import opened FlatFile
  import opened ReeFs

  /** sizeof(struct tee_svc_storage_head): nine 32-bit fields. */
  const HEAD_SIZE := 36
  /** offsetof(struct tee_svc_storage_head, ds_size) */
  const DS_SIZE_OFFSET := 12
  const TEE_SVC_STORAGE_MAGIC: uint32 := 0x53534600
  /** TEE_TYPE_DATA of the GlobalPlatform TEE Internal Core API, table 6-13. */
  const TEE_TYPE_DATA: uint32 := 0xA00000BF

  datatype Head = Head(
    magic: uint32, headSize: uint32, metaSize: uint32, dsSize: uint32, keySize: uint32,
    maxKeySize: uint32, objectUsage: uint32, objectType: uint32, haveAttrs: uint32)

  function EncodeHead(head: Head): (bytes: seq<byte>)
    ensures |bytes| == HEAD_SIZE
  {
    Word(head.magic) + Word(head.headSize) + Word(head.metaSize) + Word(head.dsSize) + Word(head.keySize)
    + Word(head.maxKeySize) + Word(head.objectUsage) + Word(head.objectType) + Word(head.haveAttrs)
  }

  function DecodeHead(bytes: seq<byte>): Head
    requires |bytes| >= HEAD_SIZE
  {
    Head(WordAt(bytes, 0), WordAt(bytes, 4), WordAt(bytes, 8), WordAt(bytes, 12), WordAt(bytes, 16),
         WordAt(bytes, 20), WordAt(bytes, 24), WordAt(bytes, 28), WordAt(bytes, 32))
  }

  /** A head read from the front of any file that starts with it is that head. */
  lemma HeadRoundTrip(head: Head, rest: seq<byte>)
    ensures DecodeHead(EncodeHead(head) + rest) == head
    ensures var bytes := EncodeHead(head) + rest;
      && WordAt(bytes, 0) == head.magic && WordAt(bytes, 4) == head.headSize && WordAt(bytes, 8) == head.metaSize
      && WordAt(bytes, 12) == head.dsSize && WordAt(bytes, 16) == head.keySize && WordAt(bytes, 20) == head.maxKeySize
      && WordAt(bytes, 24) == head.objectUsage && WordAt(bytes, 28) == head.objectType && WordAt(bytes, 32) == head.haveAttrs
  {
    hide Word, WordAt;
    var bytes := EncodeHead(head) + rest;
    WordAtSlice(bytes, 0, head.magic);
    WordAtSlice(bytes, 4, head.headSize);
    WordAtSlice(bytes, 8, head.metaSize);
    WordAtSlice(bytes, 12, head.dsSize);
    WordAtSlice(bytes, 16, head.keySize);
    WordAtSlice(bytes, 20, head.maxKeySize);
    WordAtSlice(bytes, 24, head.objectUsage);
    WordAtSlice(bytes, 28, head.objectType);
    WordAtSlice(bytes, 32, head.haveAttrs);
  }

  // ----- The data stream -----

  /** The data bytes of a file whose head and attributes take `base` bytes. */
  function Stream(content: seq<byte>, base: nat): seq<byte>
    requires base <= |content|
  {
    content[base..]
  }

  /** The size on disk does not claim more data than there is. */
  predicate DsCovered(content: seq<byte>, base: nat) {
    HEAD_SIZE <= base <= |content| && WordAt(content, DS_SIZE_OFFSET) <= |content| - base
  }

  /** The file after `ds_size` is set. */
  function WithDsSize(content: seq<byte>, dsSize: uint32): seq<byte>
    requires |content| >= HEAD_SIZE
  {
    Splice(content, DS_SIZE_OFFSET, Word(dsSize))
  }

  /** The file after the data part of an object write at `pos`. */
  function DataWritten(content: seq<byte>, pos: int, data: seq<byte>): seq<byte> {
    if data == [] || pos < 0 then content else Written(content, pos, data)
  }

  /** The data position after an object write. */
  function Advanced(dataPosition: uint64, len: nat): uint64 {
    (dataPosition + len) % TWO_TO_THE_64
  }

  /** The file after a whole object write: the data at the cursor, then the size if the data position
      has passed it. */
  function ObjectWritten(content: seq<byte>, pos: int, dataPosition: uint64, data: seq<byte>, dataSize: uint64): seq<byte>
    requires HEAD_SIZE <= |content|
  {
    var written := DataWritten(content, pos, data);
    var end := Advanced(dataPosition, |data|);
    if end > dataSize then WithDsSize(written, end % TWO_TO_THE_32) else written
  }

  /** The contents an object write passes through. */
  function ObjectWriteStages(content: seq<byte>, pos: int, dataPosition: uint64, data: seq<byte>, dataSize: uint64)
      : set<seq<byte>>
    requires HEAD_SIZE <= |content|
  {
    {content, if data == [] || pos < 0 then content else Reaching(content, pos), DataWritten(content, pos, data),
     ObjectWritten(content, pos, dataPosition, data, dataSize)}
  }

  /** Writing data at or past `base` writes it to the stream and nothing before it. */
  lemma DataOnStream(content: seq<byte>, base: nat, dataPosition: nat, data: seq<byte>)
    requires base <= |content|
    ensures var written := DataWritten(content, base + dataPosition, data);
      && |written| >= |content|
      && written[..base] == content[..base]
      && Stream(written, base) == DataWritten(Stream(content, base), dataPosition, data)
  {
    hide Written;
    if data != [] {
      WrittenAt(content, base + dataPosition, data);
      WrittenAt(Stream(content, base), dataPosition, data);
      var written := Written(content, base + dataPosition, data);
      var stream, expected := Stream(written, base), Written(Stream(content, base), dataPosition, data);
      assert |stream| == |expected|;
      forall i | 0 <= i < |stream|
        ensures stream[i] == expected[i]
      {
        assert stream[i] == written[base + i];
      }
    }
  }

  /** Setting the size changes those four bytes of the head only. */
  lemma DsSizeInHead(content: seq<byte>, base: nat, dsSize: uint32)
    requires HEAD_SIZE <= base <= |content|
    ensures var after := WithDsSize(content, dsSize);
      && |after| == |content| && Stream(after, base) == Stream(content, base)
      && WordAt(after, DS_SIZE_OFFSET) == dsSize
      && (forall i | 0 <= i < base && !(DS_SIZE_OFFSET <= i < DS_SIZE_OFFSET + 4) :: after[i] == content[i])
  {
    hide Word, WordAt;
    var after := WithDsSize(content, dsSize);
    assert after[DS_SIZE_OFFSET..DS_SIZE_OFFSET + 4] == Word(dsSize);
    WordAtSlice(after, DS_SIZE_OFFSET, dsSize);
  }

  /** An object write, taken apart: what the file write does and what the size update adds. */
  lemma ObjectWriteParts(content: seq<byte>, pos: int, dataPosition: uint64, data: seq<byte>, dataSize: uint64)
    requires HEAD_SIZE <= |content|
    ensures var end := Advanced(dataPosition, |data|);
      var written, stages := DataWritten(content, pos, data), ObjectWriteStages(content, pos, dataPosition, data, dataSize);
      var fits := data == [] || (0 <= pos && pos + |data| <= MAX_FILE_SIZE);
      && Apply(FlatFile(content, pos), Op.Write(data))
         == (if fits then (FlatFile(written, pos + |data|), Done) else (FlatFile(content, pos), Refused))
      && (data != [] ==> WriteStages(content, pos, data) <= stages)
      && |written| >= |content|
      && ObjectWritten(content, pos, dataPosition, data, dataSize)
         == (if end > dataSize then WithDsSize(written, end % TWO_TO_THE_32) else written)
      && {written, ObjectWritten(content, pos, dataPosition, data, dataSize)} <= stages
  {
    hide Splice, Reaching, WithDsSize;
  }

  /** The file write of an object write shows stages of the object write. */
  lemma ObjectDataIsCrashSafe(crypto: Crypto, steps: seq<Step>, ino: Inode, content: seq<byte>, pos: int,
                              dataPosition: uint64, data: seq<byte>, dataSize: uint64, inStep: bool)
    requires HEAD_SIZE <= |content|
    requires inStep && data != [] ==> CrashSafe(crypto, steps, ino, WriteStages(content, pos, data))
    requires data == [] ==> steps == []
    ensures inStep ==> CrashSafe(crypto, steps, ino, ObjectWriteStages(content, pos, dataPosition, data, dataSize))
  {
    hide CrashSafe, WriteStages, ObjectWriteStages;
    var stages := ObjectWriteStages(content, pos, dataPosition, data, dataSize);
    ObjectWriteParts(content, pos, dataPosition, data, dataSize);
    if data == [] {
      NothingIsCrashSafe(crypto, ino, stages);
    } else if inStep {
      CrashSafeWiden(crypto, steps, ino, WriteStages(content, pos, data), stages);
    }
  }

  lemma ObjectWriteIsCrashSafe(crypto: Crypto, first: seq<Step>, second: seq<Step>, ino: Inode, content: seq<byte>,
                               pos: int, dataPosition: uint64, data: seq<byte>, dataSize: uint64, inStep: bool)
    requires HEAD_SIZE <= |content|
    requires var written := DataWritten(content, pos, data);
      var stages := ObjectWriteStages(content, pos, dataPosition, data, dataSize);
      inStep ==>
        && CrashSafe(crypto, first, ino, stages)
        && CrashSafe(crypto, second, ino, {written, ObjectWritten(content, pos, dataPosition, data, dataSize)})
    ensures inStep ==>
      CrashSafe(crypto, first + second, ino, ObjectWriteStages(content, pos, dataPosition, data, dataSize))
  {
    hide CrashSafe, ObjectWriteStages, DataWritten, ObjectWritten;
    var stages := ObjectWriteStages(content, pos, dataPosition, data, dataSize);
    var update := {DataWritten(content, pos, data), ObjectWritten(content, pos, dataPosition, data, dataSize)};
    ObjectWriteParts(content, pos, dataPosition, data, dataSize);
    if inStep {
      CrashSafeConcat(crypto, first, second, ino, stages, update);
      CrashSafeWiden(crypto, first + second, ino, stages + update, stages);
    }
  }

  /** The data of a write made after a failed size update starts in the head, and as far as it fits there
      none of it reaches the data stream. */
  lemma WriteAfterFailedUpdate(content: seq<byte>, base: nat, pos: int, data: seq<byte>)
    requires HEAD_SIZE <= base <= |content| && pos in {DS_SIZE_OFFSET, DS_SIZE_OFFSET + 4} && data != []
    ensures var written := DataWritten(content, pos, data);
      && pos < HEAD_SIZE && written[pos] == data[0]
      && (pos + |data| <= base ==> Stream(written, base) == Stream(content, base))
  {
    WrittenAt(content, pos, data);
    hide Written;
    var written := Written(content, pos, data);
    if pos + |data| <= base {
      assert forall i | 0 <= i < |content| - base :: Stream(written, base)[i] == Stream(content, base)[i];
    }
  }

  lemma DsSizeLength(content: seq<byte>, dsSize: uint32)
    requires |content| >= HEAD_SIZE
    ensures |WithDsSize(content, dsSize)| == |content|
  {
  }

  /** From a cursor that agrees with the data position, an object write leaves the attributes and
      every head field but the size alone, and makes the data stream what a write at the data
      position makes of it. */
  lemma WriteIsOnStream(content: seq<byte>, base: nat, dataPosition: uint64, data: seq<byte>, dataSize: uint64)
    requires HEAD_SIZE <= base <= |content| && dataPosition + |data| < TWO_TO_THE_32
    ensures var after := ObjectWritten(content, base + dataPosition, dataPosition, data, dataSize);
      && |after| >= base
      && Stream(after, base) == DataWritten(Stream(content, base), dataPosition, data)
      && (forall i | 0 <= i < base && !(DS_SIZE_OFFSET <= i < DS_SIZE_OFFSET + 4) :: after[i] == content[i])
      && WordAt(after, DS_SIZE_OFFSET)
         == (if dataPosition + |data| > dataSize then dataPosition + |data| else WordAt(content, DS_SIZE_OFFSET))
  {
    hide Word, WordAt, DataWritten, WithDsSize;
    var written := DataWritten(content, base + dataPosition, data);
    DataOnStream(content, base, dataPosition, data);
    assert forall i | 0 <= i < base :: written[i] == written[..base][i] == content[i];
    SameWord(content, written, DS_SIZE_OFFSET);
    if dataPosition + |data| > dataSize {
      DsSizeInHead(written, base, dataPosition + |data|);
    }
  }

  lemma StreamSize(stream: seq<byte>, dataPosition: nat, data: seq<byte>)
    ensures |DataWritten(stream, dataPosition, data)|
         == if data == [] then |stream| else Max(|stream|, dataPosition + |data|)
  {
  }

  lemma SameWord(a: seq<byte>, b: seq<byte>, offset: nat)
    requires offset + 4 <= |a| && offset + 4 <= |b|
    requires forall i | offset <= i < offset + 4 :: a[i] == b[i]
    ensures WordAt(a, offset) == WordAt(b, offset)
  {
  }

  /** Every stage of an object write keeps the size on disk covered by data, except that an empty
      write past the end of the stream records a size there is no data for. */
  lemma DsStaysCovered(content: seq<byte>, base: nat, dataPosition: uint64, data: seq<byte>, dataSize: uint64)
    requires DsCovered(content, base) && dataPosition + |data| < TWO_TO_THE_32
    ensures (forall stage | stage in ObjectWriteStages(content, base + dataPosition, dataPosition, data, dataSize) ::
               DsCovered(stage, base))
       <==> !(data == [] && dataPosition > dataSize && dataPosition > |Stream(content, base)|)
  {
    hide Word, WordAt, Reaching, DataWritten, ObjectWritten;
    var pos := base + dataPosition;
    var reaching, written := Reaching(content, pos), DataWritten(content, pos, data);
    WriteIsOnStream(content, base, dataPosition, data, dataSize);
    DataOnStream(content, base, dataPosition, data);
    ReachingKeeps(content, pos);
    SameWord(content, reaching, DS_SIZE_OFFSET);
    assert forall i | 0 <= i < base :: written[i] == written[..base][i] == content[i];
    SameWord(content, written, DS_SIZE_OFFSET);
    var after := ObjectWritten(content, pos, dataPosition, data, dataSize);
    StreamSize(Stream(content, base), dataPosition, data);
    assert DsCovered(reaching, base) && DsCovered(written, base);
    assert DsCovered(after, base) <==> !(data == [] && dataPosition > dataSize && dataPosition > |Stream(content, base)|);
    assert after in ObjectWriteStages(content, pos, dataPosition, data, dataSize);
  }

  /** A data position computed from a reported offset agrees with the cursor exactly when the cursor
      is at or past the start of the data and fits an `int32_t`. */
  lemma PositionAgrees(pos: nat, base: nat)
    requires pos <= MAX_POSITION && base <= MAX_FILE_SIZE
    ensures var dataPosition := (ToInt32(pos) - base) % TWO_TO_THE_64;
      (pos == base + dataPosition && pos < TWO_TO_THE_31) <==> base <= pos < TWO_TO_THE_31
  {
  }

  /** A data position that agrees with a cursor inside a file still does after both move on. */
  lemma AdvancedAgrees(pos: int, base: nat, dataPosition: uint64, len: nat)
    ensures pos == base + dataPosition && (len == 0 || pos + len <= MAX_FILE_SIZE) && pos < TWO_TO_THE_31 ==>
      pos + len == base + Advanced(dataPosition, len) < TWO_TO_THE_31
    ensures len == 0 ==> Advanced(dataPosition, len) == dataPosition
  {
  }

  class TeeObj {
    var objectType: uint32
    var maxObjectSize: uint32
    var objectSize: uint32
    var objectUsage: uint32
    var haveAttrs: uint32
    var dataSize: uint64
    var dataPosition: uint64
    /** The binary form of the attributes. */
    var attr: seq<byte>
    var fh: TeeFsFd?
    var canRead: bool
    var canWrite: bool

    /** `tee_obj_alloc` gives a zeroed object. */
    constructor (canRead: bool, canWrite: bool)
      ensures this.canRead == canRead && this.canWrite == canWrite && fh == null && attr == []
      ensures objectType == maxObjectSize == objectSize == objectUsage == haveAttrs == 0
      ensures dataSize == dataPosition == 0
    {
      objectType, maxObjectSize, objectSize, objectUsage, haveAttrs := 0, 0, 0, 0, 0;
      dataSize, dataPosition, attr, fh := 0, 0, [], null;
      this.canRead, this.canWrite := canRead, canWrite;
    }

    /** Where the data stream starts in the file. */
    function Base(): nat
      reads this
    {
      HEAD_SIZE + |attr|
    }

    /** The object is open on a file that holds its head and attributes. */
    ghost predicate Valid()
      reads this, fh, if fh == null then {} else {fh.host}
    {
      fh != null && fh.Valid() && Base() <= |fh.Contents()| && -TWO_TO_THE_31 <= fh.pos <= MAX_POSITION
    }

    /** The file cursor is where the data position says. */
    predicate Synced()
      reads this, fh
    {
      fh != null && fh.pos == Base() + dataPosition < TWO_TO_THE_31
    }

    /** `syscall_storage_obj_seek`. Afterwards cursor and data position agree exactly when the seek
        landed at or after the start of the data, below 2^31. */
    method Seek(offset: int, whence: Whence) returns (res: TeeResult)
      requires Valid() && -TWO_TO_THE_31 <= offset < TWO_TO_THE_31
      modifies this`dataPosition, fh`pos
      ensures Valid() && fh.Contents() == old(fh.Contents())
      ensures var target := match whence
          case SeekSet => ToInt32(offset + Base())
          case SeekCur => old(fh.pos) + offset
          case SeekEnd => |fh.Contents()| + offset;
        && (res == Success <==> target <= MAX_POSITION)
        && (res == Success ==>
              && fh.pos == (if target < 0 then 0 else target)
              && dataPosition == (ToInt32(fh.pos) - Base()) % TWO_TO_THE_64
              && (Synced() <==> Base() <= target < TWO_TO_THE_31))
        && (res != Success ==> res == BadParameters && fh.pos == old(fh.pos) && dataPosition == old(dataPosition))
    {
      hide Covered, Content, Crypto.Lawful, ToInt32;
      ContentLength(fh.crypto, fh.Image(), fh.meta);
      var off := offset;
      ToInt32Small(offset + Base());
      if whence == SeekSet {
        off := ToInt32(off + Base());
      }
      res, off := fh.Seek(off, whence);
      if res != Success {
        return;
      }
      PositionAgrees(fh.pos, Base());
      dataPosition := (off - Base()) % TWO_TO_THE_64;
    }

    /** `syscall_storage_obj_read`. A corrupt file closes the object. */
    method Read(len: nat) returns (res: TeeResult, data: seq<byte>)
      requires Valid() && Readable(fh.pos, len) && len < TWO_TO_THE_63
      modifies this`dataPosition, this`fh, fh`pos, fh.host`faults
      ensures if res == CorruptObject then fh == null else fh == old(fh)
      ensures old(fh).host.faults >= old(fh.host.faults)
      ensures old(fh).Valid() && old(fh).Contents() == old(fh.Contents())
      ensures !canRead ==>
        res == AccessConflict && data == [] && dataPosition == old(dataPosition) && fh.pos == old(fh.pos)
      ensures res == Success ==>
        && data == (if old(fh.pos) < 0 then [] else Slice(fh.Contents(), old(fh.pos), len))
        && fh.pos == old(fh.pos) + |data| && dataPosition == (old(dataPosition) + |data|) % TWO_TO_THE_64
      ensures res != Success ==> dataPosition in {old(dataPosition), (old(dataPosition) + |data|) % TWO_TO_THE_64}
      ensures canRead && old(fh).host.faults == old(fh.host.faults) ==> res == Success
      ensures res == Success ==> Valid() && canRead && fh.host.faults == old(fh.host.faults)
      ensures res == Success && old(Synced()) ==>
        && data == Slice(Stream(fh.Contents(), Base()), old(dataPosition), len)
        && dataPosition == old(dataPosition) + |data| && Synced()
    {
      hide Covered, Content, Crypto.Lawful, Apply;
      data := [];
      if !canRead {
        return AccessConflict, data;
      }
      ghost var content, pos := fh.Contents(), fh.pos;
      ContentLength(fh.crypto, fh.Image(), fh.meta);
      res, data := fh.Read(len);
      if res != Success {
        if res == CorruptObject {
          fh := null;
        }
        return;
      }
      if pos >= 0 {
        ApplyRead(content, pos, len);
        StreamSlice(content, Base(), pos, len);
      }
      dataPosition := (dataPosition + |data|) % TWO_TO_THE_64;
      var copyFails: bool := *;
      if copyFails {
        fh.host.faults := fh.host.faults + 1;
        res := Generic;
      }
    }

    /** `tee_svc_storage_update_head`: writes the size into the head and, on success, puts the cursor
        back, as far as it fits an `int32_t`. On failure it stays in the head. */
    method UpdateHead(dsSize: uint32) returns (res: TeeResult, ghost steps: seq<Step>)
      requires Valid()
      modifies fh, fh.host
      ensures fh.Valid() && OnlyInode(old(fh.host.disk), fh.host.disk, fh.ino) && fh.host.dir == old(fh.host.dir)
      ensures fh.host.log == old(fh.host.log) + steps
      ensures OnlyFile(steps, fh.ino, fh.host.dir, old(fh.host.disk))
      ensures fh.host.faults >= old(fh.host.faults)
      ensures old(fh.InStep()) ==> (fh.InStep() <==> fh.CounterOnDisk())
      ensures old(fh.AllTidy()) ==> fh.AllTidy()
      ensures old(fh.AllIntact()) && fh.host.faults == old(fh.host.faults) ==> res == Success
      ensures res == Success ==>
        && fh.host.faults == old(fh.host.faults)
        && fh.Contents() == WithDsSize(old(fh.Contents()), dsSize)
        && fh.pos == Max(0, ToInt32(old(fh.pos)))
        && fh.InStep() && (old(fh.AllIntact()) ==> fh.AllIntact())
      ensures res != Success ==>
        && fh.Contents() in {old(fh.Contents()), WithDsSize(old(fh.Contents()), dsSize)}
        && fh.pos in {DS_SIZE_OFFSET, DS_SIZE_OFFSET + 4}
      ensures -TWO_TO_THE_31 <= fh.pos <= MAX_POSITION
      ensures old(fh.InStep()) ==>
        CrashSafe(fh.crypto, steps, fh.ino, {old(fh.Contents()), WithDsSize(old(fh.Contents()), dsSize)})
    {
      hide Covered, Content, Whole, Tidy, OpenMeta, Committed, OnlyFile, CrashSafe, OnlyInode, Splice, Resize, Crypto.Lawful;
      ghost var content := fh.Contents();
      steps := [];
      // None of these seeks can be refused: no target is above TEE_DATA_MAX_POSITION.
      var oldOff, ignored;
      res, oldOff := fh.Seek(0, SeekCur);
      res, ignored := fh.Seek(DS_SIZE_OFFSET, SeekSet);
      assert Reaching(content, DS_SIZE_OFFSET) == content;
      assert Written(content, DS_SIZE_OFFSET, Word(dsSize)) == WithDsSize(content, dsSize);
      assert {content, Reaching(content, DS_SIZE_OFFSET), Written(content, DS_SIZE_OFFSET, Word(dsSize))}
          == {content, WithDsSize(content, dsSize)};
      res, steps := fh.Write(Word(dsSize));
      if res == Success {
        res, ignored := fh.Seek(oldOff, SeekSet);
      }
    }

    /** The cursor was left at the size field, or right behind it. */
    predicate LeftInHead()
      requires fh != null
      reads this`fh, fh`pos
    {
      fh.pos in {DS_SIZE_OFFSET, DS_SIZE_OFFSET + 4}
    }

    /** The second half of `syscall_storage_obj_write`: moves the data position past what was written
        and, where it has passed the size, records that. */
    method Advance(len: nat) returns (res: TeeResult, ghost steps: seq<Step>)
      requires Valid()
      modifies this`dataPosition, this`dataSize, fh, fh.host
      ensures fh.Valid() && OnlyInode(old(fh.host.disk), fh.host.disk, fh.ino) && fh.host.dir == old(fh.host.dir)
      ensures fh.host.log == old(fh.host.log) + steps
      ensures OnlyFile(steps, fh.ino, fh.host.dir, old(fh.host.disk))
      ensures fh.host.faults >= old(fh.host.faults)
      ensures old(fh.InStep()) ==> (fh.InStep() <==> fh.CounterOnDisk())
      ensures old(fh.AllTidy()) ==> fh.AllTidy()
      ensures old(fh.AllIntact()) && fh.host.faults == old(fh.host.faults) ==> res == Success
      ensures dataPosition == Advanced(old(dataPosition), len)
      ensures var after := if dataPosition > old(dataSize) then WithDsSize(old(fh.Contents()), dataPosition % TWO_TO_THE_32)
                           else old(fh.Contents());
        && (res == Success ==>
              && fh.host.faults == old(fh.host.faults) && Valid()
              && fh.Contents() == after && dataSize == Max(old(dataSize), dataPosition)
              && fh.pos == (if dataPosition > old(dataSize) then Max(0, ToInt32(old(fh.pos))) else old(fh.pos))
              && (old(fh.AllIntact()) ==> fh.AllIntact()) && (old(fh.InStep()) ==> fh.InStep()))
        && (res != Success ==> Valid() && LeftInHead() && !Synced() && dataSize == old(dataSize))
        && (old(fh.InStep()) ==> CrashSafe(fh.crypto, steps, fh.ino, {old(fh.Contents()), after}))
    {
      hide Covered, Content, Whole, Tidy, OpenMeta, Committed, OnlyFile, CrashSafe, OnlyInode, Crypto.Lawful, WithDsSize;
      steps := [];
      if fh.InStep() {
        InStepCounter(fh);
      }
      NothingElse(fh.host.disk, fh.ino);
      NoSteps(fh.crypto, fh.ino, fh.host.dir, fh.host.disk, {fh.Contents()});
      ContentLength(fh.crypto, fh.Image(), fh.meta);
      assert {fh.Contents(), fh.Contents()} == {fh.Contents()};
      dataPosition := Advanced(dataPosition, len);
      res := Success;
      if dataPosition > dataSize {
        DsSizeLength(fh.Contents(), dataPosition % TWO_TO_THE_32);
        res, steps := UpdateHead(dataPosition % TWO_TO_THE_32);
        if res != Success {
          return;
        }
        dataSize := dataPosition;
      }
    }

    /** The data can be written at the cursor. */
    ghost predicate Fits(data: seq<byte>)
      requires fh != null
      reads this, fh`pos
    {
      data == [] || (0 <= fh.pos && fh.pos + |data| <= MAX_FILE_SIZE)
    }

    /** `syscall_storage_obj_write`. When the size update fails the cursor stays in the head, where it does
        not agree with the data position. */
    method Write(data: seq<byte>) returns (res: TeeResult, ghost steps: seq<Step>)
      requires Valid() && |data| < TWO_TO_THE_63
      modifies this`dataPosition, this`dataSize, fh, fh.host
      ensures fh.Valid() && OnlyInode(old(fh.host.disk), fh.host.disk, fh.ino) && fh.host.dir == old(fh.host.dir)
      ensures fh.host.log == old(fh.host.log) + steps
      ensures OnlyFile(steps, fh.ino, fh.host.dir, old(fh.host.disk))
      ensures fh.host.faults >= old(fh.host.faults)
      ensures old(fh.InStep()) ==> (fh.InStep() <==> fh.CounterOnDisk())
      ensures old(fh.AllTidy()) ==> fh.AllTidy()
      ensures !canWrite ==> res == AccessConflict
      ensures canWrite && !old(Fits(data)) ==> res == BadParameters
      ensures !canWrite || !old(Fits(data)) ==>
        && Valid() && fh.pos == old(fh.pos) && fh.Contents() == old(fh.Contents())
        && dataPosition == old(dataPosition) && dataSize == old(dataSize) && steps == []
        && fh.host.faults == old(fh.host.faults)
        && (old(fh.AllIntact()) ==> fh.AllIntact()) && (old(fh.InStep()) ==> fh.InStep())
      ensures canWrite && old(Fits(data)) && old(fh.AllIntact()) && fh.host.faults == old(fh.host.faults) ==> res == Success
      ensures res == Success ==>
        && canWrite && old(Fits(data)) && fh.host.faults == old(fh.host.faults) && Valid()
        && fh.Contents() == ObjectWritten(old(fh.Contents()), old(fh.pos), old(dataPosition), data, old(dataSize))
        && dataPosition == Advanced(old(dataPosition), |data|) && dataSize == Max(old(dataSize), dataPosition)
        && (old(Synced()) ==> Synced())
        && (old(fh.AllIntact()) ==> fh.AllIntact()) && (old(fh.InStep()) ==> fh.InStep())
      ensures res != Success ==>
        && dataSize == old(dataSize)
        && (|| (dataPosition == old(dataPosition) && fh.pos in {old(fh.pos), old(fh.pos) + |data|})
            || (dataPosition == Advanced(old(dataPosition), |data|) && LeftInHead() && !Synced()))
      ensures old(fh.InStep()) ==>
        CrashSafe(fh.crypto, steps, fh.ino,
                  ObjectWriteStages(old(fh.Contents()), old(fh.pos), old(dataPosition), data, old(dataSize)))
    {
      hide TeeFsFd.Valid, TeeFsFd.AllIntact, TeeFsFd.AllTidy, TeeFsFd.InStep, TeeFsFd.CounterOnDisk, TeeFsFd.Contents,
        OnlyFile, CrashSafe, OnlyInode, WithDsSize, DataWritten, ObjectWritten, ObjectWriteStages, WriteStages, Apply,
        Advanced, LeftInHead, ToInt32;
      HandleFacts(fh);
      ghost var content, pos, at, size := fh.Contents(), fh.pos, dataPosition, dataSize;
      ghost var disk0, inStep := fh.host.disk, fh.InStep();
      ghost var stages := ObjectWriteStages(content, pos, at, data, size);
      steps := [];
      if inStep {
        InStepCounter(fh);
      }
      NothingElse(disk0, fh.ino);
      NoSteps(fh.crypto, fh.ino, fh.host.dir, disk0, stages);
      ObjectWriteParts(content, pos, at, data, size);
      AdvancedAgrees(pos, Base(), at, |data|);
      if !canWrite {
        return AccessConflict, steps;
      }
      res, steps := fh.Write(data);
      HandleFacts(fh);
      ghost var disk1, first := fh.host.disk, steps;
      if res != Success {
        ObjectDataIsCrashSafe(fh.crypto, steps, fh.ino, content, pos, at, data, size, inStep);
        return;
      }
      ghost var second;
      ToInt32Small(fh.pos);
      res, second := Advance(|data|);
      HandleFacts(fh);
      OnlyFileConcat(first, second, fh.ino, fh.host.dir, disk0, disk1);
      OnlyInodeTransitive(disk0, disk1, fh.host.disk, fh.ino);
      steps := first + second;
      ObjectDataIsCrashSafe(fh.crypto, first, fh.ino, content, pos, at, data, size, inStep);
      ObjectWriteIsCrashSafe(fh.crypto, first, second, fh.ino, content, pos, at, data, size, inStep);
    }

    /** `syscall_storage_obj_trunc`. Neither the size in the head nor `dataSize` follows. The sum passed to
        the file is a `size_t`: where it wraps around it cuts into the head and attributes. */
    method Trunc(len: nat) returns (res: TeeResult, ghost steps: seq<Step>)
      requires Valid() && len < TWO_TO_THE_64 && (Base() + len) % TWO_TO_THE_64 < TWO_TO_THE_63
      modifies this`fh, fh, fh.host
      ensures var file := old(fh); var before := old(fh.Contents());
        var end := (Base() + len) % TWO_TO_THE_64; var after := Resize(before, end);
        && fh == (if res == CorruptObject then null else file)
        && (!canWrite ==> res == AccessConflict) && (canWrite && end > MAX_FILE_SIZE ==> res == Generic)
        && file.Valid() && OnlyInode(old(fh.host.disk), file.host.disk, file.ino)
        && file.host.log == old(fh.host.log) + steps
        && OnlyFile(steps, file.ino, file.host.dir, old(fh.host.disk))
        && file.host.dir == old(fh.host.dir) && file.host.faults >= old(fh.host.faults)
        && (old(fh.InStep()) ==> (file.InStep() <==> file.CounterOnDisk()))
        && (old(fh.AllTidy()) ==> file.AllTidy())
        && (!canWrite || end > MAX_FILE_SIZE ==>
              && res != Success && file.Contents() == before && steps == [] && file.host.faults == old(fh.host.faults)
              && fh == file && Valid() && (old(Synced()) ==> Synced())
              && (old(fh.AllIntact()) ==> file.AllIntact()) && (old(fh.InStep()) ==> file.InStep()))
        && (canWrite && end <= MAX_FILE_SIZE && old(fh.AllIntact()) && file.host.faults == old(fh.host.faults) ==>
              res == Success)
        && (res == Success ==>
              fh == file && file.host.faults == old(fh.host.faults)
              && file.Contents() == after && file.InStep() && (old(fh.AllIntact()) ==> file.AllIntact())
              && (Valid() <==> Base() + len < TWO_TO_THE_64) && (old(Synced()) && Valid() ==> Synced()))
        && (res != Success ==> file.Contents() in {before, after})
        && (old(fh.InStep()) ==> CrashSafe(file.crypto, steps, file.ino, {before, after}))
    {
      hide TeeFsFd.Valid, TeeFsFd.AllIntact, TeeFsFd.AllTidy, TeeFsFd.InStep, TeeFsFd.CounterOnDisk, TeeFsFd.Contents, OnlyFile,
        CrashSafe, OnlyInode, Resize, Reopen, Apply, ToInt32;
      steps := [];
      HandleFacts(fh);
      if fh.InStep() {
        InStepCounter(fh);
      }
      var end := (len + Base()) % TWO_TO_THE_64;
      ApplyTruncate(fh.Contents(), fh.pos, end);
      NothingElse(fh.host.disk, fh.ino);
      NoSteps(fh.crypto, fh.ino, fh.host.dir, fh.host.disk, {fh.Contents(), Resize(fh.Contents(), end)});
      if !canWrite {
        return AccessConflict, steps;
      }
      res, steps := fh.Truncate(end);
      HandleFacts(fh);
      if res == CorruptObject {
        fh := null;
      } else if res != Success {
        res := Generic;
      }
    }
  }

  /** A slice of the file past `base` is a slice of the stream. */
  lemma StreamSlice(content: seq<byte>, base: nat, pos: nat, len: nat)
    requires base <= |content|
    ensures base <= pos ==> Slice(content, pos, len) == Slice(Stream(content, base), pos - base, len)
    ensures |Slice(content, pos, len)| <= Max(0, |content| - pos)
  {
  }

  // ----- Create and open -----

  /** The transient object a persistent one takes its attributes from, if any. */
  datatype Source =
    | NoObject
    | FromObject(objectType: uint32, maxObjectSize: uint32, objectSize: uint32, objectUsage: uint32,
                 haveAttrs: uint32, attr: seq<byte>)

  function SourceAttr(source: Source): seq<byte> {
    if source.NoObject? then [] else source.attr
  }

  /** The head of a new object: `objectType` is stored once, `objectSize` is overwritten by it, and
      `keySize` is whatever the stack held. */
  function NewHead(source: Source, len: uint32, keySize: uint32): Head
    requires |SourceAttr(source)| < TWO_TO_THE_32
  {
    match source
    case NoObject => Head(TEE_SVC_STORAGE_MAGIC, HEAD_SIZE, 0, len, keySize, 0, 0, TEE_TYPE_DATA, 0)
    case FromObject(objectType, maxObjectSize, objectSize, objectUsage, haveAttrs, attr) =>
      Head(TEE_SVC_STORAGE_MAGIC, HEAD_SIZE, |attr|, len, keySize, maxObjectSize, objectUsage, objectType, haveAttrs)
  }

  /** The initial data that is written: none when there is no buffer. */
  function Payload(data: Buffer): seq<byte> {
    if data.Null? then [] else data.bytes
  }

  /** The whole file of a new object. */
  function NewObject(source: Source, data: Buffer, len: uint32, keySize: uint32): seq<byte>
    requires |SourceAttr(source)| < TWO_TO_THE_32
  {
    EncodeHead(NewHead(source, len, keySize)) + SourceAttr(source) + Payload(data)
  }

  /** A new object claims exactly the data it holds, unless a length was given without a buffer. */
  lemma NewObjectDsCovered(source: Source, data: Buffer, len: uint32, keySize: uint32)
    requires |SourceAttr(source)| < TWO_TO_THE_32 && (data.Data? ==> |data.bytes| == len)
    ensures DsCovered(NewObject(source, data, len, keySize), HEAD_SIZE + |SourceAttr(source)|)
       <==> !(data.Null? && len > 0)
  {
    hide Word, WordAt, EncodeHead;
    HeadRoundTrip(NewHead(source, len, keySize), SourceAttr(source) + Payload(data));
    assert NewObject(source, data, len, keySize)
        == EncodeHead(NewHead(source, len, keySize)) + (SourceAttr(source) + Payload(data));
  }

  /** The names only `name` depends on what happens to, as an operation on it goes on. */
  ghost predicate Confined(steps: seq<Step>, dir0: Directory, disk0: Disk, dir: Directory, disk: Disk, name: string) {
    && WellLinked(dir, disk)
    && OthersSafe(steps, dir0, disk0, name)
    && SameElsewhere(dir0, disk0, dir, disk, name)
  }

  lemma AppendIsWrite(content: seq<byte>, bytes: seq<byte>)
    ensures Apply(FlatFile(content, |content|), Op.Write(bytes)) ==
      if bytes == [] || |content| + |bytes| <= MAX_FILE_SIZE
      then (FlatFile(content + bytes, |content| + |bytes|), Done) else (FlatFile(content, |content|), Refused)
  {
    if bytes == [] {
      assert content + bytes == content;
    } else {
      assert Written(content, |content|, bytes) == content + bytes;
    }
  }

  /** `fops->write` at the end of the file that `name` stands for. `earlier` and `later` are the steps
      since the log was `log0`. */
  method Append(fd: TeeFsFd, bytes: seq<byte>, name: string, ghost log0: seq<Step>, ghost earlier: seq<Step>,
                ghost dir0: Directory, ghost disk0: Disk)
      returns (res: TeeResult, ghost later: seq<Step>)
    requires fd.Valid() && fd.ino in fd.host.disk && fd.pos == |fd.Contents()| && |bytes| < TWO_TO_THE_32
    requires name in fd.host.dir && fd.host.dir[name] == fd.ino && fd.host.log == log0 + earlier
    requires Confined(earlier, dir0, disk0, fd.host.dir, fd.host.disk, name)
    modifies fd, fd.host
    ensures fd.Valid() && fd.ino in fd.host.disk && fd.host.dir == old(fd.host.dir)
    ensures fd.host.log == log0 + later && fd.host.faults >= old(fd.host.faults)
    ensures Confined(later, dir0, disk0, fd.host.dir, fd.host.disk, name)
    ensures res == Success ==>
      && fd.host.faults == old(fd.host.faults)
      && fd.Contents() == old(fd.Contents()) + bytes && fd.pos == |fd.Contents()|
      && (bytes != [] || old(fd.InStep()) ==> fd.InStep()) && (old(fd.AllIntact()) ==> fd.AllIntact())
    ensures res == BadParameters <==> bytes != [] && old(|fd.Contents()|) + |bytes| > MAX_FILE_SIZE
    ensures old(fd.AllIntact()) && fd.host.faults == old(fd.host.faults) ==> res == Success || res == BadParameters
  {
    hide TeeFsFd.Valid, TeeFsFd.AllIntact, TeeFsFd.InStep, TeeFsFd.Contents, OnlyFile, CrashSafe, OnlyInode, OthersSafe,
      SameElsewhere, WellLinked, WriteStages, Apply;
    ghost var disk, steps := fd.host.disk, [];
    HandleFacts(fd);
    AppendIsWrite(fd.Contents(), bytes);
    res, steps := fd.Write(bytes);
    WriteElsewhere(dir0, disk0, fd.host.dir, disk, fd.host.disk, name);
    OthersFile(earlier, steps, fd.ino, fd.host.dir, disk, dir0, disk0, name);
    HandleFacts(fd);
    later := earlier + steps;
    assert log0 + earlier + steps == log0 + later;
  }

  /** The three writes of `tee_svc_storage_init_file`: head, attributes, initial data. */
  method WriteParts(fd: TeeFsFd, head: seq<byte>, attr: seq<byte>, data: Buffer, name: string,
                    ghost log0: seq<Step>, ghost earlier: seq<Step>, ghost dir0: Directory, ghost disk0: Disk)
      returns (res: TeeResult, ghost later: seq<Step>)
    requires fd.Valid() && fd.ino in fd.host.disk && fd.pos == 0 && fd.Contents() == []
    requires |head| == HEAD_SIZE && |attr| < TWO_TO_THE_32 && |Payload(data)| < TWO_TO_THE_32
    requires name in fd.host.dir && fd.host.dir[name] == fd.ino && fd.host.log == log0 + earlier
    requires Confined(earlier, dir0, disk0, fd.host.dir, fd.host.disk, name)
    modifies fd, fd.host
    ensures fd.Valid() && fd.ino in fd.host.disk && fd.host.dir == old(fd.host.dir)
    ensures fd.host.log == log0 + later && fd.host.faults >= old(fd.host.faults)
    ensures Confined(later, dir0, disk0, fd.host.dir, fd.host.disk, name)
    ensures res == Success ==>
      && fd.host.faults == old(fd.host.faults) && Reopen(fd.crypto, fd.host.disk[fd.ino]) == Shows(head + attr + Payload(data))
      && (old(fd.AllIntact()) ==> WholeFile(fd.crypto, fd.host.disk[fd.ino]))
    ensures old(fd.AllIntact()) && fd.host.faults == old(fd.host.faults) ==>
      res == if HEAD_SIZE + |attr| + |Payload(data)| <= MAX_FILE_SIZE then Success else BadParameters
  {
    hide TeeFsFd.Valid, TeeFsFd.AllIntact, TeeFsFd.InStep, TeeFsFd.Contents, Confined, Reopen, WholeFile;
    assert [] + head == head;
    res, later := Append(fd, head, name, log0, earlier, dir0, disk0);
    if res != Success {
      return;
    }
    res, later := Append(fd, attr, name, log0, later, dir0, disk0);
    if res != Success {
      return;
    }
    assert fd.Contents() == head + attr;
    if data.Data? && |data.bytes| > 0 {
      res, later := Append(fd, data.bytes, name, log0, later, dir0, disk0);
      if res != Success {
        return;
      }
    } else {
      assert head + attr == head + attr + Payload(data);
    }
    InStepReopens(fd);
  }

  /** The object carries what this head and these attributes say. */
  predicate Describes(o: TeeObj, head: Head, attr: seq<byte>)
    reads o
  {
    && o.objectType == head.objectType && o.maxObjectSize == head.maxKeySize && o.objectUsage == head.objectUsage
    && o.haveAttrs == head.haveAttrs && o.attr == attr && o.dataSize == head.dsSize
  }

  /** `tee_obj_set_type` and `tee_obj_attr_copy_from` on a zeroed object. */
  method TakeFrom(o: TeeObj, source: Source, len: uint32)
    requires |SourceAttr(source)| < TWO_TO_THE_32
    requires o.objectUsage == o.haveAttrs == 0
    modifies o
    ensures o.fh == old(o.fh) && o.canRead == old(o.canRead) && o.canWrite == old(o.canWrite)
    ensures o.dataPosition == old(o.dataPosition)
    ensures forall keySize: uint32 :: Describes(o, NewHead(source, len, keySize), SourceAttr(source))
  {
    o.attr, o.dataSize := SourceAttr(source), len;
    match source {
      case FromObject(objectType, maxObjectSize, objectSize, objectUsage, haveAttrs, attr) =>
        o.objectType, o.maxObjectSize, o.haveAttrs := objectType, maxObjectSize, haveAttrs;
        o.objectUsage, o.objectSize := objectUsage, objectSize;
      case NoObject =>
        o.objectType, o.maxObjectSize := TEE_TYPE_DATA, 0;
    }
  }

  /** What has become of the temporary file: not created, created but not complete, complete. */
  datatype Progress = NotMade | Partial | Complete

  /** `tee_svc_storage_init_file`: builds the whole object in the temporary file and closes it. A file that
      was created but could not be completed is left behind. `faults` is the number of failures before the
      removal that a failed creation of the file ends with. */
  method InitFile(host: Host, crypto: Crypto, o: TeeObj, tmpfile: string, source: Source, data: Buffer, len: uint32)
      returns (res: TeeResult, ghost steps: seq<Step>, ghost head: Head, ghost progress: Progress, ghost faults: nat)
    requires host.Valid() && crypto.Lawful() && |SourceAttr(source)| < TWO_TO_THE_32
    requires data.Data? ==> |data.bytes| == len
    requires o.fh == null && o.attr == [] && o.objectUsage == o.haveAttrs == o.objectSize == 0
    modifies host, o
    ensures host.log == old(host.log) + steps && host.faults >= old(host.faults)
    ensures Confined(steps, old(host.dir), old(host.disk), host.dir, host.disk, tmpfile)
    ensures o.fh == null && o.canRead == old(o.canRead) && o.canWrite == old(o.canWrite)
    ensures res == Success ==>
      && host.faults == old(host.faults) && head == NewHead(source, len, head.keySize)
      && tmpfile in host.dir && host.dir[tmpfile] in host.disk
      && Reopen(crypto, host.disk[host.dir[tmpfile]]) == Shows(NewObject(source, data, len, head.keySize))
      && (tmpfile !in old(host.dir) ==> WholeFile(crypto, host.disk[host.dir[tmpfile]]))
      && Describes(o, head, SourceAttr(source)) && o.dataPosition == old(o.dataPosition)
    ensures tmpfile !in old(host.dir) && tmpfile != "" && host.faults == old(host.faults) ==>
      res == if |tmpfile| + 1 <= TEE_FS_NAME_MAX && HEAD_SIZE + |SourceAttr(source)| + |Payload(data)| <= MAX_FILE_SIZE
             then Success else BadParameters
    ensures tmpfile !in old(host.dir) && tmpfile != "" && host.faults == old(host.faults) ==>
      && (|tmpfile| + 1 > TEE_FS_NAME_MAX ==> tmpfile !in host.dir)
      && (|tmpfile| + 1 <= TEE_FS_NAME_MAX ==> tmpfile in host.dir)
    ensures (progress == Complete <==> res == Success) && (progress != NotMade ==> tmpfile in host.dir)
    ensures old(host.faults) <= faults <= host.faults
    ensures progress == NotMade && tmpfile !in old(host.dir) && tmpfile != "" && host.faults == faults ==>
      tmpfile !in host.dir
  {
    hide TeeFsFd.Valid, TeeFsFd.AllIntact, TeeFsFd.InStep, TeeFsFd.Contents, OthersSafe, SameElsewhere, WellLinked,
      Reopen, WholeFile, Uncommitted, Crypto.Lawful, EncodeHead, Describes;
    ghost var dir0, disk0 := host.dir, host.disk;
    var fd;
    ghost var begun;
    res, fd, steps, begun, faults := Create(host, crypto, tmpfile);
    head, progress := NewHead(source, len, 0), NotMade;
    if res != Success {
      faults := if begun then faults else host.faults;
      return;
    }
    progress, faults := Partial, host.faults;
    var libraryFails: bool := *;
    if libraryFails {
      host.faults := host.faults + 1;
      res := Generic;
      return;
    }
    TakeFrom(o, source, len);
    var keySize: uint32 := *;
    head := NewHead(source, len, keySize);
    res, steps := WriteParts(fd, EncodeHead(NewHead(source, len, keySize)), SourceAttr(source), data, tmpfile,
                             old(host.log), steps, dir0, disk0);
    if res == Success {
      progress := Complete;
    }
  }

  /** The file starts with a head and the attributes it announces. */
  predicate HoldsObject(content: seq<byte>) {
    |content| >= HEAD_SIZE && HEAD_SIZE + DecodeHead(content).metaSize <= |content|
  }

  function ObjectAttr(content: seq<byte>): seq<byte>
    requires HoldsObject(content)
  {
    content[HEAD_SIZE..HEAD_SIZE + DecodeHead(content).metaSize]
  }

  /** The object is open on `content`, described by its head, with the cursor at the first data byte. */
  ghost predicate OpenOn(o: TeeObj, host: Host, crypto: Crypto, ino: Inode, content: seq<byte>)
    reads o, o.fh, host
  {
    && o.fh != null && o.fh.host == host && o.fh.crypto == crypto && o.fh.ino == ino
    && o.Valid() && o.Synced() && o.dataPosition == 0 && o.fh.InStep()
    && o.fh.Contents() == content && HoldsObject(content)
    && Describes(o, DecodeHead(content), ObjectAttr(content))
  }

  /** What `tee_svc_storage_read_head` takes over; `objectSize` is given the object's type. */
  method TakeHead(o: TeeObj, head: Head, attr: seq<byte>)
    modifies o
    ensures Describes(o, head, attr) && o.objectSize == o.objectType
    ensures o.fh == old(o.fh) && o.dataPosition == old(o.dataPosition)
    ensures o.canRead == old(o.canRead) && o.canWrite == old(o.canWrite)
  {
    o.objectType, o.maxObjectSize, o.attr := head.objectType, head.maxKeySize, attr;
    o.dataSize, o.objectSize, o.objectUsage := head.dsSize, head.objectType, head.objectUsage;
    o.haveAttrs := head.haveAttrs;
  }

  /** The reads of `tee_svc_storage_read_head` on an open file: the head, then the attributes. */
  method ReadHead(o: TeeObj, fd: TeeFsFd) returns (res: TeeResult)
    requires fd.Valid() && fd.pos == 0 && o.fh == null && o.dataPosition == 0
    modifies o, fd`pos, fd.host`faults
    ensures fd.Valid() && fd.Contents() == old(fd.Contents()) && 0 <= fd.pos <= MAX_POSITION
    ensures fd.host.faults >= old(fd.host.faults)
    ensures o.fh == null && o.dataPosition == 0 && o.canRead == old(o.canRead) && o.canWrite == old(o.canWrite)
    ensures res != Success ==> unchanged(o)
    ensures res == Success ==>
      && fd.host.faults == old(fd.host.faults) && HoldsObject(fd.Contents())
      && Describes(o, DecodeHead(fd.Contents()), ObjectAttr(fd.Contents()))
      && o.objectSize == o.objectType
    ensures fd.host.faults == old(fd.host.faults) ==>
      if HoldsObject(fd.Contents()) then res == Success else res in {BadFormat, CorruptObject}
  {
    hide TeeFsFd.Valid, TeeFsFd.Contents, Apply, WordAt, DecodeHead, Slice, Describes;
    ghost var content := fd.Contents();
    HandleFacts(fd);
    ApplyRead(content, 0, HEAD_SIZE);
    HeadSlice(content);
    var bytes;
    res, bytes := fd.Read(HEAD_SIZE);
    if res != Success {
      return;
    }
    if |bytes| != HEAD_SIZE {
      res := BadFormat;
      return;
    }
    var head := DecodeHead(bytes);
    SameHead(content, bytes);
    AttrSlice(content, head.metaSize);
    var libraryFails: bool := *;
    if libraryFails {
      fd.host.faults := fd.host.faults + 1;
      res := Generic;
      return;
    }
    var attr := [];
    if head.metaSize > 0 {
      ApplyRead(content, HEAD_SIZE, head.metaSize);
      res, attr := fd.Read(head.metaSize);
      if res != Success || |attr| != head.metaSize {
        res := CorruptObject;
        return;
      }
    }
    TakeHead(o, head, attr);
  }

  lemma HeadSlice(content: seq<byte>)
    ensures var bytes := Slice(content, 0, HEAD_SIZE);
      (|bytes| == HEAD_SIZE <==> |content| >= HEAD_SIZE) && (|bytes| == HEAD_SIZE ==> bytes == content[..HEAD_SIZE])
  {
  }

  lemma AttrSlice(content: seq<byte>, size: nat)
    requires |content| >= HEAD_SIZE
    ensures var attr := Slice(content, HEAD_SIZE, size);
      && (|attr| == size <==> HEAD_SIZE + size <= |content|)
      && (|attr| == size ==> attr == content[HEAD_SIZE..HEAD_SIZE + size])
  {
  }

  lemma SameHead(content: seq<byte>, bytes: seq<byte>)
    requires |bytes| == HEAD_SIZE <= |content| && bytes == content[..HEAD_SIZE]
    ensures DecodeHead(bytes) == DecodeHead(content)
  {
    hide WordAt;
    forall offset | 0 <= offset <= 32
      ensures WordAt(bytes, offset) == WordAt(content, offset)
    {
      SameWord(bytes, content, offset);
    }
  }

  /** The error code a caller of open or create sees for a failure inside. */
  function Reported(res: TeeResult): TeeResult {
    if res == BadFormat then CorruptObject else res
  }

  /** `syscall_storage_obj_open`. The file is absent, does not open, or was committed; a file whose
      authentic meta names blocks that are not there is not considered. */
  method OpenObject(host: Host, crypto: Crypto, file: string, canRead: bool, canWrite: bool)
      returns (res: TeeResult, o: TeeObj?)
    requires host.Valid() && crypto.Lawful()
    requires file in host.dir && OpenMeta(crypto, host.disk[host.dir[file]]).OpenedMeta? ==>
      Reopen(crypto, host.disk[host.dir[file]]).Shows?
    modifies host
    ensures host.Valid() && host.dir == old(host.dir) && host.disk == old(host.disk) && host.log == old(host.log)
    ensures host.faults >= old(host.faults)
    ensures (o != null) == (res == Success)
    ensures res != BadFormat
    ensures res == Success ==>
      && fresh(o) && fresh(o.fh) && o.canRead == canRead && o.canWrite == canWrite && host.faults == old(host.faults)
      && file in host.dir && Reopen(crypto, host.disk[host.dir[file]]).Shows?
      && OpenOn(o, host, crypto, host.dir[file], Reopen(crypto, host.disk[host.dir[file]]).content)
      && (WholeFile(crypto, host.disk[host.dir[file]]) ==> o.fh.AllIntact())
      && o.objectSize == o.objectType
    ensures |file| + 1 > TEE_FS_NAME_MAX ==> res == BadParameters
    ensures file != "" && |file| + 1 <= TEE_FS_NAME_MAX && host.faults == old(host.faults) ==>
      res == if file !in host.dir then ItemNotFound
             else if Reopen(crypto, host.disk[host.dir[file]]).Shows?
                     && HoldsObject(Reopen(crypto, host.disk[host.dir[file]]).content) then Success
             else CorruptObject
  {
    hide TeeFsFd.Valid, TeeFsFd.Contents, TeeFsFd.InStep, TeeFsFd.AllIntact, Reopen, WholeFile, OpenMeta, DecodeHead,
      Apply, ToInt32;
    o := null;
    var fd;
    res, fd := Open(host, crypto, file);
    if file in host.dir {
      OpenedShows(crypto, host.disk[host.dir[file]]);
    }
    if res != Success {
      return Reported(res), o;
    }
    var obj := new TeeObj(canRead, canWrite);
    res := ReadHead(obj, fd);
    if res != Success {
      return Reported(res), o;
    }
    var ignored;
    HandleFacts(fd);
    ApplySeekSet(fd.Contents(), fd.pos, HEAD_SIZE + |obj.attr|);
    res, ignored := fd.Seek(HEAD_SIZE + |obj.attr|, SeekSet);
    obj.fh := fd;
    o := obj;
  }

  lemma ApplySeekSet(content: seq<byte>, pos: int, offset: nat)
    requires offset <= MAX_POSITION
    ensures Apply(FlatFile(content, pos), Op.Seek(offset, SeekSet)) == (FlatFile(content, offset), Done)
  {
  }

  lemma OpenedShows(crypto: Crypto, image: Image)
    ensures Reopen(crypto, image).Shows? ==> OpenMeta(crypto, image).OpenedMeta?
  {
  }

  // ----- File names -----

  /** What identifies a persistent object: the storage directory, the storage, the TA and its own id. */
  datatype ObjectId = ObjectId(directory: string, storageId: uint32, uuid: seq<byte>, name: seq<byte>)

  /** `tee_b2hs`: two hexadecimal digits a byte. */
  function HexDigit(n: nat): char
    requires n < 16
  {
    "0123456789ABCDEF"[n]
  }

  function Hex(bytes: seq<byte>): (text: string)
    ensures |text| == 2 * |bytes|
  {
    if bytes == [] then "" else
      [HexDigit(bytes[0] as int / 16), HexDigit(bytes[0] as int % 16)] + Hex(bytes[1..])
  }

  /** `tee_svc_storage_create_filename`: directory, storage id, TA id and object id, with a dot before
      the object id in the temporary name. */
  function CreateFilename(id: ObjectId, transient: bool): string {
    id.directory + (Hex(Word(id.storageId)) + ("/" + (Hex(id.uuid) + ("/" + ObjectName(id.name, transient)))))
  }

  function ObjectName(objectId: seq<byte>, transient: bool): string {
    (if transient then "." else "") + Hex(objectId)
  }

  lemma {:induction false} HexInjective(a: seq<byte>, b: seq<byte>)
    requires Hex(a) == Hex(b)
    ensures a == b
  {
    assert |a| == |b|;
    if a != [] {
      var x, y := Hex(a), Hex(b);
      assert x[0] == y[0] && x[1] == y[1];
      assert x[2..] == Hex(a[1..]) && y[2..] == Hex(b[1..]);
      HexInjective(a[1..], b[1..]);
      HexDigitInjective(a[0] as int / 16, b[0] as int / 16);
      HexDigitInjective(a[0] as int % 16, b[0] as int % 16);
      assert a == [a[0]] + a[1..] && b == [b[0]] + b[1..];
    }
  }

  lemma HexDigitReads(n: nat)
    requires n < 16
    ensures HexValue(HexDigit(n)) == n && ('0' <= HexDigit(n) <= '9' || 'A' <= HexDigit(n) <= 'F')
  {
  }

  function HexValue(c: char): int {
    if '0' <= c <= '9' then c as int - '0' as int else c as int - 'A' as int + 10
  }

  /** Two digits a byte, high half first, with capital letters. */
  lemma {:induction false} HexReadsBack(bytes: seq<byte>, i: nat)
    requires i < |bytes|
    ensures var high, low := Hex(bytes)[2 * i], Hex(bytes)[2 * i + 1];
      && (('0' <= high <= '9' || 'A' <= high <= 'F') && ('0' <= low <= '9' || 'A' <= low <= 'F'))
      && 16 * HexValue(high) + HexValue(low) == bytes[i] as int
  {
    hide HexDigit, HexValue;
    if i > 0 {
      HexReadsBack(bytes[1..], i - 1);
      assert Hex(bytes)[2..] == Hex(bytes[1..]);
    } else {
      HexDigitReads(bytes[0] as int / 16);
      HexDigitReads(bytes[0] as int % 16);
    }
  }

  lemma HexDigitInjective(m: nat, n: nat)
    requires m < 16 && n < 16 && HexDigit(m) == HexDigit(n)
    ensures m == n && HexDigit(m) != '.'
  {
  }

  /** Equal texts with front parts of equal length have equal parts. */
  lemma PartsEqual(a: string, b: string, a': string, b': string)
    requires a + b == a' + b' && |a| == |a'|
    ensures a == a' && b == b'
  {
    assert a == (a + b)[..|a|] && a' == (a' + b')[..|a|];
    assert b == (a + b)[|a|..] && b' == (a' + b')[|a|..];
  }

  /** Where the parts of a name are: directory, storage, TA, a dot in the temporary name, object. */
  lemma FilenameParts(id: ObjectId, transient: bool)
    ensures var name, ta := CreateFilename(id, transient), |id.directory| + 8 + 1;
      var last := ta + 2 * |id.uuid| + 1;
      && |name| == last + Bit(transient) + 2 * |id.name|
      && name[..|id.directory|] == id.directory && name[|id.directory|..ta] == Hex(Word(id.storageId)) + "/"
      && name[ta..last] == Hex(id.uuid) + "/"
      && (transient ==> name[last] == '.') && name[last + Bit(transient)..] == Hex(id.name)
  {
    hide Hex, Word;
    var name, ta := CreateFilename(id, transient), |id.directory| + 8 + 1;
    var last := ta + 2 * |id.uuid| + 1;
    var storage, dot := Hex(Word(id.storageId)), if transient then "." else "";
    assert name == id.directory + (storage + "/") + (Hex(id.uuid) + "/") + dot + Hex(id.name);
    assert name[last..] == dot + Hex(id.name);
  }

  /** Two objects in one directory, of any storages and TAs, share a file name only if they are the same
      object in the same state: no object's temporary file is another object's file. */
  lemma FilenamesDistinct(a: ObjectId, b: ObjectId, transientA: bool, transientB: bool)
    requires a.directory == b.directory && |a.uuid| == |b.uuid|
    requires CreateFilename(a, transientA) == CreateFilename(b, transientB)
    ensures a == b && transientA == transientB
  {
    hide Hex, ObjectName, Word;
    var nameA, nameB := ObjectName(a.name, transientA), ObjectName(b.name, transientB);
    var storageA, storageB := Hex(Word(a.storageId)), Hex(Word(b.storageId));
    PartsEqual(a.directory, storageA + ("/" + (Hex(a.uuid) + ("/" + nameA))),
               b.directory, storageB + ("/" + (Hex(b.uuid) + ("/" + nameB))));
    PartsEqual(storageA, "/" + (Hex(a.uuid) + ("/" + nameA)), storageB, "/" + (Hex(b.uuid) + ("/" + nameB)));
    PartsEqual("/", Hex(a.uuid) + ("/" + nameA), "/", Hex(b.uuid) + ("/" + nameB));
    PartsEqual(Hex(a.uuid), "/" + nameA, Hex(b.uuid), "/" + nameB);
    PartsEqual("/", nameA, "/", nameB);
    HexInjective(Word(a.storageId), Word(b.storageId));
    WordRoundTrip(a.storageId);
    WordRoundTrip(b.storageId);
    HexInjective(a.uuid, b.uuid);
    SameObjectName(a.name, b.name, transientA, transientB);
  }

  lemma SameObjectName(a: seq<byte>, b: seq<byte>, transientA: bool, transientB: bool)
    requires ObjectName(a, transientA) == ObjectName(b, transientB)
    ensures a == b && transientA == transientB
  {
    var nameA, nameB := ObjectName(a, transientA), ObjectName(b, transientB);
    assert |nameA| % 2 == Bit(transientA) && |nameB| % 2 == Bit(transientB);
    assert Hex(a) == nameA[Bit(transientA)..] && Hex(b) == nameB[Bit(transientB)..];
    HexInjective(a, b);
  }

  /** An object's temporary name is another name, one longer. */
  lemma TemporaryName(id: ObjectId)
    ensures 0 < |CreateFilename(id, false)| && |CreateFilename(id, true)| == |CreateFilename(id, false)| + 1
    ensures CreateFilename(id, true) != CreateFilename(id, false)
  {
    if CreateFilename(id, true) == CreateFilename(id, false) {
      FilenamesDistinct(id, id, true, false);
    }
  }

  // ----- Create is all-or-nothing by name -----

  /** A name shows its previous file, or nothing, or the complete new object. */
  ghost predicate AllOrNothing(crypto: Crypto, seen: Seen, before: Seen, whole: seq<byte>) {
    seen == before || seen.Absent? || Reopen(crypto, seen.image) == Shows(whole)
  }

  ghost predicate CreateSafe(crypto: Crypto, steps: seq<Step>, file: string, before: Seen, whole: seq<byte>) {
    forall k, dir, disk | 0 <= k < |steps| && CrashState(steps[k], dir, disk) ::
      AllOrNothing(crypto, Look(dir, disk, file), before, whole)
  }

  lemma NameSafeIsCreateSafe(crypto: Crypto, steps: seq<Step>, file: string, before: Seen, whole: seq<byte>)
    requires NameSafe(steps, file, {before})
    ensures CreateSafe(crypto, steps, file, before, whole)
  {
  }

  /** Every name but the two of an object being created shows what it showed before, now and after a crash
      at any of these steps. */
  ghost predicate OthersKept(steps: seq<Step>, dir0: Directory, disk0: Disk, dir: Directory, disk: Disk,
                             file: string, tmpfile: string) {
    forall other | other !in {file, tmpfile} ::
      && NameSafe(steps, other, {Look(dir0, disk0, other)})
      && Look(dir, disk, other) == Look(dir0, disk0, other)
  }

  lemma OthersKeptLink(steps: seq<Step>, dir0: Directory, disk0: Disk, dir: Directory, disk: Disk, after: Directory,
                       file: string, tmpfile: string)
    requires OthersKept(steps, dir0, disk0, dir, disk, file, tmpfile)
    requires forall other | other !in {file, tmpfile} :: Look(after, disk, other) == Look(dir, disk, other)
    ensures OthersKept(steps + [Link(dir, disk, after)], dir0, disk0, after, disk, file, tmpfile)
  {
    hide NameSafe;
    forall other | other !in {file, tmpfile}
      ensures NameSafe(steps + [Link(dir, disk, after)], other, {Look(dir0, disk0, other)})
    {
      LinkIsNameSafe(Link(dir, disk, after), other);
      NameSafeConcat(steps, [Link(dir, disk, after)], other, {Look(dir0, disk0, other)}, {Look(dir0, disk0, other)});
      assert {Look(dir0, disk0, other)} + {Look(dir0, disk0, other)} == {Look(dir0, disk0, other)};
    }
  }

  /** One more directory change keeps a create safe if both its ends are allowed. */
  lemma CreateSafeLink(crypto: Crypto, steps: seq<Step>, step: Step, file: string, before: Seen, whole: seq<byte>)
    requires CreateSafe(crypto, steps, file, before, whole) && step.Link?
    requires AllOrNothing(crypto, Look(step.dir, step.disk, file), before, whole)
    requires AllOrNothing(crypto, Look(step.after, step.disk, file), before, whole)
    ensures CreateSafe(crypto, steps + [step], file, before, whole)
  {
    hide Reopen, AllOrNothing;
    forall k, dir, disk | 0 <= k < |steps + [step]| && CrashState((steps + [step])[k], dir, disk)
      ensures AllOrNothing(crypto, Look(dir, disk, file), before, whole)
    {
      if k < |steps| {
        assert CrashState(steps[k], dir, disk);
      } else {
        assert CrashState(step, dir, disk);
      }
    }
  }

  /** The file of a new object decodes to what it was made from: type, maximum size, usage, attribute mask
      and attributes of the source object, or those of a pure data object, and then the data. */
  lemma NewObjectHolds(source: Source, data: Buffer, len: uint32, keySize: uint32)
    requires |SourceAttr(source)| < TWO_TO_THE_32
    ensures var whole := NewObject(source, data, len, keySize);
      var attr, bytes := if source.NoObject? then [] else source.attr, if data.Null? then [] else data.bytes;
      && |whole| == HEAD_SIZE + |attr| + |bytes|
      && HoldsObject(whole) && ObjectAttr(whole) == attr && Stream(whole, HEAD_SIZE + |attr|) == bytes
      && var head := DecodeHead(whole);
      && head.magic == TEE_SVC_STORAGE_MAGIC && head.headSize == HEAD_SIZE && head.metaSize == |attr|
      && head.dsSize == len && head.keySize == keySize
      && (source.NoObject? ==>
            head.objectType == TEE_TYPE_DATA && head.maxKeySize == head.objectUsage == head.haveAttrs == 0)
      && (source.FromObject? ==>
            && head.objectType == source.objectType && head.maxKeySize == source.maxObjectSize
            && head.objectUsage == source.objectUsage && head.haveAttrs == source.haveAttrs)
  {
    hide EncodeHead, DecodeHead;
    var head := NewHead(source, len, keySize);
    HeadRoundTrip(head, SourceAttr(source) + Payload(data));
    assert NewObject(source, data, len, keySize) == EncodeHead(head) + (SourceAttr(source) + Payload(data));
  }

  /** `fops->rename` of the temporary file to the final name; the temporary file is removed if that fails,
      because the final name may not be replaced or for any other reason. `faults` is the number of failures
      before the removal. */
  method PublishFile(host: Host, crypto: Crypto, tmpfile: string, file: string, overwrite: bool,
                     ghost earlier: seq<Step>, ghost before: Seen, ghost whole: seq<byte>, ghost log0: seq<Step>,
                     ghost dir0: Directory, ghost disk0: Disk)
      returns (res: TeeResult, ghost later: seq<Step>, ghost faults: nat)
    requires OthersKept(earlier, dir0, disk0, host.dir, host.disk, file, tmpfile)
    requires host.Valid() && tmpfile != file && host.log == log0 + earlier
    requires tmpfile in host.dir && Reopen(crypto, host.disk[host.dir[tmpfile]]) == Shows(whole)
    requires Look(host.dir, host.disk, file) == before && CreateSafe(crypto, earlier, file, before, whole)
    modifies host
    ensures host.Valid() && host.log == log0 + later && host.faults >= old(host.faults) && host.disk == old(host.disk)
    ensures CreateSafe(crypto, later, file, before, whole)
    ensures AllOrNothing(crypto, Look(host.dir, host.disk, file), before, whole)
    ensures res == Success ==> file in host.dir && host.dir[file] == old(host.dir)[tmpfile] && host.faults == old(host.faults)
    ensures res == Success ==>
      file in host.dir && file != "" && Reopen(crypto, host.disk[host.dir[file]]) == Shows(whole) && tmpfile !in host.dir
    ensures OthersKept(later, dir0, disk0, host.dir, host.disk, file, tmpfile)
    ensures res != Success ==> Look(host.dir, host.disk, file) == before && host.dir - {tmpfile} == old(host.dir) - {tmpfile}
    ensures res != Success && tmpfile != "" && host.faults == faults ==> tmpfile !in host.dir
    ensures old(host.faults) <= faults <= host.faults && (res == AccessConflict ==> faults == old(host.faults))
    ensures res != CorruptObject && res != BadFormat
    ensures tmpfile != "" && file != "" && !overwrite && file in old(host.dir) ==> res == AccessConflict
    ensures tmpfile != "" && file != "" && (overwrite || file !in old(host.dir)) && host.faults == old(host.faults) ==>
      res == Success
  {
    hide Reopen, OthersKept;
    later := earlier;
    ghost var dir1 := host.dir;
    res := host.RpcRename(tmpfile, file, overwrite);
    faults := host.faults;
    if res == Success {
      OthersKeptLink(earlier, dir0, disk0, dir1, host.disk, host.dir, file, tmpfile);
      CreateSafeLink(crypto, earlier, Link(dir1, host.disk, host.dir), file, before, whole);
      later := earlier + [Link(dir1, host.disk, host.dir)];
      assert log0 + earlier + [Link(dir1, host.disk, host.dir)] == log0 + later;
    } else {
      var removed := host.RpcRemove(tmpfile);
      if removed == Success {
        OthersKeptLink(earlier, dir0, disk0, dir1, host.disk, host.dir, file, tmpfile);
        CreateSafeLink(crypto, earlier, Link(dir1, host.disk, host.dir), file, before, whole);
        later := earlier + [Link(dir1, host.disk, host.dir)];
        assert log0 + earlier + [Link(dir1, host.disk, host.dir)] == log0 + later;
      }
    }
  }

  /** The initial data as it is used: the length goes through a `uint32_t`. */
  function Kept(data: Buffer, len: uint32): Buffer
    requires data.Data? ==> len <= |data.bytes|
  {
    if data.Null? then Null else Data(data.bytes[..len])
  }

  /** `syscall_storage_obj_create`: builds the object under the temporary name, renames it to the final
      one and opens it. However it is cut off or fails, the final name shows what it showed before,
      nothing, or the complete new object. */
  method CreateObject(host: Host, crypto: Crypto, id: ObjectId, overwrite: bool,
                      source: Source, data: Buffer, size: uint64, canRead: bool, canWrite: bool)
      returns (res: TeeResult, o: TeeObj?, ghost steps: seq<Step>, ghost keySize: uint32, ghost progress: Progress,
               ghost faults: nat)
    requires host.Valid() && crypto.Lawful() && |SourceAttr(source)| < TWO_TO_THE_32
    requires data.Data? ==> |data.bytes| == size
    modifies host
    ensures host.Valid() && host.log == old(host.log) + steps && host.faults >= old(host.faults)
    ensures (o != null) == (res == Success) && res != BadFormat
    ensures var len := size % TWO_TO_THE_32;
      var file, tmpfile := CreateFilename(id, false), CreateFilename(id, true);
      var before, whole := old(Look(host.dir, host.disk, file)), NewObject(source, Kept(data, len), len, keySize);
      && CreateSafe(crypto, steps, file, before, whole)
      && AllOrNothing(crypto, Look(host.dir, host.disk, file), before, whole)
      && (res == Success ==>
            fresh(o) && fresh(o.fh) && o.canRead == canRead && o.canWrite == canWrite && host.faults == old(host.faults)
            && file in host.dir && tmpfile !in host.dir && Reopen(crypto, host.disk[host.dir[file]]) == Shows(whole)
            && OpenOn(o, host, crypto, host.dir[file], whole)
            && (tmpfile !in old(host.dir) ==> WholeFile(crypto, host.disk[host.dir[file]]) && o.fh.AllIntact()))
      && OthersKept(steps, old(host.dir), old(host.disk), host.dir, host.disk, file, tmpfile)
      && (progress == Partial ==> res != Success && tmpfile in host.dir)
      && (progress != Partial && tmpfile !in old(host.dir) && host.faults == faults ==> tmpfile !in host.dir)
      && (progress == Complete && host.faults == faults ==> tmpfile !in host.dir)
      && (tmpfile !in old(host.dir) && host.faults == old(host.faults) ==>
            && faults == host.faults
            && (res != Success ==> Look(host.dir, host.disk, file) == before)
            && (tmpfile in host.dir <==> |tmpfile| + 1 <= TEE_FS_NAME_MAX && |whole| > MAX_FILE_SIZE)
            && res == if |tmpfile| + 1 > TEE_FS_NAME_MAX || |whole| > MAX_FILE_SIZE then BadParameters
                      else if !overwrite && file in old(host.dir) then AccessConflict
                      else Success)
  {
    hide TeeFsFd.Valid, TeeFsFd.Contents, TeeFsFd.InStep, TeeFsFd.AllIntact, Reopen, WholeFile, OpenMeta, DecodeHead,
      Apply, ToInt32, NewObject, CreateSafe, OthersSafe, SameElsewhere, Describes, HoldsObject, ObjectAttr, WellLinked,
      OpenOn, Look, OthersKept;
    o, steps, keySize, progress, faults := null, [], 0, NotMade, host.faults;
    var file, tmpfile := CreateFilename(id, false), CreateFilename(id, true);
    TemporaryName(id);
    hide CreateFilename;
    var len := size % TWO_TO_THE_32;
    ghost var before, dir0, disk0, log0 := Look(host.dir, host.disk, file), host.dir, host.disk, host.log;
    NameSafeIsCreateSafe(crypto, [], file, before, NewObject(source, Kept(data, len), len, keySize));
    NothingElseCreated(dir0, disk0, file, tmpfile);
    var busy: bool := *;
    if busy {
      host.faults := host.faults + 1;
      res := Generic;
      return;
    }
    var obj := new TeeObj(canRead, canWrite);
    ghost var head;
    res, steps, head, progress, faults := InitFile(host, crypto, obj, tmpfile, source, Kept(data, len), len);
    keySize := head.keySize;
    ghost var whole := NewObject(source, Kept(data, len), len, keySize);
    OtherNameSafe(steps, dir0, disk0, host.dir, host.disk, tmpfile, file);
    ConfinedKeepsOthers(steps, dir0, disk0, host.dir, host.disk, file, tmpfile);
    NameSafeIsCreateSafe(crypto, steps, file, before, whole);
    NewObjectHolds(source, Kept(data, len), len, keySize);
    if res != Success {
      res := Reported(res);
      return;
    }
    res, steps, faults := PublishFile(host, crypto, tmpfile, file, overwrite, steps, before, whole, log0, dir0, disk0);
    if res != Success {
      res := Reported(res);
      return;
    }
    ghost var faultsInOpen;
    res, steps, faultsInOpen := OpenCreated(host, crypto, obj, file, tmpfile, steps, before, whole, log0, dir0, disk0);
    if res == Success {
      o := obj;
    }
  }

  /** The last part of `syscall_storage_obj_create`: opens the renamed file and seeks to its data. If
      it does not open because it is corrupt, it is removed. */
  method OpenCreated(host: Host, crypto: Crypto, o: TeeObj, file: string, ghost tmpfile: string,
                     ghost earlier: seq<Step>, ghost before: Seen, ghost whole: seq<byte>, ghost log0: seq<Step>,
                     ghost dir0: Directory, ghost disk0: Disk)
      returns (res: TeeResult, ghost later: seq<Step>, ghost faults: nat)
    requires OthersKept(earlier, dir0, disk0, host.dir, host.disk, file, tmpfile)
    requires host.Valid() && crypto.Lawful() && host.log == log0 + earlier
    requires file in host.dir && Reopen(crypto, host.disk[host.dir[file]]) == Shows(whole)
    requires CreateSafe(crypto, earlier, file, before, whole)
    requires HoldsObject(whole) && Describes(o, DecodeHead(whole), ObjectAttr(whole)) && o.dataPosition == 0
    modifies host, o`fh
    ensures host.Valid() && host.log == log0 + later && host.faults >= old(host.faults)
    ensures CreateSafe(crypto, later, file, before, whole)
    ensures AllOrNothing(crypto, Look(host.dir, host.disk, file), before, whole)
    ensures OthersKept(later, dir0, disk0, host.dir, host.disk, file, tmpfile)
    ensures host.dir == old(host.dir) || (res == CorruptObject && host.dir == old(host.dir) - {file})
    ensures res == CorruptObject && file != "" && host.faults == faults ==> file !in host.dir
    ensures res != BadFormat && (res != Success ==> o.fh == old(o.fh))
    ensures old(host.faults) <= faults <= host.faults
    ensures res == Success ==>
      && host.dir == old(host.dir) && host.disk == old(host.disk) && host.log == old(host.log)
      && host.faults == old(host.faults) && fresh(o.fh) && OpenOn(o, host, crypto, host.dir[file], whole)
      && (WholeFile(crypto, host.disk[host.dir[file]]) ==> o.fh.AllIntact())
    ensures file != "" && |file| + 1 <= TEE_FS_NAME_MAX && host.faults == old(host.faults) ==> res == Success
  {
    hide TeeFsFd.Valid, TeeFsFd.Contents, TeeFsFd.InStep, TeeFsFd.AllIntact, Reopen, WholeFile, OpenMeta, DecodeHead,
      Apply, ToInt32, CreateSafe, OthersKept;
    later := earlier;
    ghost var dir1, image := host.dir, host.disk[host.dir[file]];
    var fd;
    res, fd := Open(host, crypto, file);
    faults := host.faults;
    if res != Success {
      if res == CorruptObject {
        var removed := host.RpcRemove(file);
        if removed == Success {
          OthersKeptLink(earlier, dir0, disk0, dir1, host.disk, host.dir, file, tmpfile);
          CreateSafeLink(crypto, earlier, Link(dir1, host.disk, host.dir), file, before, whole);
          later := earlier + [Link(dir1, host.disk, host.dir)];
          assert log0 + earlier + [Link(dir1, host.disk, host.dir)] == log0 + later;
        }
      }
      return;
    }
    var copyFails: bool := *;
    if copyFails {
      host.faults := host.faults + 1;
      res := Generic;
      return;
    }
    var ignored;
    HandleFacts(fd);
    ApplySeekSet(fd.Contents(), fd.pos, HEAD_SIZE + |o.attr|);
    res, ignored := fd.Seek(HEAD_SIZE + |o.attr|, SeekSet);
    o.fh := fd;
  }

  lemma OtherNameSafe(steps: seq<Step>, dir0: Directory, disk0: Disk, dir: Directory, disk: Disk, name: string, other: string)
    requires Confined(steps, dir0, disk0, dir, disk, name) && other != name && WellLinked(dir0, disk0)
    ensures NameSafe(steps, other, {Look(dir0, disk0, other)})
    ensures Look(dir, disk, other) == Look(dir0, disk0, other) && (other in dir <==> other in dir0)
  {
  }

  lemma ConfinedKeepsOthers(steps: seq<Step>, dir0: Directory, disk0: Disk, dir: Directory, disk: Disk, file: string,
                            tmpfile: string)
    requires Confined(steps, dir0, disk0, dir, disk, tmpfile)
    ensures OthersKept(steps, dir0, disk0, dir, disk, file, tmpfile)
  {
  }

  lemma NothingElseCreated(dir: Directory, disk: Disk, file: string, tmpfile: string)
    ensures OthersKept([], dir, disk, dir, disk, file, tmpfile)
  {
  }

  /** Create, then open by name: the second handle carries the type, key size, usage, attribute mask
      and attributes the object was created with, and stands at the first byte of its data. */
  method CreateThenOpen(host: Host, crypto: Crypto, id: ObjectId, overwrite: bool,
                        source: Source, data: Buffer, size: uint64, canRead: bool, canWrite: bool)
      returns (res: TeeResult, o: TeeObj?)
    requires host.Valid() && crypto.Lawful() && (source.FromObject? ==> |source.attr| < TWO_TO_THE_32)
    requires data.Data? ==> |data.bytes| == size
    modifies host
    ensures (o != null) == (res == Success)
    ensures res == Success ==>
      var len := size % TWO_TO_THE_32;
      && o.Valid() && o.Synced() && o.dataPosition == 0 && o.dataSize == len
      && o.canRead == canRead && o.canWrite == canWrite
      && (source.NoObject? ==>
            && o.objectType == TEE_TYPE_DATA && o.maxObjectSize == o.objectUsage == o.haveAttrs == 0 && o.attr == [])
      && (source.FromObject? ==>
            && o.objectType == source.objectType && o.maxObjectSize == source.maxObjectSize
            && o.objectUsage == source.objectUsage && o.haveAttrs == source.haveAttrs && o.attr == source.attr)
      && o.fh.Contents()[HEAD_SIZE + |o.attr|..] == (if data.Null? then [] else data.bytes[..len])
      && (CreateFilename(id, true) !in old(host.dir) ==> o.fh.AllIntact())
    ensures CreateFilename(id, true) !in old(host.dir) && (overwrite || CreateFilename(id, false) !in old(host.dir))
            && |CreateFilename(id, true)| + 1 <= TEE_FS_NAME_MAX
            && HEAD_SIZE + (if source.NoObject? then 0 else |source.attr|)
               + (if data.Null? then 0 else size % TWO_TO_THE_32) <= MAX_FILE_SIZE
            && host.faults == old(host.faults)
      ==> res == Success
  {
    hide TeeFsFd.Valid, TeeFsFd.Contents, TeeFsFd.InStep, TeeFsFd.AllIntact, Reopen, WholeFile, OpenMeta, DecodeHead,
      NewObject, CreateSafe, WellLinked, HoldsObject, ObjectAttr, TeeObj.Valid;
    o := null;
    TemporaryName(id);
    hide CreateFilename;
    var len := size % TWO_TO_THE_32;
    var created;
    ghost var steps, keySize, progress, faults;
    res, created, steps, keySize, progress, faults := CreateObject(host, crypto, id, overwrite, source, data, size, canRead, canWrite);
    NewObjectHolds(source, Kept(data, len), len, keySize);
    if res == Success {
      res, o := OpenObject(host, crypto, CreateFilename(id, false), canRead, canWrite);
    }
  }
}
