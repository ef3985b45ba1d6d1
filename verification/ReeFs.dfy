/** compat/mitee_compat/tee_ree_fs.c: the file handle and its operations. */
module ReeFs {
  import opened Bytes
  import opened Image
  import opened TeeResult
  import opened HostFs
  import opened KeyManager
  import opened ReeLayout
  import opened ReeCommit
  import opened FlatFile

  const TEE_FS_NAME_MAX := 350

  datatype Buffer = Null | Data(bytes: seq<byte>)

  /** The bytes an out-of-place write puts: the buffer's, or zeros when there is none. */
  function Incoming(buf: Buffer, len: nat): (bytes: seq<byte>)
    ensures buf.Null? ==> |bytes| == len
    ensures buf.Data? ==> bytes == buf.bytes
  {
    match buf
    case Null => Zeros(len)
    case Data(bytes) => bytes
  }

  /** The next `size` bytes to put: copied from the buffer, or zeros when there is none. */
  function PieceOf(buf: Buffer, dataPtr: nat, size: nat, len: nat): (piece: seq<byte>)
    requires dataPtr + size <= len && (buf.Data? ==> |buf.bytes| == len)
    ensures piece == Incoming(buf, len)[dataPtr..dataPtr + size]
  {
    match buf
    case Null => Zeros(size)
    case Data(bytes) => bytes[dataPtr..dataPtr + size]
  }

  class TeeFsFd {
    const host: Host
    const crypto: Crypto
    const ino: Inode
    var metaCounter: uint32
    var meta: Meta
    var pos: int

    constructor (host: Host, crypto: Crypto, ino: Inode)
      ensures this.host == host && this.crypto == crypto && this.ino == ino
      ensures metaCounter == 0 && pos == 0
      ensures meta == Meta(FileInfo(0, seq(NUM_BLOCKS, _ => false)), Zeros(FEK_SIZE), 0)
    {
      this.host, this.crypto, this.ino := host, crypto, ino;
      metaCounter, pos := 0, 0;
      meta := Meta(FileInfo(0, seq(NUM_BLOCKS, _ => false)), Zeros(FEK_SIZE), 0);
    }

    ghost predicate Ready()
      reads host`disk
    {
      crypto.Lawful() && ino in host.disk
    }

    ghost function Image(): Image
      reads host`disk
      requires ino in host.disk
    {
      host.disk[ino]
    }

    /** The handle can be used: every block below the length is sealed. */
    ghost predicate Valid()
      reads this`meta, host`disk
    {
      Ready() && Covered(crypto, Image(), meta)
    }

    /** The host file holds exactly the state of this handle. */
    ghost predicate InStep()
      reads this`meta, this`metaCounter, host`disk
      requires ino in host.disk
    {
      Committed(crypto, Image(), metaCounter, meta)
    }

    /** No block of the file refuses to be read or rewritten. */
    ghost predicate AllIntact()
      reads this`meta, host`disk
      requires ino in host.disk
    {
      Whole(crypto, Image(), meta)
    }

    /** Every block of the file is sealed or has never been written. */
    ghost predicate AllTidy()
      reads this`meta, host`disk
      requires ino in host.disk
    {
      Tidy(crypto, Image(), meta)
    }

    /** The counter on the disk is that of this handle, which can be found out by opening the file again. */
    ghost predicate CounterOnDisk()
      reads this`metaCounter, host`disk
      requires ino in host.disk
    {
      OpenMeta(crypto, Image()).OpenedMeta? && OpenMeta(crypto, Image()).counter == metaCounter
    }

    ghost function Contents(): seq<byte>
      reads this`meta, host`disk
      requires Valid()
    {
      Content(crypto, Image(), meta)
    }

    /** `encrypt_and_write_file` */
    method EncryptAndWriteFile(fileType: FileType, offs: nat, dataIn: seq<byte>, fek: seq<byte>)
        returns (res: TeeResult, ghost iv: seq<byte>, ghost wrote: seq<Step>)
      requires Ready() && |fek| == FEK_SIZE && HeaderSize(fileType) + |dataIn| != COUNTER_SIZE
      modifies host`disk, host`log, host`faults
      ensures res != BadParameters
      ensures Ready() && OnlyInode(old(host.disk), host.disk, ino)
      ensures host.log == old(host.log) + wrote
      ensures OneWrite(wrote, ino, host.dir, old(host.disk), offs, HeaderSize(fileType) + |dataIn|)
      ensures res == Success ==>
        && host.faults == old(host.faults) && |iv| == IV_LEN
        && Image() == WriteAt(old(Image()), offs, Seal(crypto, fileType, iv, fek, dataIn))
      ensures res != Success ==>
        && host.faults > old(host.faults)
        && Torn(old(Image()), offs, HeaderSize(fileType) + |dataIn|, Image())
    {
      iv, wrote := [], [];
      var ciphertextSize := HeaderSize(fileType) + |dataIn|;
      var noMemory: bool := *;
      if noMemory {
        host.faults := host.faults + 1;
        return OutOfMemory, iv, wrote;
      }
      var ciphertext, fault;
      res, ciphertext, fault, iv := EncryptFile(crypto, fileType, dataIn, ciphertextSize, fek);
      if res != Success {
        host.faults := host.faults + 1;
        return res, iv, wrote;
      }
      var size;
      wrote := [Put(host.dir, host.disk, ino, offs, ciphertext)];
      res, size := host.RpcWrite(ino, ciphertext, offs);
      PrefixIsTorn(old(Image()), offs, ciphertext, size);
      assert ciphertext[..|ciphertext|] == ciphertext;
    }

    /** `read_block`; `data` is the caller's block buffer. */
    method ReadBlock(bnum: nat, buffer: seq<byte>) returns (res: TeeResult, data: seq<byte>)
      requires Ready() && bnum < |meta.info.table| && |buffer| == BLOCK_SIZE
      modifies host`faults
      ensures res != BadParameters
      ensures |data| == BLOCK_SIZE && host.faults >= old(host.faults)
      ensures res == Success ==>
        && host.faults == old(host.faults)
        && OpenBlock(crypto, Image(), meta, bnum).Opened?
        && OpenBlock(crypto, Image(), meta, bnum).plaintext <= data
      ensures res != Success ==> host.faults > old(host.faults) || OpenBlock(crypto, Image(), meta, bnum).Forged?
    {
      data := buffer;
      var noMemory: bool := *;
      if noMemory {
        host.faults := host.faults + 1;
        return OutOfMemory, data;
      }
      var ct;
      res, ct := host.RpcRead(ino, BLOCK_SLOT, BlockPos(meta.info.table, bnum, true));
      if res != Success {
        return res, data;
      }
      if |ct| == 0 {
        return Success, Zeros(BLOCK_SIZE);
      }
      var plaintext, usedFek, fault;
      res, plaintext, usedFek, fault := DecryptFile(crypto, BlockFile, ct, BLOCK_SIZE, meta.fek);
      if fault {
        host.faults := host.faults + 1;
      }
      if res == Success {
        OnlySealedOpens(crypto, BlockFile, ct, BLOCK_SIZE, meta.fek);
        data := plaintext + data[|plaintext|..];
      }
    }

    /** `write_block` */
    method WriteBlock(bnum: nat, data: seq<byte>, newMeta: Meta)
        returns (res: TeeResult, newMeta': Meta, ghost iv: seq<byte>, ghost wrote: seq<Step>)
      requires Ready() && |data| == BLOCK_SIZE && |newMeta.fek| == FEK_SIZE && bnum < |newMeta.info.table|
      modifies host`disk, host`log, host`faults
      ensures res != BadParameters
      ensures Ready() && OnlyInode(old(host.disk), host.disk, ino)
      ensures host.log == old(host.log) + wrote
      ensures OneWrite(wrote, ino, host.dir, old(host.disk), BlockPos(newMeta.info.table, bnum, false), BLOCK_SLOT)
      ensures res == Success ==>
        && host.faults == old(host.faults) && |iv| == IV_LEN
        && Image() == WriteAt(old(Image()), BlockPos(newMeta.info.table, bnum, false),
                              Seal(crypto, BlockFile, iv, newMeta.fek, data))
        && newMeta' == newMeta.(info := newMeta.info.(table := Toggle(newMeta.info.table, bnum)))
      ensures res != Success ==>
        && host.faults > old(host.faults) && newMeta' == newMeta
        && Torn(old(Image()), BlockPos(newMeta.info.table, bnum, false), BLOCK_SLOT, Image())
    {
      newMeta' := newMeta;
      res, iv, wrote := EncryptAndWriteFile(BlockFile, BlockPos(newMeta.info.table, bnum, false), data, newMeta.fek);
      if res == Success {
        newMeta' := newMeta.(info := newMeta.info.(table := Toggle(newMeta.info.table, bnum)));
      }
    }

    /** The loop body of `out_of_place_write`: reads block `bnum`, puts `piece` at `offset` in it and
        writes it to the block's inactive version. `disk0` is the disk when the operation began. */
    method RewriteBlock(bnum: nat, offset: nat, piece: seq<byte>, buffer: seq<byte>, newMeta0: Meta,
                        ghost disk0: Disk, ghost first: nat, ghost from: nat, ghost bytes: seq<byte>)
        returns (res: TeeResult, block: seq<byte>, newMeta: Meta, ghost wrote: seq<Step>)
      requires Ready() && ino in disk0 && OnlyInode(disk0, host.disk, ino) && Covered(crypto, disk0[ino], meta)
      requires |buffer| == BLOCK_SIZE && first <= bnum < NUM_BLOCKS
      requires Staged(crypto, disk0[ino], Image(), metaCounter, meta, newMeta0, first, bnum, from, bytes)
      requires var start := bnum * BLOCK_SIZE + offset;
        && offset + |piece| <= BLOCK_SIZE && offset < BLOCK_SIZE && from <= start == Max(from, bnum * BLOCK_SIZE)
        && start + |piece| == Min(from + |bytes|, (bnum + 1) * BLOCK_SIZE)
        && piece == bytes[start - from..start - from + |piece|]
      modifies host`disk, host`log, host`faults
      ensures res != BadParameters
      ensures Ready() && OnlyInode(disk0, host.disk, ino) && |block| == BLOCK_SIZE
      ensures host.log == old(host.log) + wrote && host.faults >= old(host.faults)
      ensures Shadowed(wrote, ino, host.dir, disk0, metaCounter, meta)
      ensures Undisturbed(disk0[ino], Image(), metaCounter, meta)
      ensures Whole(crypto, disk0[ino], meta) && host.faults == old(host.faults) ==> res == Success
      ensures res == Success ==>
        && host.faults == old(host.faults) && newMeta.info.length == newMeta0.info.length
        && Staged(crypto, disk0[ino], Image(), metaCounter, meta, newMeta, first, bnum + 1, from, bytes)
    {
      hide OnlyInode, OneWrite, Staged, Undisturbed, SafeTarget, Shadowed, Covered, Whole, Merged, Seal, OpenBlock, Sealed,
        Intact, Min, Max, Crypto.Lawful;
      ghost var image := Image();
      newMeta, wrote := newMeta0, [];
      CoveredWellFormed(crypto, disk0[ino], meta);
      NothingShadowed(ino, host.dir, disk0, metaCounter, meta);
      StagedRead(crypto, disk0[ino], image, metaCounter, meta, newMeta, first, bnum, from, bytes);
      res, block := ReadBlock(bnum, buffer);
      if res != Success {
        return;
      }
      ghost var current := block;
      block := block[..offset] + piece + block[offset + |piece|..];
      MergedBlock(crypto, disk0[ino], meta, bnum, from, bytes, bnum * BLOCK_SIZE + offset, |piece|, current, block);
      ghost var slot, disk, iv := BlockPos(meta.info.table, bnum, false), host.disk, [];
      res, newMeta, iv, wrote := WriteBlock(bnum, block, newMeta);
      OnlyInodeTransitive(disk0, disk, host.disk, ino);
      InactiveIsSafe(metaCounter, meta, bnum);
      ShadowOneWrite(wrote, ino, host.dir, disk0, disk, slot, BLOCK_SLOT, metaCounter, meta);
      if res == Success {
        StageBlock(crypto, disk0[ino], image, metaCounter, meta, newMeta0, first, bnum, from, bytes, iv, block,
                   Image(), newMeta);
      } else {
        TornIsUndisturbed(image, metaCounter, meta, slot, BLOCK_SLOT, Image());
        UndisturbedTransitive(disk0[ino], image, Image(), metaCounter, meta);
      }
    }

    /** `out_of_place_write`: puts `len` bytes at the cursor into the inactive versions of the blocks
        they meet. The cursor advances on success and is restored on failure. */
    method OutOfPlaceWrite(buf: Buffer, len: nat, newMeta0: Meta)
        returns (res: TeeResult, newMeta: Meta, ghost steps: seq<Step>)
      requires Valid() && 0 <= pos <= meta.info.length
      requires len > 0 && pos + len <= MAX_FILE_SIZE && (buf.Data? ==> |buf.bytes| == len)
      requires newMeta0.fek == meta.fek && newMeta0.info.table == meta.info.table
      modifies this`pos, host`disk, host`log, host`faults
      ensures res != BadParameters
      ensures Ready() && OnlyInode(old(host.disk), host.disk, ino)
      ensures host.log == old(host.log) + steps && host.faults >= old(host.faults)
      ensures Shadowed(steps, ino, host.dir, old(host.disk), metaCounter, meta)
      ensures Undisturbed(old(Image()), Image(), metaCounter, meta)
      ensures old(AllIntact()) && host.faults == old(host.faults) ==> res == Success
      ensures res != Success ==> pos == old(pos)
      ensures res == Success ==>
        && host.faults == old(host.faults)
        && pos == old(pos) + len
        && newMeta.info.length == (if pos > newMeta0.info.length then pos else newMeta0.info.length)
        && Staged(crypto, old(Image()), Image(), metaCounter, meta, newMeta,
                  PosToBlockNum(old(pos)), PosToBlockNum(old(pos) + len - 1) + 1, old(pos), Incoming(buf, len))
    {
      hide OnlyInode, PosToBlockNum, BlockOffset, CursorAt, Min, Max, Incoming, PieceOf, Staged, Shadowed, Undisturbed,
        Covered, Whole, Zeros, Content, OpenBlock, Crypto.Lawful;
      ghost var disk0, from, bytes := host.disk, pos, Incoming(buf, len);
      newMeta, steps := newMeta0, [];
      var startBlockNum, endBlockNum := PosToBlockNum(pos), PosToBlockNum(pos + len - 1);
      ghost var first := startBlockNum;
      var remainBytes, dataPtr := len, 0;
      var origPos := pos;
      assert |Zeros(BLOCK_SIZE)| == BLOCK_SIZE;
      var block: seq<byte> :| |block| == BLOCK_SIZE;
      CursorEnds(from, len);
      NothingElse(disk0, ino);
      StagedNothing(crypto, Image(), metaCounter, meta, newMeta, first, from, bytes);
      NothingShadowed(ino, host.dir, disk0, metaCounter, meta);
      while startBlockNum <= endBlockNum
        invariant Ready() && OnlyInode(disk0, host.disk, ino)
        invariant host.log == old(host.log) + steps && host.faults == old(host.faults)
        invariant Shadowed(steps, ino, host.dir, disk0, metaCounter, meta)
        invariant first <= startBlockNum <= endBlockNum + 1 && |block| == BLOCK_SIZE
        invariant dataPtr == pos - from && remainBytes == from + len - pos
        invariant from <= pos == CursorAt(from, len, startBlockNum) <= from + len
        invariant newMeta.info.length == newMeta0.info.length
        invariant Staged(crypto, disk0[ino], Image(), metaCounter, meta, newMeta, first, startBlockNum, from, bytes)
      {
        var offset := BlockOffset(pos);
        var sizeToWrite := Min(remainBytes, BLOCK_SIZE);
        if sizeToWrite + offset > BLOCK_SIZE {
          sizeToWrite := BLOCK_SIZE - offset;
        }
        PieceBounds(from, len, startBlockNum, pos, sizeToWrite);
        var piece := PieceOf(buf, dataPtr, sizeToWrite, len);
        ghost var wrote;
        res, block, newMeta, wrote :=
          RewriteBlock(startBlockNum, offset, piece, block, newMeta, disk0, first, from, bytes);
        ShadowConcat(steps, wrote, ino, host.dir, disk0, metaCounter, meta);
        steps := steps + wrote;
        if res != Success {
          pos := origPos;
          return;
        }
        dataPtr := dataPtr + sizeToWrite;
        remainBytes := remainBytes - sizeToWrite;
        startBlockNum := startBlockNum + 1;
        pos := pos + sizeToWrite;
      }
      StagedAnyLength(crypto, disk0[ino], Image(), metaCounter, meta, newMeta, first, startBlockNum, from, bytes, pos);
      if pos > newMeta.info.length {
        newMeta := newMeta.(info := newMeta.info.(length := pos));
      }
      res := Success;
    }

    /** `write_meta_file`: seals the new meta into the inactive slot. */
    method WriteMetaFile(newMeta: Meta) returns (res: TeeResult, ghost iv: seq<byte>, ghost wrote: seq<Step>)
      requires Ready() && WellFormed(newMeta) && |meta.info.table| == NUM_BLOCKS
      modifies host`disk, host`log, host`faults
      ensures res != BadParameters
      ensures Ready() && OnlyInode(old(host.disk), host.disk, ino)
      ensures host.log == old(host.log) + wrote
      ensures OneWrite(wrote, ino, host.dir, old(host.disk), MetaPos(metaCounter, false), META_RECORD)
      ensures Undisturbed(old(Image()), Image(), metaCounter, meta) && SameBlocks(old(Image()), Image(), newMeta)
      ensures if res == Success then host.faults == old(host.faults) else host.faults > old(host.faults)
      ensures res == Success ==>
        |iv| == IV_LEN && Image() == WithMeta(crypto, old(Image()), metaCounter, newMeta, iv)
    {
      hide Undisturbed, SameBlocks, SafeTarget, Seal, Crypto.Lawful;
      ghost var image0 := Image();
      InactiveIsSafe(metaCounter, meta, 0);
      InactiveIsSafe(metaCounter, newMeta, 0);
      res, iv, wrote := EncryptAndWriteFile(MetaFile, MetaPos(metaCounter, false), EncodeInfo(newMeta.info), newMeta.fek);
      if res == Success {
        WrittenMeta(crypto, image0, metaCounter, newMeta, iv);
      }
      TornIsUndisturbed(image0, metaCounter, meta, MetaPos(metaCounter, false), META_RECORD, Image());
      TornIsUndisturbed(image0, metaCounter, newMeta, MetaPos(metaCounter, false), META_RECORD, Image());
      UndisturbedSameBlocks(image0, Image(), metaCounter, newMeta);
    }

    /** `write_meta_counter` */
    method WriteMetaCounter() returns (res: TeeResult)
      requires Ready()
      modifies host`disk, host`log, host`faults
      ensures res != BadParameters
      ensures Ready() && OnlyInode(old(host.disk), host.disk, ino)
      ensures host.log == old(host.log) + [Put(host.dir, old(host.disk), ino, 0, Word(metaCounter))]
      ensures if res == Success then host.faults == old(host.faults) else host.faults > old(host.faults)
      ensures Image() == WriteAt(old(Image()), 0, Word(metaCounter)) || (res != Success && Image() == old(Image()))
    {
      var size;
      res, size := host.RpcWrite(ino, Word(metaCounter), 0);
      assert Word(metaCounter)[..4] == Word(metaCounter);
    }

    /** `commit_meta_file`: writes the new meta to the inactive slot, takes it over into the handle,
        and then writes the counter. When the counter write fails the handle is ahead of the disk. */
    method CommitMetaFile(newMeta0: Meta) returns (res: TeeResult, ghost steps: seq<Step>)
      requires Ready() && Covered(crypto, Image(), newMeta0) && |meta.info.table| == NUM_BLOCKS
      modifies this`meta, this`metaCounter, host`disk, host`log, host`faults
      ensures res != BadParameters
      ensures Ready() && OnlyInode(old(host.disk), host.disk, ino)
      ensures host.log == old(host.log) + steps && OnlyFile(steps, ino, host.dir, old(host.disk))
      ensures if res == Success then host.faults == old(host.faults) else host.faults > old(host.faults)
      ensures SameBlocks(old(Image()), Image(), newMeta0)
      ensures res == Success ==>
        && metaCounter == (old(metaCounter) + 1) % TWO_TO_THE_32 && meta == newMeta0.(counter := metaCounter)
        && InStep()
        && (Whole(crypto, old(Image()), newMeta0) ==> AllIntact())
      ensures res == Success ==> steps != [] && CrashAt(steps[|steps| - 1], ino, Image())
      ensures res != Success ==>
        && SameBlocks(old(Image()), Image(), old(meta))
        && ((metaCounter == old(metaCounter) && meta == old(meta))
            || (metaCounter == (old(metaCounter) + 1) % TWO_TO_THE_32 && meta == newMeta0.(counter := metaCounter)
                && !SafeTarget(old(metaCounter), old(meta), MetaPos(metaCounter, false), META_RECORD)))
        && (old(InStep()) ==>
              Reopen(crypto, Image()).Shows? && Reopen(crypto, Image()).content
                in {old(Content(crypto, Image(), meta)), old(Content(crypto, Image(), newMeta0))})
      ensures old(InStep()) ==> (InStep() <==> CounterOnDisk())
      ensures old(AllTidy()) && Tidy(crypto, old(Image()), newMeta0) ==> AllTidy()
      ensures old(InStep()) ==>
        CrashSafe(crypto, steps, ino, {old(Content(crypto, Image(), meta)), old(Content(crypto, Image(), newMeta0))})
    {
      hide Undisturbed, SameBlocks, Covered, Whole, Tidy, OpenMeta, CrashSafe, Committed, OnlyFile, OneWrite, WithMeta, Content,
        Crypto.Lawful;
      ghost var disk0, counter0, meta0 := host.disk, metaCounter, meta;
      CoveredWellFormed(crypto, Image(), newMeta0);
      var newMeta := newMeta0.(counter := NextCounter(metaCounter));
      SameView(crypto, Image(), newMeta0, newMeta);
      ghost var iv, wrote;
      res, iv, wrote := WriteMetaFile(newMeta);
      ghost var disk1 := host.disk;
      SameSlots(disk0[ino], disk1[ino], newMeta0, newMeta);
      if res != Success {
        CommitIsCrashSafe(crypto, wrote, [], ino, host.dir, disk0, disk1, counter0, meta0, newMeta, iv);
        assert wrote + [] == wrote;
        steps := wrote;
        UndisturbedSameBlocks(disk0[ino], disk1[ino], counter0, meta0);
        if Committed(crypto, disk0[ino], counter0, meta0) {
          UndisturbedKeeps(crypto, disk0[ino], disk1[ino], counter0, meta0);
          CommittedCounter(crypto, disk1[ino], counter0, meta0);
        }
        if Tidy(crypto, disk0[ino], meta0) {
          SameBlocksTidy(crypto, disk0[ino], disk1[ino], meta0);
        }
        return;
      }
      // From here on the new meta counts as committed.
      meta := newMeta;
      metaCounter := meta.counter;
      res := WriteMetaCounter();
      ghost var counted := [Put(host.dir, disk1, ino, 0, Word(metaCounter))];
      steps := wrote + counted;
      CommitIsCrashSafe(crypto, wrote, counted, ino, host.dir, disk0, disk1, counter0, meta0, newMeta, iv);
      ghost var published := WriteAt(disk1[ino], 0, Word(metaCounter));
      CommitPublishes(crypto, disk0[ino], counter0, newMeta, iv, disk1[ino], published);
      PublishedKeepsBlocks(crypto, disk0[ino], counter0, newMeta, iv, disk1[ino], published, newMeta);
      PublishedKeepsBlocks(crypto, disk0[ino], counter0, newMeta, iv, disk1[ino], published, meta0);
      UndisturbedSameBlocks(disk0[ino], disk1[ino], counter0, meta0);
      SameSlots(disk0[ino], published, newMeta0, newMeta);
      CounterWriteLeaves(steps[|steps| - 1], ino, Image());
      AheadIsUnsafe(counter0, meta0, metaCounter);
      CommittedCounter(crypto, published, metaCounter, newMeta);
      TidyOfTable(crypto, disk0[ino], newMeta0, newMeta);
      if Tidy(crypto, disk0[ino], newMeta) {
        SameBlocksTidy(crypto, disk0[ino], published, newMeta);
        SameBlocksTidy(crypto, disk0[ino], disk1[ino], newMeta);
      }
      if Committed(crypto, disk0[ino], counter0, meta0) {
        UndisturbedKeeps(crypto, disk0[ino], disk1[ino], counter0, meta0);
        CommittedCounter(crypto, disk1[ino], counter0, meta0);
        CommittedReopens(crypto, disk0[ino], counter0, meta0);
        CrashSafeAt(crypto, steps, ino, {Content(crypto, disk0[ino], meta0), Content(crypto, disk0[ino], newMeta)},
                    |steps| - 1, Image());
      }
    }

    /** `out_of_place_write` followed by `commit_meta_file`, as extending and writing both do. */
    method PutAndCommit(buf: Buffer, len: nat, newMeta0: Meta) returns (res: TeeResult, ghost steps: seq<Step>)
      requires Valid() && 0 <= pos <= meta.info.length
      requires len > 0 && pos + len <= MAX_FILE_SIZE && (buf.Data? ==> |buf.bytes| == len)
      requires newMeta0.fek == meta.fek && newMeta0.info.table == meta.info.table
      requires Max(newMeta0.info.length, pos + len) == Max(meta.info.length, pos + len)
      modifies this`pos, this`meta, this`metaCounter, host`disk, host`log, host`faults
      ensures res != BadParameters
      ensures Valid() && OnlyInode(old(host.disk), host.disk, ino)
      ensures host.log == old(host.log) + steps && OnlyFile(steps, ino, host.dir, old(host.disk))
      ensures host.faults >= old(host.faults)
      ensures old(AllIntact()) && host.faults == old(host.faults) ==> res == Success
      ensures old(InStep()) ==> (InStep() <==> CounterOnDisk())
      ensures old(AllTidy()) ==> AllTidy()
      ensures var after := Splice(old(Contents()), old(pos), Incoming(buf, len));
        && (res == Success ==>
              && host.faults == old(host.faults) && InStep() && pos == old(pos) + len
              && Contents() == after && (old(AllIntact()) ==> AllIntact())
              && steps != [] && CrashAt(steps[|steps| - 1], ino, Image()))
        && (res != Success ==>
              && pos in {old(pos), old(pos) + len} && Contents() in {old(Contents()), after}
              && (pos == old(pos) ==> metaCounter == old(metaCounter) && meta == old(meta) && Contents() == old(Contents()))
              && (old(InStep()) ==>
                    Reopen(crypto, Image()).Shows? && Reopen(crypto, Image()).content in {old(Contents()), after}))
        && (old(InStep()) ==> CrashSafe(crypto, steps, ino, {old(Contents()), after}))
    {
      hide Undisturbed, SameBlocks, Covered, Whole, Tidy, OpenMeta, CrashSafe, Committed, OnlyFile, Content, Staged,
        Shadowed, Reopen, Splice, Crypto.Lawful, OnlyInode, CrashAt;
      ghost var disk0, dir, counter0, meta0, from, bytes := host.disk, host.dir, metaCounter, meta, pos, Incoming(buf, len);
      ghost var image0 := disk0[ino];
      CoveredWellFormed(crypto, image0, meta0);
      ghost var before := Contents();
      ghost var after := Splice(before, from, bytes);
      var newMeta;
      res, newMeta, steps := OutOfPlaceWrite(buf, len, newMeta0);
      ghost var disk1 := host.disk;
      ShadowedOnlyFile(steps, ino, dir, disk0, counter0, meta0);
      UndisturbedSameBlocks(image0, disk1[ino], counter0, meta0);
      SameBlocksKeep(crypto, image0, disk1[ino], meta0);
      if Committed(crypto, image0, counter0, meta0) {
        ShadowedIsCrashSafe(crypto, steps, ino, dir, disk0, counter0, meta0);
        UndisturbedKeeps(crypto, image0, disk1[ino], counter0, meta0);
        CrashSafeWiden(crypto, steps, ino, {before}, {before, after});
        CommittedCounter(crypto, disk1[ino], counter0, meta0);
      }
      if Tidy(crypto, image0, meta0) {
        SameBlocksTidy(crypto, image0, disk1[ino], meta0);
      }
      if res != Success {
        return;
      }
      assert AllStaged(crypto, image0, disk1[ino], counter0, meta0, newMeta, from, bytes);
      StagedCovered(crypto, image0, disk1[ino], counter0, meta0, newMeta, from, bytes);
      StagedContent(crypto, image0, disk1[ino], counter0, meta0, newMeta, from, bytes);
      ghost var committing;
      res, committing := CommitMetaFile(newMeta);
      OnlyInodeTransitive(disk0, disk1, host.disk, ino);
      OnlyFileConcat(steps, committing, ino, dir, disk0, disk1);
      if Committed(crypto, image0, counter0, meta0) {
        CrashSafeConcat(crypto, steps, committing, ino, {before, after}, {before, after});
        assert {before, after} + {before, after} == {before, after};
      }
      steps := steps + committing;
      SameBlocksKeep(crypto, disk1[ino], Image(), newMeta);
      SameView(crypto, Image(), newMeta, newMeta.(counter := metaCounter));
      if res != Success {
        SameBlocksKeep(crypto, disk1[ino], Image(), meta0);
      }
    }

    /** The raw writes of `create_meta`: the first meta goes to the inactive slot, under counter 0. */
    method WriteInitialMeta() returns (res: TeeResult, ghost steps: seq<Step>)
      requires Ready() && WellFormed(meta) && metaCounter == 0 && meta.info.length == 0
      requires forall b | 0 <= b < NUM_BLOCKS :: meta.info.table[b]
      modifies host`disk, host`log, host`faults
      ensures Ready() && OnlyInode(old(host.disk), host.disk, ino)
      ensures host.log == old(host.log) + steps && OnlyFile(steps, ino, host.dir, old(host.disk))
      ensures if res == Success then host.faults == old(host.faults) else host.faults > old(host.faults)
      ensures Valid() && Contents() == []
      ensures res == Success && |old(Image())| <= SlotPos(0, 1) ==> AllIntact()
      ensures res == Success && old(Image()) == [] ==> Uncommitted(crypto, Image())
      ensures res == Success ==> HoldsInitialMeta(crypto, Image(), meta)
    {
      hide OneWrite, OnlyFile, OnlyInode, Undisturbed, SameBlocks, WithMeta, Covered, Content, Whole, Uncommitted,
        HoldsInitialMeta, Crypto.Lawful;
      ghost var disk0 := host.disk;
      ghost var iv, wrote;
      res, iv, wrote := WriteMetaFile(meta);
      steps := wrote;
      MetaWriteIsCrashSafe(crypto, wrote, ino, host.dir, disk0, 0, meta);
      if res == Success {
        ghost var disk1 := host.disk;
        WrittenMeta(crypto, disk0[ino], 0, meta, iv);
        res := WriteMetaCounter();
        steps := wrote + [Put(host.dir, disk1, ino, 0, Word(0))];
        OneStepOnlyFile(host.dir, disk1, ino, 0, Word(0));
        OnlyInodeTransitive(disk0, disk1, host.disk, ino);
        OnlyFileConcat(wrote, [Put(host.dir, disk1, ino, 0, Word(0))], ino, host.dir, disk0, disk1);
        if res == Success {
          InitialMetaWritten(crypto, disk0[ino], meta, iv, Image());
        }
        if disk0[ino] == [] && res == Success {
          UncommittedFile(crypto, meta, iv, Image());
        }
      }
      EmptyFile(crypto, Image(), meta);
    }

    /** Every field of the handle and the host disk are as given. */
    ghost predicate Unchanged(counter: uint32, meta: Meta, disk: Disk, steps: seq<Step>)
      reads this`meta, this`metaCounter, host`disk
    {
      metaCounter == counter && this.meta == meta && host.disk == disk && steps == []
    }

    /** `ree_fs_ftruncate_internal`. While the zeros of an extension are written the cursor is kept
        in an `int`, which truncates it to 32 bits. */
    method FtruncateInternal(newFileLen: nat) returns (res: TeeResult, ghost steps: seq<Step>)
      requires Valid()
      modifies this`pos, this`meta, this`metaCounter, host`disk, host`log, host`faults
      ensures Valid() && OnlyInode(old(host.disk), host.disk, ino)
      ensures host.log == old(host.log) + steps && OnlyFile(steps, ino, host.dir, old(host.disk))
      ensures host.faults >= old(host.faults)
      ensures pos == if old(meta.info.length) < newFileLen <= MAX_FILE_SIZE then ToInt32(old(pos)) else old(pos)
      ensures newFileLen > MAX_FILE_SIZE ==>
        Unchanged(old(metaCounter), old(meta), old(host.disk), steps)
      ensures res == BadParameters <==> newFileLen > MAX_FILE_SIZE
      ensures res == BadParameters ==> host.faults == old(host.faults)
      ensures newFileLen <= MAX_FILE_SIZE && old(AllIntact()) && host.faults == old(host.faults) ==> res == Success
      ensures old(InStep()) ==> (InStep() <==> CounterOnDisk())
      ensures old(AllTidy()) ==> AllTidy()
      ensures var after := Resize(old(Contents()), newFileLen);
        && (res == Success ==>
              && host.faults == old(host.faults) && InStep()
              && Contents() == after && (old(AllIntact()) ==> AllIntact())
              && steps != [] && CrashAt(steps[|steps| - 1], ino, Image()))
        && (res != Success ==>
              && Contents() in {old(Contents()), after}
              && (old(InStep()) ==>
                    Reopen(crypto, Image()).Shows? && Reopen(crypto, Image()).content in {old(Contents()), after}))
        && (old(InStep()) ==> CrashSafe(crypto, steps, ino, {old(Contents()), after}))
    {
      hide Undisturbed, SameBlocks, Covered, Whole, Tidy, OpenMeta, CrashSafe, Committed, OnlyFile, Content, Reopen,
        Resize, Splice, Crypto.Lawful, ToInt32;
      steps := [];
      ghost var disk0, dir, counter0, meta0 := host.disk, host.dir, metaCounter, meta;
      CoveredWellFormed(crypto, disk0[ino], meta0);
      NoSteps(crypto, ino, dir, disk0, {Contents(), Resize(Contents(), newFileLen)});
      if InStep() {
        CommittedReopens(crypto, Image(), metaCounter, meta);
        CommittedCounter(crypto, Image(), metaCounter, meta);
      }
      var oldFileLen := meta.info.length;
      if newFileLen > MAX_FILE_SIZE {
        return BadParameters, steps;
      }
      var newMeta := meta.(info := meta.info.(length := newFileLen));
      if newFileLen > oldFileLen {
        var origPos := ToInt32(pos);
        pos := oldFileLen;
        ExtendedContent(Contents(), newFileLen);
        res, steps := PutAndCommit(Null, newFileLen - oldFileLen, newMeta);
        pos := origPos;
      } else {
        ShrunkContent(crypto, Image(), meta, newFileLen);
        TidyOfTable(crypto, Image(), meta, newMeta);
        res, steps := CommitMetaFile(newMeta);
        SameBlocksKeep(crypto, disk0[ino], Image(), newMeta);
        SameView(crypto, Image(), newMeta, newMeta.(counter := metaCounter));
        if res != Success {
          SameBlocksKeep(crypto, disk0[ino], Image(), meta0);
        }
      }
    }

    /** The plain file this handle stands for. */
    ghost function View(): FlatFile
      reads this`meta, this`pos, host`disk
      requires Valid()
    {
      FlatFile(Contents(), pos)
    }

    /** `ree_fs_truncate`, for lengths that do not turn negative as a `tee_fs_off_t`. */
    method Truncate(len: nat) returns (res: TeeResult, ghost steps: seq<Step>)
      requires Valid() && len < TWO_TO_THE_63
      modifies this`pos, this`meta, this`metaCounter, host`disk, host`log, host`faults
      ensures Valid() && OnlyInode(old(host.disk), host.disk, ino)
      ensures host.log == old(host.log) + steps && OnlyFile(steps, ino, host.dir, old(host.disk))
      ensures host.faults >= old(host.faults)
      ensures old(InStep()) ==> (InStep() <==> CounterOnDisk())
      ensures old(AllTidy()) ==> AllTidy()
      ensures var (after, outcome) := Apply(old(View()), Op.Truncate(len));
        && (outcome.Refused? <==> len > MAX_FILE_SIZE)
        && (outcome.Refused? <==> res == BadParameters)
        && pos == (if old(|Contents()|) < len <= MAX_FILE_SIZE then ToInt32(old(pos)) else old(pos))
        && (outcome.Refused? ==> host.faults == old(host.faults))
        && (outcome.Refused? ==>
              pos == old(pos) && Unchanged(old(metaCounter), old(meta), old(host.disk), steps))
        && (outcome.Done? && old(AllIntact()) && host.faults == old(host.faults) ==> res == Success)
        && (res == Success ==>
              outcome.Done? && host.faults == old(host.faults) && InStep() && View() == after
              && (old(AllIntact()) ==> AllIntact()))
        && (res != Success ==>
              pos == after.pos && Contents() in {old(Contents()), Resize(old(Contents()), len)}
              && (old(InStep()) ==>
                    Reopen(crypto, Image()).Shows?
                    && Reopen(crypto, Image()).content in {old(Contents()), Resize(old(Contents()), len)}))
        && (old(InStep()) ==> CrashSafe(crypto, steps, ino, {old(Contents()), Resize(old(Contents()), len)}))
    {
      hide Covered, Whole, Tidy, OpenMeta, CrashSafe, Committed, OnlyFile, Content, Reopen, Resize, Crypto.Lawful, ToInt32;
      ContentLength(crypto, Image(), meta);
      res, steps := FtruncateInternal(len);
    }

    /** `ree_fs_write`. A write past the end commits twice: the zeros up to the cursor, then the data, so
        there is a moment at which a crash shows the zeros without the data. */
    method Write(buf: seq<byte>) returns (res: TeeResult, ghost steps: seq<Step>)
      requires Valid() && -TWO_TO_THE_31 <= pos <= MAX_POSITION && |buf| < TWO_TO_THE_63
      modifies this`pos, this`meta, this`metaCounter, host`disk, host`log, host`faults
      ensures Valid() && OnlyInode(old(host.disk), host.disk, ino)
      ensures host.log == old(host.log) + steps && OnlyFile(steps, ino, host.dir, old(host.disk))
      ensures host.faults >= old(host.faults)
      ensures old(InStep()) ==> (InStep() <==> CounterOnDisk())
      ensures old(AllTidy()) ==> AllTidy()
      ensures var (after, outcome) := Apply(old(View()), Op.Write(buf));
        && (outcome.Refused? <==> res == BadParameters)
        && (res == BadParameters <==> buf != [] && (old(pos) < 0 || old(pos) + |buf| > MAX_FILE_SIZE))
        && (outcome.Refused? ==> host.faults == old(host.faults))
        && (outcome.Refused? || buf == [] ==>
              View() == old(View()) && Unchanged(old(metaCounter), old(meta), old(host.disk), steps))
        && (outcome.Done? && old(AllIntact()) && host.faults == old(host.faults) ==> res == Success)
        && (res == Success ==>
              outcome.Done? && host.faults == old(host.faults) && View() == after
              && (buf != [] || old(InStep()) ==> InStep()) && (old(AllIntact()) ==> AllIntact()))
        && (res != Success ==>
              pos in {old(pos), after.pos} && Contents() in WriteStages(old(Contents()), old(pos), buf)
              && (0 <= pos == old(pos) ==> Contents() in {old(Contents()), Reaching(old(Contents()), old(pos))})
              && (old(InStep()) ==>
                    Reopen(crypto, Image()).Shows?
                    && Reopen(crypto, Image()).content in WriteStages(old(Contents()), old(pos), buf)))
        && (res == Success && old(InStep()) && buf != [] && old(|Contents()|) < old(pos) ==>
              ShowsMidway(crypto, steps, ino, Reaching(old(Contents()), old(pos))))
        && (old(InStep()) ==> CrashSafe(crypto, steps, ino, WriteStages(old(Contents()), old(pos), buf)))
    {
      hide OnlyInode, Covered, Whole, Tidy, OpenMeta, CrashSafe, CrashAt, ShowsMidway, Committed, OnlyFile, Content,
        Reopen, Resize, Splice, Crypto.Lawful;
      ghost var disk0, dir, content, pos0 := host.disk, host.dir, Contents(), pos;
      ghost var stages := WriteStages(content, pos0, buf);
      steps := [];
      NothingElse(disk0, ino);
      NoSteps(crypto, ino, dir, disk0, stages);
      ContentLength(crypto, Image(), meta);
      if InStep() {
        CommittedReopens(crypto, Image(), metaCounter, meta);
        CommittedCounter(crypto, Image(), metaCounter, meta);
      }
      var len := |buf|;
      if len == 0 {
        return Success, steps;
      }
      var fileSize := meta.info.length;
      var sum := (pos + len) % TWO_TO_THE_64;
      if sum > MAX_FILE_SIZE || sum < len {
        return BadParameters, steps;
      }
      assert 0 <= pos && pos + len <= MAX_FILE_SIZE;
      if fileSize < pos {
        res, steps := FtruncateInternal(pos);
        if InStep() {
          CommittedReopens(crypto, Image(), metaCounter, meta);
        }
        if old(InStep()) {
          CrashSafeWiden(crypto, steps, ino, {content, Resize(content, pos0)}, stages);
        }
        if res != Success {
          return;
        }
      }
      ghost var disk1, filling, storing := host.disk, steps, [];
      ContentLength(crypto, Image(), meta);
      res, storing := PutAndCommit(Data(buf), len, meta);
      OnlyFileConcat(filling, storing, ino, dir, disk0, disk1);
      OnlyInodeTransitive(disk0, disk1, host.disk, ino);
      steps := filling + storing;
      if old(InStep()) && |content| < pos0 {
        ShowsMidwayAt(crypto, filling, storing, ino, Reaching(content, pos0), |filling| - 1, disk1[ino]);
      }
      if old(InStep()) {
        CrashSafeWiden(crypto, storing, ino, {Reaching(content, pos0), Written(content, pos0, buf)}, stages);
        CrashSafeConcat(crypto, filling, storing, ino, stages, stages);
        assert stages + stages == stages;
      }
    }

    /** Reads block `bnum`, of which `[offset, offset + size)` lies below the length: it opens, unless
        the host, memory or the cipher fails, and that part is the content there. */
    method ReadPart(bnum: nat, offset: nat, size: nat, buffer: seq<byte>, ghost start: nat)
        returns (res: TeeResult, block: seq<byte>)
      requires start == bnum * BLOCK_SIZE + offset
      requires Valid() && |buffer| == BLOCK_SIZE
      requires size > 0 && offset + size <= BLOCK_SIZE && bnum * BLOCK_SIZE + offset + size <= meta.info.length
      modifies host`faults
      ensures Valid() && Contents() == old(Contents()) && |block| == BLOCK_SIZE && host.faults >= old(host.faults)
      ensures res == Success <==> host.faults == old(host.faults)
      ensures |Contents()| == meta.info.length
      ensures res == Success ==> block[offset..offset + size] == Part(Contents(), start, size)
    {
      hide Covered, Content, OpenBlock, Unseal, Crypto.Lawful;
      ContentLength(crypto, Image(), meta);
      CoveredWellFormed(crypto, Image(), meta);
      res, block := ReadBlock(bnum, buffer);
      ReadPiece(crypto, Image(), meta, bnum, offset, size, start, [], block);
      assert [] + block[offset..offset + size] == block[offset..offset + size];
    }

    /** The loop of `ree_fs_read`: `size` bytes at the cursor, all of them below the length. */
    method ReadBlocks(size: nat) returns (res: TeeResult, data: seq<byte>)
      requires Valid() && 0 <= pos && size > 0 && pos + size <= meta.info.length
      modifies this`pos, host`faults
      ensures Valid() && Contents() == old(Contents()) && host.faults >= old(host.faults) && res != MacInvalid
      ensures res == Success <==> host.faults == old(host.faults)
      ensures |data| <= size && old(pos) + size <= |Contents()| && data == Part(Contents(), old(pos), |data|)
      ensures pos == old(pos) + |data| && (res == Success ==> |data| == size)
    {
      hide TeeFsFd.Valid, TeeFsFd.Contents, PosToBlockNum, BlockOffset, CursorAt, Min, Max, Part;
      ghost var content, from := Contents(), pos;
      HandleFacts(this);
      data := [];
      var remainBytes := size;
      var startBlockNum, endBlockNum := PosToBlockNum(pos), PosToBlockNum(pos + remainBytes - 1);
      CursorEnds(from, size);
      PartOfNothing(content, from);
      assert |Zeros(BLOCK_SIZE)| == BLOCK_SIZE;
      var block: seq<byte> :| |block| == BLOCK_SIZE;
      while startBlockNum <= endBlockNum
        invariant PosToBlockNum(from) <= startBlockNum <= endBlockNum + 1 && |block| == BLOCK_SIZE
        invariant Valid() && Contents() == content && host.faults == old(host.faults)
        invariant remainBytes == from + size - pos && pos == from + |data|
        invariant from <= pos == CursorAt(from, size, startBlockNum) <= from + size
        invariant data == Part(content, from, |data|)
      {
        var offset := BlockOffset(pos);
        var sizeToRead := Min(remainBytes, BLOCK_SIZE);
        if sizeToRead + offset > BLOCK_SIZE {
          sizeToRead := BLOCK_SIZE - offset;
        }
        PieceBounds(from, size, startBlockNum, pos, sizeToRead);
        res, block := ReadPart(startBlockNum, offset, sizeToRead, block, pos);
        if res != Success {
          if res == MacInvalid {
            res := CorruptObject;
          }
          return;
        }
        PartsJoin(content, from, |data|, sizeToRead);
        data := data + block[offset..offset + sizeToRead];
        remainBytes := remainBytes - sizeToRead;
        pos := pos + sizeToRead;
        startBlockNum := startBlockNum + 1;
      }
      res := Success;
    }

    /** `ree_fs_read`, for lengths that do not turn negative as a `tee_fs_off_t`. It never meets an
        unsealed block: only the host, memory or the cipher can make it fail. */
    method Read(len: nat) returns (res: TeeResult, data: seq<byte>)
      requires Valid() && -TWO_TO_THE_31 <= pos <= MAX_POSITION && Readable(pos, len) && len < TWO_TO_THE_63
      modifies this`pos, host`faults
      ensures Valid() && Contents() == old(Contents()) && host.faults >= old(host.faults) && res != MacInvalid
      ensures res == Success <==> host.faults == old(host.faults)
      ensures pos == old(pos) + |data|
      ensures if old(pos) < 0 then data == [] else data <= Slice(Contents(), old(pos), len)
      ensures res == Success ==> Apply(old(View()), Op.Read(len)) == (View(), Got(data))
    {
      hide TeeFsFd.Valid, TeeFsFd.Contents, Slice, Part, Apply;
      HandleFacts(this);
      var remainBytes := len;
      if (pos + remainBytes) % TWO_TO_THE_64 < remainBytes || pos > meta.info.length {
        remainBytes := 0;
      } else if pos + remainBytes > meta.info.length {
        remainBytes := meta.info.length - pos;
      }
      if pos < 0 {
        ReadBeforeStart(Contents(), pos, len, remainBytes);
      } else {
        ApplyRead(Contents(), pos, len);
        SliceSize(Contents(), pos, len, remainBytes);
      }
      if remainBytes == 0 {
        return Success, [];
      }
      res, data := ReadBlocks(remainBytes);
      PartIsPrefix(Contents(), old(pos), |data|, len);
    }

    /** `ree_fs_seek`; the reported offset goes through an `int32_t`. */
    method Seek(offset: int, whence: Whence) returns (res: TeeResult, newOffs: int)
      requires Valid() && -TWO_TO_THE_31 <= offset < TWO_TO_THE_31
      modifies this`pos
      ensures Valid() && Contents() == old(Contents())
      ensures var target := match whence
          case SeekSet => offset
          case SeekCur => old(pos) + offset
          case SeekEnd => |Contents()| + offset;
        && (res == Success <==> target <= MAX_POSITION)
        && (res == Success ==> pos == if target < 0 then 0 else target)
        && (res != Success ==> pos == old(pos))
      ensures var (after, outcome) := Apply(old(View()), Op.Seek(offset, whence));
        && View() == after
        && res == (if outcome.Refused? then BadParameters else Success)
        && (res == Success ==> newOffs == ToInt32(pos))
    {
      ContentLength(crypto, Image(), meta);
      newOffs := 0;
      var newPos;
      match whence {
        case SeekSet => newPos := offset;
        case SeekCur => newPos := pos + offset;
        case SeekEnd => newPos := meta.info.length + offset;
      }
      if newPos < 0 {
        newPos := 0;
      }
      if newPos > MAX_POSITION {
        return BadParameters, newOffs;
      }
      pos := newPos;
      newOffs := ToInt32(newPos);
      res := Success;
    }
  }

  /** A usable handle has its file on the disk, within the size limit. */
  lemma HandleFacts(fd: TeeFsFd)
    requires fd.Valid()
    ensures fd.ino in fd.host.disk && |fd.Contents()| == fd.meta.info.length <= MAX_FILE_SIZE
  {
    ContentLength(fd.crypto, fd.Image(), fd.meta);
  }

  lemma InStepCounter(fd: TeeFsFd)
    requires fd.ino in fd.host.disk && fd.InStep()
    ensures fd.CounterOnDisk()
  {
    CommittedCounter(fd.crypto, fd.Image(), fd.metaCounter, fd.meta);
  }

  /** What the disk holds for a handle that is in step with it. */
  lemma InStepReopens(fd: TeeFsFd)
    requires fd.Valid() && fd.InStep()
    ensures Reopen(fd.crypto, fd.Image()) == Shows(fd.Contents())
    ensures WholeFile(fd.crypto, fd.Image()) == fd.AllIntact() && TidyFile(fd.crypto, fd.Image()) == fd.AllTidy()
  {
    CommittedReopens(fd.crypto, fd.Image(), fd.metaCounter, fd.meta);
    CommittedWhole(fd.crypto, fd.Image(), fd.metaCounter, fd.meta);
  }

  /** `ree_fs_open`: a fresh handle on an existing file, showing what that file holds. */
  method Open(host: Host, crypto: Crypto, file: string) returns (res: TeeResult, fd: TeeFsFd?)
    requires host.Valid() && crypto.Lawful()
    modifies host
    ensures host.Valid() && host.dir == old(host.dir) && host.disk == old(host.disk) && host.log == old(host.log)
    ensures host.faults >= old(host.faults)
    ensures (fd != null) == (res == Success)
    ensures |file| + 1 > TEE_FS_NAME_MAX ==> res == BadParameters
    ensures res in {Success, Generic, BadParameters, OutOfMemory, ItemNotFound, CorruptObject}
    ensures res == Success ==>
      && fresh(fd) && fd.host == host && host.faults == old(host.faults) && fd.crypto == crypto && fd.pos == 0
      && file in host.dir && fd.ino == host.dir[file]
      && OpenMeta(crypto, fd.Image()) == OpenedMeta(fd.metaCounter, fd.meta) && fd.meta.counter == 0
    ensures file in host.dir && Reopen(crypto, host.disk[host.dir[file]]).Shows? ==>
      && (res == Success ==>
            && fd.Valid() && fd.InStep() && fd.Contents() == Reopen(crypto, host.disk[host.dir[file]]).content
            && (WholeFile(crypto, host.disk[host.dir[file]]) <==> fd.AllIntact())
            && (TidyFile(crypto, host.disk[host.dir[file]]) <==> fd.AllTidy()))
      && (file != "" && |file| + 1 <= TEE_FS_NAME_MAX && host.faults == old(host.faults) ==> res == Success)
    ensures file != "" && |file| + 1 <= TEE_FS_NAME_MAX && file !in host.dir && host.faults == old(host.faults) ==>
      res == ItemNotFound
    ensures file != "" && |file| + 1 <= TEE_FS_NAME_MAX && file in host.dir && host.faults == old(host.faults) ==>
      if OpenMeta(crypto, host.disk[host.dir[file]]).Unopenable? then res == CorruptObject else res == Success
  {
    hide Covered, Content, OpenedRecord, Unseal;
    fd := null;
    if |file| + 1 > TEE_FS_NAME_MAX {
      return BadParameters, fd;
    }
    var noMemory: bool := *;
    if noMemory {
      host.faults := host.faults + 1;
      return OutOfMemory, fd;
    }
    var ino;
    res, ino := host.RpcOpen(file, false);
    if res != Success {
      return res, fd;
    }
    var counter, info, fek;
    res, counter, info, fek := ReadMeta(host, crypto, ino);
    if res == Success {
      fd := new TeeFsFd(host, crypto, ino);
      fd.metaCounter, fd.meta := counter, Meta(info, fek, 0);
    }
  }

  /** `read_meta_counter`, then `read_meta_file` from the slot the counter selects. */
  method ReadMeta(host: Host, crypto: Crypto, ino: Inode)
      returns (res: TeeResult, counter: uint32, info: FileInfo, fek: seq<byte>)
    requires ino in host.disk && crypto.Lawful()
    modifies host`faults
    ensures host.faults >= old(host.faults)
    ensures res == Success ==>
      host.faults == old(host.faults) && OpenMeta(crypto, host.disk[ino]) == OpenedMeta(counter, Meta(info, fek, 0))
    ensures res in {Success, Generic, OutOfMemory, CorruptObject}
    ensures res != Success ==> host.faults > old(host.faults) || OpenMeta(crypto, host.disk[ino]).Unopenable?
    ensures res != Success && host.faults == old(host.faults) ==> res == CorruptObject
    ensures OpenMeta(crypto, host.disk[ino]).Unopenable? ==> res != Success
  {
    counter, info, fek := 0, FileInfo(0, seq(NUM_BLOCKS, _ => false)), Zeros(FEK_SIZE);
    var counterBytes;
    res, counterBytes := host.RpcRead(ino, COUNTER_SIZE, 0);
    if res != Success {
      return;
    }
    if |counterBytes| != COUNTER_SIZE {
      res := CorruptObject;
      return;
    }
    counter := WordAt(counterBytes, 0);
    var noMemory: bool := *;
    if noMemory {
      host.faults := host.faults + 1;
      res := OutOfMemory;
      return;
    }
    var record;
    res, record := host.RpcRead(ino, META_RECORD, MetaPos(counter, true));
    if res != Success || |record| == 0 {
      return;
    }
    var text, usedFek, fault;
    res, text, usedFek, fault := DecryptFile(crypto, MetaFile, record, INFO_SIZE, []);
    if fault {
      host.faults := host.faults + 1;
    }
    if res == Success {
      // A record cut off by the end of the file fills only the front of the zeroed struct.
      info, fek := DecodeInfo((text + Zeros(INFO_SIZE))[..INFO_SIZE]), usedFek;
    } else {
      res := CorruptObject;
    }
  }

  /** What `open_internal` does when a create fails: it removes the name, whatever stood there. */
  method RemoveName(host: Host, file: string, ghost earlier: seq<Step>, ghost dir0: Directory, ghost disk0: Disk,
                    ghost log0: seq<Step>)
      returns (ghost later: seq<Step>)
    requires host.Valid() && host.log == log0 + earlier
    requires OthersSafe(earlier, dir0, disk0, file) && SameElsewhere(dir0, disk0, host.dir, host.disk, file)
    modifies host
    ensures host.Valid() && host.log == log0 + later && host.faults >= old(host.faults)
    ensures OthersSafe(later, dir0, disk0, file) && SameElsewhere(dir0, disk0, host.dir, host.disk, file)
    ensures file != "" && host.faults == old(host.faults) ==> file !in host.dir
  {
    hide OthersSafe, SameElsewhere, WellLinked;
    later := earlier;
    ghost var dir := host.dir;
    var removed := host.RpcRemove(file);
    if removed == Success {
      RemoveElsewhere(dir0, disk0, dir, host.disk, file);
      OthersLink(earlier, Link(dir, host.disk, host.dir), dir0, disk0, file);
      later := earlier + [Link(dir, host.disk, host.dir)];
      assert log0 + earlier + [Link(dir, host.disk, host.dir)] == log0 + later;
    }
  }

  /** `ree_fs_create`: a fresh handle on an empty file. The file is opened without truncation; it has
      no committed meta until the first commit. Once the handle is allocated, a failed create removes the
      name, also when it stood for an older file; `begun` is whether it got that far, and `faults` the
      number of failures before the removal. */
  method Create(host: Host, crypto: Crypto, file: string)
      returns (res: TeeResult, fd: TeeFsFd?, ghost steps: seq<Step>, ghost begun: bool, ghost faults: nat)
    requires host.Valid() && crypto.Lawful()
    modifies host
    ensures host.Valid() && host.faults >= old(host.faults)
    ensures (fd != null) == (res == Success)
    ensures host.log == old(host.log) + steps
    ensures OthersSafe(steps, old(host.dir), old(host.disk), file)
    ensures SameElsewhere(old(host.dir), old(host.disk), host.dir, host.disk, file)
    ensures res == Success ==>
      && host.faults == old(host.faults) && fresh(fd) && fd.host == host && fd.crypto == crypto && fd.pos == 0
      && file in host.dir && fd.ino == host.dir[file]
      && fd.Valid() && fd.ino in host.disk && fd.Contents() == []
      && fd.metaCounter == 0 && fd.meta.info == FileInfo(0, seq(NUM_BLOCKS, _ => true))
      && HoldsInitialMeta(crypto, fd.Image(), fd.meta)
      && (file !in old(host.dir) ==> fd.AllIntact() && Uncommitted(crypto, fd.Image()))
    ensures file != "" && |file| + 1 <= TEE_FS_NAME_MAX && host.faults == old(host.faults) ==> res == Success
    ensures !begun ==> res != Success && host.dir == old(host.dir) && host.disk == old(host.disk) && steps == []
    ensures begun <== |file| + 1 <= TEE_FS_NAME_MAX && res != OutOfMemory
    ensures |file| + 1 > TEE_FS_NAME_MAX ==> res == BadParameters && !begun
    ensures old(host.faults) <= faults <= host.faults
    ensures begun && res != Success && file != "" && host.faults == faults ==> file !in host.dir
  {
    hide Covered, Content, Whole, Uncommitted, HoldsInitialMeta, OnlyFile, OnlyInode, OthersSafe, SameElsewhere,
      WellLinked, Crypto.Lawful;
    fd, steps, begun, faults := null, [], false, host.faults;
    ghost var dir0, disk0, log0 := host.dir, host.disk, host.log;
    NoneUnsafe(dir0, disk0, file);
    if |file| + 1 > TEE_FS_NAME_MAX {
      res := BadParameters;
      return;
    }
    var noMemory: bool := *;
    if noMemory {
      host.faults := host.faults + 1;
      res := OutOfMemory;
      return;
    }
    begun := true;
    var libraryFails: bool := *;
    if libraryFails {
      host.faults := host.faults + 1;
      faults := host.faults;
      steps := RemoveName(host, file, steps, dir0, disk0, log0);
      res := Generic;
      return;
    }
    assert |Zeros(FEK_SIZE)| == FEK_SIZE;
    var fek: seq<byte> :| |fek| == FEK_SIZE;
    var ino;
    res, ino := host.RpcOpen(file, true);
    if res != Success {
      faults := host.faults;
      steps := RemoveName(host, file, steps, dir0, disk0, log0);
      return;
    }
    if file !in dir0 {
      NewElsewhere(dir0, disk0, file, ino);
      steps := [Link(dir0, host.disk, host.dir)];
      OthersLink([], steps[0], dir0, disk0, file);
      assert [] + steps == steps;
    }
    var handle := new TeeFsFd(host, crypto, ino);
    handle.meta := Meta(FileInfo(0, seq(NUM_BLOCKS, _ => true)), fek, 0);
    ghost var disk1, writing := host.disk, [];
    res, writing := handle.WriteInitialMeta();
    WriteElsewhere(dir0, disk0, host.dir, disk1, host.disk, file);
    OthersFile(steps, writing, ino, host.dir, disk1, dir0, disk0, file);
    assert log0 + steps + writing == log0 + (steps + writing);
    steps := steps + writing;
    faults := host.faults;
    if res == Success {
      fd := handle;
    } else {
      steps := RemoveName(host, file, steps, dir0, disk0, log0);
    }
  }
}
