/** compat/mitee_compat/tee_ree_fs.c, why out-of-place updates work: what the blocks staged by one
    operation look like before its commit, what the commit makes of them, and what a crash shows. */
module ReeCommit {
  import opened Bytes
  import opened Image
  import opened KeyManager
  import opened ReeLayout
  import opened HostFs
  import opened FlatFile

  /** `text` is block `b` as the old content with `bytes` put at `from`; what it holds past both
      does not matter. */
  ghost predicate Merged(crypto: Crypto, image: Image, meta: Meta, b: nat, from: nat, bytes: seq<byte>, text: seq<byte>)
    requires b < |meta.info.table|
  {
    && |text| == BLOCK_SIZE
    && forall j | 0 <= j < BLOCK_SIZE ::
      MergedByte(crypto, image, meta, b, j, from, bytes, text[j])
  }

  ghost predicate MergedByte(crypto: Crypto, image: Image, meta: Meta, b: nat, j: nat, from: nat, bytes: seq<byte>, x: byte)
    requires b < |meta.info.table|
  {
    var i := b * BLOCK_SIZE + j;
    if from <= i < from + |bytes| then x == bytes[i - from]
    else i < meta.info.length ==> x == BlockByte(crypto, image, meta, b, j)
  }

  /** Blocks `first..next` have been written out of place: the new meta names their other version,
      sealed with the merged text; whatever the old meta names is as it was in `image0`. */
  ghost predicate Staged(crypto: Crypto, image0: Image, image: Image, counter: nat, meta: Meta, newMeta: Meta,
                         first: nat, next: nat, from: nat, bytes: seq<byte>)
  {
    && |meta.info.table| == |newMeta.info.table| == NUM_BLOCKS && next <= NUM_BLOCKS
    && newMeta.fek == meta.fek
    && Undisturbed(image0, image, counter, meta)
    && |image| <= Max(|image0|, SlotPos(next, 0))
    && (forall k | 0 <= k < NUM_BLOCKS ::
          newMeta.info.table[k] == if first <= k < next then !meta.info.table[k] else meta.info.table[k])
    && forall k | first <= k < next ::
         && Sealed(crypto, image, newMeta, k)
         && Merged(crypto, image0, meta, k, from, bytes, OpenBlock(crypto, image, newMeta, k).plaintext)
  }

  lemma StagedNothing(crypto: Crypto, image: Image, counter: nat, meta: Meta, newMeta: Meta, first: nat,
                      from: nat, bytes: seq<byte>)
    requires Covered(crypto, image, meta) && first <= NUM_BLOCKS
    requires newMeta.fek == meta.fek && newMeta.info.table == meta.info.table
    ensures Staged(crypto, image, image, counter, meta, newMeta, first, first, from, bytes)
    ensures Undisturbed(image, image, counter, meta)
  {
  }

  /** A block not yet staged still reads as it did before the operation. */
  lemma StagedRead(crypto: Crypto, image0: Image, image: Image, counter: nat, meta: Meta, newMeta: Meta,
                   first: nat, next: nat, from: nat, bytes: seq<byte>)
    requires crypto.Lawful() && next < NUM_BLOCKS
    requires Staged(crypto, image0, image, counter, meta, newMeta, first, next, from, bytes)
    ensures |meta.info.table| == |newMeta.info.table| == NUM_BLOCKS && newMeta.fek == meta.fek
    ensures newMeta.info.table[next] == meta.info.table[next]
    ensures Undisturbed(image0, image, counter, meta)
    ensures Sealed(crypto, image0, meta, next) ==>
      OpenBlock(crypto, image, meta, next) == OpenBlock(crypto, image0, meta, next)
    ensures Whole(crypto, image0, meta) ==>
      OpenBlock(crypto, image, meta, next).Opened? && |OpenBlock(crypto, image, meta, next).plaintext| == BLOCK_SIZE
    ensures Covered(crypto, image0, meta) && OpenBlock(crypto, image, meta, next).Opened? ==>
      forall j, current: seq<byte> ::
        && 0 <= j < BLOCK_SIZE && next * BLOCK_SIZE + j < meta.info.length
        && |current| == BLOCK_SIZE && OpenBlock(crypto, image, meta, next).plaintext <= current ==>
        current[j] == BlockByte(crypto, image0, meta, next, j)
  {
    assert Whole(crypto, image0, meta) ==> Intact(crypto, image0, meta, next);
    if Sealed(crypto, image0, meta, next) {
      SameBlocksKeep(crypto, image0, image, meta);
      SealedSize(crypto, image, meta, next);
    }
  }

  /** The staged state does not depend on the new meta's length. */
  lemma StagedAnyLength(crypto: Crypto, image0: Image, image: Image, counter: nat, meta: Meta, newMeta: Meta,
                        first: nat, next: nat, from: nat, bytes: seq<byte>, length: nat)
    requires Staged(crypto, image0, image, counter, meta, newMeta, first, next, from, bytes)
    ensures Staged(crypto, image0, image, counter, meta, newMeta.(info := newMeta.info.(length := length)),
                   first, next, from, bytes)
  {
    var longer := newMeta.(info := newMeta.info.(length := length));
    forall k | first <= k < next
      ensures OpenBlock(crypto, image, longer, k) == OpenBlock(crypto, image, newMeta, k)
      ensures Sealed(crypto, image, longer, k)
    {
      assert LiveSlot(longer, k) == LiveSlot(newMeta, k);
    }
  }

  /** Where the cursor stands when an operation on `[from, from + len)` comes to block `b`. */
  function CursorAt(from: nat, len: nat, b: nat): nat {
    Min(Max(from, b * BLOCK_SIZE), from + len)
  }

  lemma CursorEnds(from: nat, len: nat)
    requires len > 0
    ensures CursorAt(from, len, PosToBlockNum(from)) == from
    ensures PosToBlockNum(from) <= PosToBlockNum(from + len - 1)
    ensures from + len <= MAX_FILE_SIZE ==> PosToBlockNum(from + len - 1) < NUM_BLOCKS
    ensures CursorAt(from, len, PosToBlockNum(from + len - 1) + 1) == from + len
  {
  }

  /** The part of block `b` that an operation on `[from, from + len)` covers, found from the cursor. */
  lemma PieceBounds(from: nat, len: nat, b: nat, pos: nat, size: int)
    requires len > 0 && PosToBlockNum(from) <= b <= PosToBlockNum(from + len - 1)
    requires pos == CursorAt(from, len, b)
    requires var offset, most := BlockOffset(pos), Min(from + len - pos, BLOCK_SIZE);
      size == if most + offset > BLOCK_SIZE then BLOCK_SIZE - offset else most
    ensures from <= pos == b * BLOCK_SIZE + BlockOffset(pos) == Max(from, b * BLOCK_SIZE)
    ensures pos + size == Min(from + len, (b + 1) * BLOCK_SIZE) == CursorAt(from, len, b + 1)
    ensures 0 < size && pos + size <= from + len && BlockOffset(pos) + size <= BLOCK_SIZE
  {
  }

  /** Replacing the part of block `b` that the operation covers, in the text read from it,
      gives the merged text. */
  lemma MergedBlock(crypto: Crypto, image0: Image, meta: Meta, b: nat, from: nat, bytes: seq<byte>,
                    pos: nat, size: nat, current: seq<byte>, text: seq<byte>)
    requires b < |meta.info.table| && |current| == BLOCK_SIZE
    requires forall j | 0 <= j < BLOCK_SIZE && b * BLOCK_SIZE + j < meta.info.length ::
      current[j] == BlockByte(crypto, image0, meta, b, j)
    requires from <= pos && pos == Max(from, b * BLOCK_SIZE) < (b + 1) * BLOCK_SIZE
    requires pos + size == Min(from + |bytes|, (b + 1) * BLOCK_SIZE)
    requires var offset := pos - b * BLOCK_SIZE;
      text == current[..offset] + bytes[pos - from..pos - from + size] + current[offset + size..]
    ensures Merged(crypto, image0, meta, b, from, bytes, text)
  {
    hide BlockByte;
    forall j | 0 <= j < BLOCK_SIZE
      ensures MergedByte(crypto, image0, meta, b, j, from, bytes, text[j])
    {
      var offset := pos - b * BLOCK_SIZE;
      if offset <= j < offset + size {
        assert text[j] == bytes[pos - from..pos - from + size][j - offset];
      } else {
        assert text[j] == current[j];
      }
    }
  }

  /** A sealed record written to a block's live slot is what the block opens to. */
  lemma WrittenBlock(crypto: Crypto, image: Image, meta: Meta, b: nat, iv: seq<byte>, text: seq<byte>)
    requires crypto.Lawful() && |iv| == IV_LEN && |meta.fek| == FEK_SIZE && |text| == BLOCK_SIZE
    requires b < |meta.info.table|
    ensures var record := Seal(crypto, BlockFile, iv, meta.fek, text);
      var image' := WriteAt(image, LiveSlot(meta, b), record);
      && |record| == BLOCK_SLOT
      && Torn(image, LiveSlot(meta, b), BLOCK_SLOT, image')
      && Sealed(crypto, image', meta, b)
      && OpenBlock(crypto, image', meta, b) == Opened(text)
  {
    var record := Seal(crypto, BlockFile, iv, meta.fek, text);
    SealRoundTrip(crypto, BlockFile, iv, meta.fek, text, BLOCK_SIZE, meta.fek);
    ReadBack(image, LiveSlot(meta, b), record);
  }

  /** A write to the inactive version of block `b`, followed by its toggle, leaves the other
      sealed blocks as they are. */
  lemma OtherBlocksKept(crypto: Crypto, image: Image, image': Image, meta: Meta, meta': Meta, b: nat)
    requires |meta.info.table| == NUM_BLOCKS && b < NUM_BLOCKS && meta'.fek == meta.fek
    requires meta'.info.table == Toggle(meta.info.table, b)
    requires Torn(image, BlockPos(meta.info.table, b, false), BLOCK_SLOT, image')
    ensures forall k | 0 <= k < NUM_BLOCKS && k != b && Sealed(crypto, image, meta, k) ::
      Sealed(crypto, image', meta', k) && OpenBlock(crypto, image', meta', k) == OpenBlock(crypto, image, meta, k)
  {
    forall k | 0 <= k < NUM_BLOCKS && k != b && Sealed(crypto, image, meta, k)
      ensures LiveSlot(meta', k) == LiveSlot(meta, k)
      ensures ReadAt(image', LiveSlot(meta', k), BLOCK_SLOT) == ReadAt(image, LiveSlot(meta, k), BLOCK_SLOT)
    {
      SlotsDisjoint(0, k, Bit(meta.info.table[k]), b, 1 - Bit(meta.info.table[b]));
      ReadOutside(image, BlockPos(meta.info.table, b, false), BLOCK_SLOT, image', LiveSlot(meta, k), BLOCK_SLOT);
    }
  }

  /** A block sealed in its other version, with its bit toggled, extends the staged range. */
  lemma StageSealed(crypto: Crypto, image0: Image, image: Image, counter: nat, meta: Meta, newMeta: Meta,
                    first: nat, next: nat, from: nat, bytes: seq<byte>, text: seq<byte>,
                    image': Image, newMeta': Meta)
    requires first <= next < NUM_BLOCKS
    requires Staged(crypto, image0, image, counter, meta, newMeta, first, next, from, bytes)
    requires Merged(crypto, image0, meta, next, from, bytes, text)
    requires newMeta' == newMeta.(info := newMeta.info.(table := Toggle(newMeta.info.table, next)))
    requires Torn(image, BlockPos(newMeta.info.table, next, false), BLOCK_SLOT, image')
    requires Sealed(crypto, image', newMeta', next) && OpenBlock(crypto, image', newMeta', next) == Opened(text)
    ensures Staged(crypto, image0, image', counter, meta, newMeta', first, next + 1, from, bytes)
    ensures Undisturbed(image0, image', counter, meta)
  {
    hide Undisturbed, OpenBlock, Sealed, SafeTarget, Merged;
    var slot := BlockPos(newMeta.info.table, next, false);
    assert slot == BlockPos(meta.info.table, next, false);
    OtherBlocksKept(crypto, image, image', newMeta, newMeta', next);
    InactiveIsSafe(counter, meta, next);
    TornIsUndisturbed(image, counter, meta, slot, BLOCK_SLOT, image');
    UndisturbedTransitive(image0, image, image', counter, meta);
  }

  /** Writing one more block and toggling its bit extends the staged range. */
  lemma StageBlock(crypto: Crypto, image0: Image, image: Image, counter: nat, meta: Meta, newMeta: Meta,
                   first: nat, next: nat, from: nat, bytes: seq<byte>, iv: seq<byte>, text: seq<byte>,
                   image': Image, newMeta': Meta)
    requires crypto.Lawful() && |iv| == IV_LEN && |meta.fek| == FEK_SIZE && first <= next < NUM_BLOCKS
    requires Staged(crypto, image0, image, counter, meta, newMeta, first, next, from, bytes)
    requires Merged(crypto, image0, meta, next, from, bytes, text)
    requires image' == WriteAt(image, BlockPos(newMeta.info.table, next, false),
                               Seal(crypto, BlockFile, iv, newMeta.fek, text))
    requires newMeta' == newMeta.(info := newMeta.info.(table := Toggle(newMeta.info.table, next)))
    ensures Staged(crypto, image0, image', counter, meta, newMeta', first, next + 1, from, bytes)
    ensures Undisturbed(image0, image', counter, meta)
  {
    hide Seal, Undisturbed, OpenBlock, Sealed, Torn, WriteAt;
    assert BlockPos(newMeta.info.table, next, false) == LiveSlot(newMeta', next);
    WrittenBlock(crypto, image, newMeta', next, iv, text);
    StageSealed(crypto, image0, image, counter, meta, newMeta, first, next, from, bytes, text, image', newMeta');
  }

  /** All the blocks that `[from, from + |bytes|)` meets are staged. */
  ghost predicate AllStaged(crypto: Crypto, image0: Image, image: Image, counter: nat, meta: Meta, newMeta: Meta,
                            from: nat, bytes: seq<byte>)
  {
    && Covered(crypto, image0, meta)
    && bytes != [] && from <= meta.info.length && from + |bytes| <= MAX_FILE_SIZE
    && Staged(crypto, image0, image, counter, meta, newMeta,
              PosToBlockNum(from), PosToBlockNum(from + |bytes| - 1) + 1, from, bytes)
    && newMeta.info.length == Max(meta.info.length, from + |bytes|)
  }

  /** A block outside the staged range keeps its text, and stays readable. */
  lemma StagedOutside(crypto: Crypto, image0: Image, image: Image, counter: nat, meta: Meta, newMeta: Meta,
                      from: nat, bytes: seq<byte>, b: nat)
    requires AllStaged(crypto, image0, image, counter, meta, newMeta, from, bytes)
    requires b < NUM_BLOCKS && !(PosToBlockNum(from) <= b <= PosToBlockNum(from + |bytes| - 1))
    ensures Sealed(crypto, image0, meta, b) ==>
      Sealed(crypto, image, newMeta, b) && OpenBlock(crypto, image, newMeta, b) == OpenBlock(crypto, image0, meta, b)
    ensures Intact(crypto, image0, meta, b) ==> Intact(crypto, image, newMeta, b)
  {
    hide ZeroSlot, Merged;
    assert newMeta.info.table[b] == meta.info.table[b];
    assert LiveSlot(newMeta, b) == LiveSlot(meta, b);
    if b < PosToBlockNum(from) {
      assert Sealed(crypto, image0, meta, b);
    }
  }

  lemma StagedTidy(crypto: Crypto, image0: Image, image: Image, counter: nat, meta: Meta, newMeta: Meta,
                   from: nat, bytes: seq<byte>)
    requires AllStaged(crypto, image0, image, counter, meta, newMeta, from, bytes) && Tidy(crypto, image0, meta)
    ensures Tidy(crypto, image, newMeta)
  {
    hide ZeroSlot, OpenBlock;
    SameBlocksKeep(crypto, image0, image, meta);
    forall b | 0 <= b < NUM_BLOCKS
      ensures Sealed(crypto, image, newMeta, b) || Blank(image, newMeta, b)
    {
      if !(PosToBlockNum(from) <= b <= PosToBlockNum(from + |bytes| - 1)) {
        StagedOutside(crypto, image0, image, counter, meta, newMeta, from, bytes, b);
        assert newMeta.info.table[b] == meta.info.table[b] && LiveSlot(newMeta, b) == LiveSlot(meta, b);
      }
    }
  }

  /** Under the new meta the file is covered, and whole if it was. */
  lemma StagedCovered(crypto: Crypto, image0: Image, image: Image, counter: nat, meta: Meta, newMeta: Meta,
                      from: nat, bytes: seq<byte>)
    requires AllStaged(crypto, image0, image, counter, meta, newMeta, from, bytes)
    ensures Covered(crypto, image, newMeta)
    ensures Whole(crypto, image0, meta) ==> Whole(crypto, image, newMeta)
    ensures Tidy(crypto, image0, meta) ==> Tidy(crypto, image, newMeta)
  {
    if Tidy(crypto, image0, meta) {
      StagedTidy(crypto, image0, image, counter, meta, newMeta, from, bytes);
    }
    forall b | 0 <= b < NUM_BLOCKS
      ensures b * BLOCK_SIZE < newMeta.info.length ==> Sealed(crypto, image, newMeta, b)
      ensures Intact(crypto, image0, meta, b) ==> Intact(crypto, image, newMeta, b)
    {
      if !(PosToBlockNum(from) <= b <= PosToBlockNum(from + |bytes| - 1)) {
        StagedOutside(crypto, image0, image, counter, meta, newMeta, from, bytes, b);
      }
    }
  }

  /** Byte `j` of block `b` under the new meta. */
  lemma StagedByte(crypto: Crypto, image0: Image, image: Image, counter: nat, meta: Meta, newMeta: Meta,
                   from: nat, bytes: seq<byte>, b: nat, j: nat)
    requires AllStaged(crypto, image0, image, counter, meta, newMeta, from, bytes)
    requires j < BLOCK_SIZE && b < NUM_BLOCKS
    ensures var i := b * BLOCK_SIZE + j;
      i < newMeta.info.length ==>
        BlockByte(crypto, image, newMeta, b, j) ==
          if from <= i < from + |bytes| then bytes[i - from] else BlockByte(crypto, image0, meta, b, j)
  {
    if PosToBlockNum(from) <= b <= PosToBlockNum(from + |bytes| - 1) {
      assert MergedByte(crypto, image0, meta, b, j, from, bytes, OpenBlock(crypto, image, newMeta, b).plaintext[j]);
    } else {
      StagedOutside(crypto, image0, image, counter, meta, newMeta, from, bytes, b);
    }
  }

  lemma ContentFromBytes(crypto: Crypto, image0: Image, image: Image, meta: Meta, newMeta: Meta,
                         from: nat, bytes: seq<byte>)
    requires WellFormed(meta) && WellFormed(newMeta) && from <= meta.info.length
    requires newMeta.info.length == Max(meta.info.length, from + |bytes|)
    requires forall i | 0 <= i < newMeta.info.length ::
      BlockByte(crypto, image, newMeta, i / BLOCK_SIZE, i % BLOCK_SIZE) ==
        if from <= i < from + |bytes| then bytes[i - from]
        else BlockByte(crypto, image0, meta, i / BLOCK_SIZE, i % BLOCK_SIZE)
    ensures Content(crypto, image, newMeta) == Splice(Content(crypto, image0, meta), from, bytes)
  {
    hide BlockByte;
    var before, after := Content(crypto, image0, meta), Content(crypto, image, newMeta);
    var spliced := Splice(before, from, bytes);
    forall i | 0 <= i < |after|
      ensures after[i] == spliced[i]
    {
      if from <= i < from + |bytes| {
        assert spliced[i] == bytes[i - from];
      } else {
        assert spliced[i] == before[i];
      }
    }
  }

  /** Under the new meta the file shows the spliced content. */
  lemma StagedContent(crypto: Crypto, image0: Image, image: Image, counter: nat, meta: Meta, newMeta: Meta,
                      from: nat, bytes: seq<byte>)
    requires AllStaged(crypto, image0, image, counter, meta, newMeta, from, bytes)
    ensures WellFormed(newMeta)
    ensures Content(crypto, image, newMeta) == Splice(Content(crypto, image0, meta), from, bytes)
  {
    hide Staged, BlockByte, Splice, Content;
    StagedCovered(crypto, image0, image, counter, meta, newMeta, from, bytes);
    forall i | 0 <= i < newMeta.info.length
      ensures BlockByte(crypto, image, newMeta, i / BLOCK_SIZE, i % BLOCK_SIZE) ==
        if from <= i < from + |bytes| then bytes[i - from]
        else BlockByte(crypto, image0, meta, i / BLOCK_SIZE, i % BLOCK_SIZE)
    {
      StagedByte(crypto, image0, image, counter, meta, newMeta, from, bytes, i / BLOCK_SIZE, i % BLOCK_SIZE);
    }
    ContentFromBytes(crypto, image0, image, meta, newMeta, from, bytes);
  }

  /** The file with a meta record written to the inactive slot, then with the counter moved on. */
  function WithMeta(crypto: Crypto, image: Image, counter: nat, meta: Meta, iv: seq<byte>): Image
    requires WellFormed(meta)
  {
    WriteAt(image, MetaPos(counter, false), Seal(crypto, MetaFile, iv, meta.fek, EncodeInfo(meta.info)))
  }

  function NextCounter(counter: nat): uint32 {
    (counter + 1) % TWO_TO_THE_32
  }

  /** The next meta record of a handle spares what is live on a disk with counter `counter` exactly when the
      two counters are both even or both odd. A handle one ahead of the disk writes it over the live one. */
  lemma AheadIsUnsafe(counter: uint32, meta: Meta, handle: uint32)
    requires |meta.info.table| == NUM_BLOCKS
    ensures SafeTarget(counter, meta, MetaPos(handle, false), META_RECORD) <==> handle % 2 == counter % 2
    ensures NextCounter(counter) % 2 != counter % 2 && NextCounter(counter) != counter
  {
    InactiveIsSafe(counter, meta, 0);
  }

  lemma WrittenMeta(crypto: Crypto, image: Image, counter: uint32, meta: Meta, iv: seq<byte>)
    requires crypto.Lawful() && |iv| == IV_LEN && WellFormed(meta)
    ensures var record := Seal(crypto, MetaFile, iv, meta.fek, EncodeInfo(meta.info));
      && |record| == META_RECORD
      && Torn(image, MetaPos(counter, false), META_RECORD, WithMeta(crypto, image, counter, meta, iv))
      && ReadAt(WithMeta(crypto, image, counter, meta, iv), MetaPos(counter, false), META_RECORD) == record
      && OpenedRecord(crypto, NextCounter(counter), record) == OpenedMeta(NextCounter(counter), meta.(counter := 0))
  {
    var text := EncodeInfo(meta.info);
    var record := Seal(crypto, MetaFile, iv, meta.fek, text);
    SealRoundTrip(crypto, MetaFile, iv, meta.fek, text, INFO_SIZE, []);
    InfoRoundTrip(meta.info);
    ReadBack(image, MetaPos(counter, false), record);
    assert (text + Zeros(INFO_SIZE))[..INFO_SIZE] == text;
  }

  /** The counter write touches neither a meta record nor a block. */
  lemma CounterWriteKeeps(image: Image, meta: Meta, counter: uint32, from: nat, count: nat)
    requires from + count <= |image| && from >= COUNTER_SIZE
    ensures var image' := WriteAt(image, 0, Word(counter));
      |image'| == |image| && ReadAt(image', from, count) == ReadAt(image, from, count)
  {
    ReadOutside(image, 0, COUNTER_SIZE, WriteAt(image, 0, Word(counter)), from, count);
  }

  lemma PublishedOpens(crypto: Crypto, image: Image, counter: uint32, newMeta: Meta, iv: seq<byte>,
                       staged: Image, image': Image)
    requires crypto.Lawful() && |iv| == IV_LEN && WellFormed(newMeta)
    requires staged == WithMeta(crypto, image, counter, newMeta, iv)
    requires image' == WriteAt(staged, 0, Word(NextCounter(counter)))
    ensures |image'| == |staged| >= MetaPos(counter, false) + META_RECORD
    ensures OpenMeta(crypto, image') == OpenedMeta(NextCounter(counter), newMeta.(counter := 0))
  {
    WrittenMeta(crypto, image, counter, newMeta, iv);
    CommitFlipsMetaSlot(counter);
    CounterWriteKeeps(staged, newMeta, NextCounter(counter), MetaPos(counter, false), META_RECORD);
    ReadBack(staged, 0, Word(NextCounter(counter)));
    WordRoundTrip(NextCounter(counter));
  }

  /** Neither of the two writes of a commit meets a live block, of this meta or another. */
  lemma PublishedKeepsBlocks(crypto: Crypto, image: Image, counter: uint32, newMeta: Meta, iv: seq<byte>,
                             staged: Image, image': Image, meta: Meta)
    requires crypto.Lawful() && |iv| == IV_LEN && WellFormed(newMeta) && |meta.info.table| == NUM_BLOCKS
    requires staged == WithMeta(crypto, image, counter, newMeta, iv)
    requires image' == WriteAt(staged, 0, Word(NextCounter(counter)))
    ensures SameBlocks(image, image', meta)
    ensures |image'| <= Max(|image|, BLOCKS_START)
  {
    WrittenMeta(crypto, image, counter, newMeta, iv);
    InactiveIsSafe(counter, meta, 0);
    TornIsUndisturbed(image, counter, meta, MetaPos(counter, false), META_RECORD, staged);
    forall b | 0 <= b < NUM_BLOCKS && LiveSlot(meta, b) + BLOCK_SLOT <= |staged|
      ensures ReadAt(image', LiveSlot(meta, b), BLOCK_SLOT) == ReadAt(staged, LiveSlot(meta, b), BLOCK_SLOT)
    {
      CounterWriteKeeps(staged, meta, NextCounter(counter), LiveSlot(meta, b), BLOCK_SLOT);
    }
    forall b | 0 <= b < NUM_BLOCKS && ZeroSlot(staged, LiveSlot(meta, b))
      ensures ZeroSlot(image', LiveSlot(meta, b))
    {
      ZeroSlotOutside(staged, 0, COUNTER_SIZE, image', LiveSlot(meta, b));
    }
  }

  lemma SameBlocksWhole(crypto: Crypto, image: Image, image': Image, meta: Meta)
    requires SameBlocks(image, image', meta) && |image'| <= Max(|image|, BLOCKS_START)
    requires Whole(crypto, image, meta)
    ensures Whole(crypto, image', meta)
  {
    SameBlocksKeep(crypto, image, image', meta);
    forall b | 0 <= b < NUM_BLOCKS
      ensures Intact(crypto, image', meta, b)
    {
      assert Intact(crypto, image, meta, b);
    }
  }

  /** `commit_meta_file`: once the new meta record is in the inactive slot, writing the next
      counter makes the new meta the one that is opened. */
  lemma CommitPublishes(crypto: Crypto, image: Image, counter: uint32, newMeta: Meta, iv: seq<byte>,
                        staged: Image, image': Image)
    requires crypto.Lawful() && |iv| == IV_LEN && Covered(crypto, image, newMeta)
    requires staged == WithMeta(crypto, image, counter, newMeta, iv)
    requires image' == WriteAt(staged, 0, Word(NextCounter(counter)))
    ensures Committed(crypto, image', NextCounter(counter), newMeta)
    ensures Content(crypto, image', newMeta) == Content(crypto, image, newMeta)
    ensures Whole(crypto, image, newMeta) ==> Whole(crypto, image', newMeta)
  {
    PublishedOpens(crypto, image, counter, newMeta, iv, staged, image');
    PublishedKeepsBlocks(crypto, image, counter, newMeta, iv, staged, image', newMeta);
    SameBlocksKeep(crypto, image, image', newMeta);
    if Whole(crypto, image, newMeta) {
      SameBlocksWhole(crypto, image, image', newMeta);
    }
    CommitFlipsMetaSlot(counter);
  }

  /** Lowering the length of a covered file cuts its content and keeps it whole. */
  lemma ShrunkContent(crypto: Crypto, image: Image, meta: Meta, length: nat)
    requires Covered(crypto, image, meta) && length <= meta.info.length
    ensures var newMeta := meta.(info := meta.info.(length := length));
      && Covered(crypto, image, newMeta)
      && Content(crypto, image, newMeta) == Resize(Content(crypto, image, meta), length)
      && (Whole(crypto, image, meta) ==> Whole(crypto, image, newMeta))
  {
    var newMeta := meta.(info := meta.info.(length := length));
    forall b | 0 <= b < NUM_BLOCKS
      ensures OpenBlock(crypto, image, newMeta, b) == OpenBlock(crypto, image, meta, b)
      ensures Sealed(crypto, image, newMeta, b) == Sealed(crypto, image, meta, b)
      ensures Intact(crypto, image, newMeta, b) == Intact(crypto, image, meta, b)
    {
      assert LiveSlot(newMeta, b) == LiveSlot(meta, b);
    }
  }

  lemma ExtendedContent(content: seq<byte>, length: nat)
    requires |content| <= length
    ensures Splice(content, |content|, Zeros(length - |content|)) == Resize(content, length)
  {
  }

  // ----- Crashes -----

  /** The two disks differ at most in file `ino`. */
  ghost predicate OnlyInode(disk0: Disk, disk: Disk, ino: Inode) {
    ino in disk0 && ino in disk && disk == disk0[ino := disk[ino]]
  }

  lemma OnlyInodeTransitive(disk0: Disk, disk1: Disk, disk2: Disk, ino: Inode)
    requires OnlyInode(disk0, disk1, ino) && OnlyInode(disk1, disk2, ino)
    ensures OnlyInode(disk0, disk2, ino)
  {
  }

  lemma NothingElse(disk: Disk, ino: Inode)
    requires ino in disk
    ensures OnlyInode(disk, disk, ino)
  {
  }

  /** Every one of these steps is a write to file `ino`, and nothing else changes in between. */
  ghost predicate OnlyFile(steps: seq<Step>, ino: Inode, dir: Directory, disk: Disk) {
    forall k | 0 <= k < |steps| :: FileStep(steps[k], ino, dir, disk)
  }

  ghost predicate FileStep(step: Step, ino: Inode, dir: Directory, disk: Disk) {
    step.Put? && step.ino == ino && step.dir == dir && OnlyInode(disk, step.disk, ino)
  }

  /** Writes to one file do not change what other names stand for. */
  lemma OnlyFileSparesName(steps: seq<Step>, ino: Inode, dir: Directory, disk0: Disk, name: string)
    requires OnlyFile(steps, ino, dir, disk0)
    requires name in dir ==> dir[name] != ino
    ensures NameSafe(steps, name, {Look(dir, disk0, name)})
  {
    forall k, dir', disk' | 0 <= k < |steps| && CrashState(steps[k], dir', disk')
      ensures Look(dir', disk', name) == Look(dir, disk0, name)
    {
      assert FileStep(steps[k], ino, dir, disk0);
    }
  }

  lemma OneStepOnlyFile(dir: Directory, disk: Disk, ino: Inode, offset: nat, data: seq<byte>)
    requires ino in disk
    ensures OnlyFile([Put(dir, disk, ino, offset, data)], ino, dir, disk)
  {
  }

  /** The two file systems agree on every name but this one. */
  ghost predicate SameElsewhere(dir0: Directory, disk0: Disk, dir: Directory, disk: Disk, name: string) {
    forall other | other != name :: Look(dir, disk, other) == Look(dir0, disk0, other)
  }

  /** A crash at any of these steps leaves every name but this one as it was. */
  ghost predicate OthersSafe(steps: seq<Step>, dir0: Directory, disk0: Disk, name: string) {
    forall other | other != name :: NameSafe(steps, other, {Look(dir0, disk0, other)})
  }

  lemma NoneUnsafe(dir0: Directory, disk0: Disk, name: string)
    ensures OthersSafe([], dir0, disk0, name) && SameElsewhere(dir0, disk0, dir0, disk0, name)
  {
  }

  /** Linking a new empty file under `name`. */
  lemma NewElsewhere(dir0: Directory, disk0: Disk, name: string, ino: Inode)
    requires WellLinked(dir0, disk0) && ino !in disk0
    ensures WellLinked(dir0[name := ino], disk0[ino := []])
    ensures SameElsewhere(dir0, disk0, dir0, disk0[ino := []], name)
    ensures SameElsewhere(dir0, disk0, dir0[name := ino], disk0[ino := []], name)
  {
  }

  /** Writing to the file that `name` stands for. */
  lemma WriteElsewhere(dir0: Directory, disk0: Disk, dir: Directory, disk: Disk, disk': Disk, name: string)
    requires WellLinked(dir, disk) && name in dir && OnlyInode(disk, disk', dir[name])
    requires SameElsewhere(dir0, disk0, dir, disk, name)
    ensures WellLinked(dir, disk') && SameElsewhere(dir0, disk0, dir, disk', name)
  {
    forall other | other != name
      ensures Look(dir, disk', other) == Look(dir, disk, other)
    {
    }
  }

  lemma RemoveElsewhere(dir0: Directory, disk0: Disk, dir: Directory, disk: Disk, name: string)
    requires SameElsewhere(dir0, disk0, dir, disk, name)
    ensures SameElsewhere(dir0, disk0, dir - {name}, disk, name)
  {
    forall other | other != name
      ensures Look(dir - {name}, disk, other) == Look(dir, disk, other)
    {
    }
  }

  /** One more directory change that concerns only `name`. */
  lemma OthersLink(steps: seq<Step>, step: Step, dir0: Directory, disk0: Disk, name: string)
    requires OthersSafe(steps, dir0, disk0, name) && step.Link?
    requires SameElsewhere(dir0, disk0, step.dir, step.disk, name)
    requires SameElsewhere(dir0, disk0, step.after, step.disk, name)
    ensures OthersSafe(steps + [step], dir0, disk0, name)
  {
    forall other | other != name
      ensures NameSafe(steps + [step], other, {Look(dir0, disk0, other)})
    {
      LinkIsNameSafe(step, other);
      NameSafeConcat(steps, [step], other, {Look(dir0, disk0, other)}, {Look(dir0, disk0, other)});
    }
  }

  /** More writes to the file that `name` stands for. */
  lemma OthersFile(steps: seq<Step>, more: seq<Step>, ino: Inode, dir: Directory, disk: Disk,
                   dir0: Directory, disk0: Disk, name: string)
    requires OthersSafe(steps, dir0, disk0, name) && OnlyFile(more, ino, dir, disk)
    requires SameElsewhere(dir0, disk0, dir, disk, name)
    requires WellLinked(dir, disk) && name in dir && dir[name] == ino
    ensures OthersSafe(steps + more, dir0, disk0, name)
  {
    forall other | other != name
      ensures NameSafe(steps + more, other, {Look(dir0, disk0, other)})
    {
      OnlyFileSparesName(more, ino, dir, disk, other);
      NameSafeConcat(steps, more, other, {Look(dir0, disk0, other)}, {Look(dir0, disk0, other)});
    }
  }

  /** At most one write of `size` bytes at `offset` to file `ino`, from this state. */
  ghost predicate OneWrite(wrote: seq<Step>, ino: Inode, dir: Directory, disk: Disk,
                           offset: nat, size: nat) {
    && |wrote| <= 1
    && (|wrote| == 1 ==> wrote[0].Put? && |wrote[0].data| == size && wrote[0] == Put(dir, disk, ino, offset, wrote[0].data))
  }

  /** An image of file `ino` that a crash during `step` may leave. */
  ghost predicate CrashAt(step: Step, ino: Inode, image: Image) {
    && step.Put? && step.ino == ino && ino in step.disk
    && CrashImage(step.disk[ino], step.offset, step.data, image)
  }

  /** The counter write, whether it has been performed or not, leaves an image that a crash during it may
      leave. */
  lemma CounterWriteLeaves(step: Step, ino: Inode, image: Image)
    requires step.Put? && step.ino == ino && ino in step.disk && IsCounterWrite(step.offset, |step.data|)
    requires image == step.disk[ino] || image == WriteAt(step.disk[ino], 0, step.data)
    ensures CrashAt(step, ino, image)
  {
  }

  /** A raw write to file `ino` that comes after `disk0` and spares everything live there. */
  ghost predicate ShadowStep(step: Step, ino: Inode, dir: Directory, disk0: Disk, counter: nat, meta: Meta) {
    && ino in disk0
    && FileStep(step, ino, dir, disk0)
    && Undisturbed(disk0[ino], step.disk[ino], counter, meta)
    && SafeTarget(counter, meta, step.offset, |step.data|)
  }

  ghost predicate Shadowed(steps: seq<Step>, ino: Inode, dir: Directory, disk0: Disk, counter: nat, meta: Meta) {
    forall k | 0 <= k < |steps| :: ShadowStep(steps[k], ino, dir, disk0, counter, meta)
  }

  /** A write to a safe target is a shadow step. */
  lemma ShadowOneWrite(wrote: seq<Step>, ino: Inode, dir: Directory, disk0: Disk,
                       disk: Disk, offset: nat, size: nat, counter: nat, meta: Meta)
    requires OnlyInode(disk0, disk, ino)
    requires Undisturbed(disk0[ino], disk[ino], counter, meta) && SafeTarget(counter, meta, offset, size)
    requires OneWrite(wrote, ino, dir, disk, offset, size)
    ensures Shadowed(wrote, ino, dir, disk0, counter, meta)
  {
  }

  lemma NothingShadowed(ino: Inode, dir: Directory, disk0: Disk, counter: nat, meta: Meta)
    ensures Shadowed([], ino, dir, disk0, counter, meta)
  {
  }

  lemma ShadowConcat(steps: seq<Step>, more: seq<Step>, ino: Inode, dir: Directory, disk0: Disk,
                     counter: nat, meta: Meta)
    requires Shadowed(steps, ino, dir, disk0, counter, meta)
    requires Shadowed(more, ino, dir, disk0, counter, meta)
    ensures Shadowed(steps + more, ino, dir, disk0, counter, meta)
  {
  }

  /** A raw write to file `ino` that is the counter write, or meets neither the counter, nor the live meta
      record, nor the live version of any block, as the disk names them when the write is made. */
  ghost predicate SparesLive(crypto: Crypto, step: Step, ino: Inode) {
    && step.Put? && step.ino == ino && ino in step.disk
    && (IsCounterWrite(step.offset, |step.data|) ||
        var live := OpenMeta(crypto, step.disk[ino]);
        live.OpenedMeta? && SafeTarget(live.counter, live.meta, step.offset, |step.data|))
  }

  ghost predicate SlotSafe(crypto: Crypto, steps: seq<Step>, ino: Inode) {
    forall k | 0 <= k < |steps| :: SparesLive(crypto, steps[k], ino)
  }

  /** Every step spares what is live, and however the file is cut off during these steps, it opens and
      shows one of `allowed`. */
  ghost predicate CrashSafe(crypto: Crypto, steps: seq<Step>, ino: Inode, allowed: set<seq<byte>>) {
    && SlotSafe(crypto, steps, ino)
    && forall k, image | 0 <= k < |steps| && CrashAt(steps[k], ino, image) ::
         Reopen(crypto, image).Shows? && Reopen(crypto, image).content in allowed
  }

  /** There is a moment during the steps at which a crash shows exactly `content`. */
  ghost predicate ShowsMidway(crypto: Crypto, steps: seq<Step>, ino: Inode, content: seq<byte>) {
    exists k, image | 0 <= k < |steps| && CrashAt(steps[k], ino, image) :: Reopen(crypto, image) == Shows(content)
  }

  lemma ShowsMidwayAt(crypto: Crypto, steps: seq<Step>, more: seq<Step>, ino: Inode, content: seq<byte>, k: nat, image: Image)
    requires k < |steps| && CrashAt(steps[k], ino, image) && Reopen(crypto, image) == Shows(content)
    ensures ShowsMidway(crypto, steps + more, ino, content)
  {
    assert (steps + more)[k] == steps[k];
  }

  /** What is on the disk after some of the steps is one of the allowed contents. */
  lemma CrashSafeAt(crypto: Crypto, steps: seq<Step>, ino: Inode, allowed: set<seq<byte>>, k: nat, image: Image)
    requires CrashSafe(crypto, steps, ino, allowed) && k < |steps| && CrashAt(steps[k], ino, image)
    ensures SlotSafe(crypto, steps, ino)
    ensures Reopen(crypto, image).Shows? && Reopen(crypto, image).content in allowed
  {
  }

  lemma CrashSafeSlots(crypto: Crypto, steps: seq<Step>, ino: Inode, allowed: set<seq<byte>>)
    requires CrashSafe(crypto, steps, ino, allowed)
    ensures SlotSafe(crypto, steps, ino)
  {
  }

  /** The writes of one operation between two commits spare what is live on the disk. */
  lemma ShadowedIsSlotSafe(crypto: Crypto, steps: seq<Step>, ino: Inode, dir: Directory, disk0: Disk,
                           counter: nat, meta: Meta)
    requires ino in disk0 && Committed(crypto, disk0[ino], counter, meta)
    requires Shadowed(steps, ino, dir, disk0, counter, meta)
    ensures SlotSafe(crypto, steps, ino)
  {
    forall k | 0 <= k < |steps|
      ensures SparesLive(crypto, steps[k], ino)
    {
      var step := steps[k];
      assert ShadowStep(step, ino, dir, disk0, counter, meta);
      UndisturbedKeeps(crypto, disk0[ino], step.disk[ino], counter, meta);
      SafeTargetOfTable(counter, meta, meta.(counter := 0), step.offset, |step.data|);
    }
  }

  lemma SafeTargetOfTable(counter: nat, meta: Meta, meta': Meta, offset: nat, size: nat)
    requires SafeTarget(counter, meta, offset, size) && meta.info == meta'.info
    ensures SafeTarget(counter, meta', offset, size)
  {
    assert forall b | 0 <= b < |meta.info.table| :: LiveSlot(meta', b) == LiveSlot(meta, b);
  }

  /** Stopping anywhere before the counter write shows the old content. */
  lemma ShadowedIsCrashSafe(crypto: Crypto, steps: seq<Step>, ino: Inode, dir: Directory, disk0: Disk,
                            counter: nat, meta: Meta)
    requires ino in disk0 && Committed(crypto, disk0[ino], counter, meta)
    requires Shadowed(steps, ino, dir, disk0, counter, meta)
    ensures CrashSafe(crypto, steps, ino, {Content(crypto, disk0[ino], meta)})
  {
    ShadowedIsSlotSafe(crypto, steps, ino, dir, disk0, counter, meta);
    forall k, image | 0 <= k < |steps| && CrashAt(steps[k], ino, image)
      ensures Reopen(crypto, image) == Shows(Content(crypto, disk0[ino], meta))
    {
      var step := steps[k];
      assert ShadowStep(step, ino, dir, disk0, counter, meta);
      TornIsUndisturbed(step.disk[ino], counter, meta, step.offset, |step.data|, image);
      UndisturbedTransitive(disk0[ino], step.disk[ino], image, counter, meta);
      UndisturbedKeeps(crypto, disk0[ino], image, counter, meta);
    }
  }

  /** Stopping during the counter write shows what was there before it or what is there after it. */
  lemma CounterStepIsCrashSafe(crypto: Crypto, step: Step, ino: Inode, before: seq<byte>, after: seq<byte>)
    requires step.Put? && step.ino == ino && ino in step.disk && IsCounterWrite(step.offset, |step.data|)
    requires Reopen(crypto, step.disk[ino]) == Shows(before)
    requires Reopen(crypto, WriteAt(step.disk[ino], 0, step.data)) == Shows(after)
    ensures CrashSafe(crypto, [step], ino, {before, after})
  {
  }

  lemma CrashSafeConcat(crypto: Crypto, steps: seq<Step>, more: seq<Step>, ino: Inode,
                        allowed: set<seq<byte>>, allowed': set<seq<byte>>)
    requires CrashSafe(crypto, steps, ino, allowed) && CrashSafe(crypto, more, ino, allowed')
    ensures CrashSafe(crypto, steps + more, ino, allowed + allowed')
  {
    forall k | 0 <= k < |steps + more|
      ensures SparesLive(crypto, (steps + more)[k], ino)
    {
      assert (steps + more)[k] == if k < |steps| then steps[k] else more[k - |steps|];
    }
    forall k, image | 0 <= k < |steps + more| && CrashAt((steps + more)[k], ino, image)
      ensures Reopen(crypto, image).Shows? && Reopen(crypto, image).content in allowed + allowed'
    {
      if k < |steps| {
        assert CrashAt(steps[k], ino, image);
      } else {
        assert CrashAt(more[k - |steps|], ino, image);
      }
    }
  }

  lemma NothingIsCrashSafe(crypto: Crypto, ino: Inode, allowed: set<seq<byte>>)
    ensures CrashSafe(crypto, [], ino, allowed)
  {
  }

  lemma CrashSafeWiden(crypto: Crypto, steps: seq<Step>, ino: Inode, allowed: set<seq<byte>>, more: set<seq<byte>>)
    requires CrashSafe(crypto, steps, ino, allowed) && allowed <= more
    ensures CrashSafe(crypto, steps, ino, more)
  {
  }

  lemma NoSteps(crypto: Crypto, ino: Inode, dir: Directory, disk: Disk, allowed: set<seq<byte>>)
    ensures OnlyFile([], ino, dir, disk) && CrashSafe(crypto, [], ino, allowed)
  {
  }

  lemma OnlyFileConcat(steps: seq<Step>, more: seq<Step>, ino: Inode, dir: Directory, disk0: Disk, disk: Disk)
    requires OnlyInode(disk0, disk, ino)
    requires OnlyFile(steps, ino, dir, disk0) && OnlyFile(more, ino, dir, disk)
    ensures OnlyFile(steps + more, ino, dir, disk0)
  {
    forall k | 0 <= k < |more|
      ensures FileStep(more[k], ino, dir, disk0)
    {
      assert FileStep(more[k], ino, dir, disk);
    }
  }

  lemma ShadowedOnlyFile(steps: seq<Step>, ino: Inode, dir: Directory, disk0: Disk, counter: nat, meta: Meta)
    requires Shadowed(steps, ino, dir, disk0, counter, meta)
    ensures OnlyFile(steps, ino, dir, disk0)
  {
    forall k | 0 <= k < |steps|
      ensures FileStep(steps[k], ino, dir, disk0)
    {
      assert ShadowStep(steps[k], ino, dir, disk0, counter, meta);
    }
  }

  // ----- Before the first commit -----

  /** Before its first commit a file has its meta in the slot that counter 0 does not select; the slot it
      does select was left out and reads as zeros. Opening such a file fails exactly when a record of all
      zeros does not open, whatever key it is sealed under. */
  lemma UncommittedFile(crypto: Crypto, meta: Meta, iv: seq<byte>, image: Image)
    requires crypto.Lawful() && |iv| == IV_LEN && WellFormed(meta)
    requires image == WriteAt(WithMeta(crypto, [], 0, meta, iv), 0, Word(0))
    ensures Uncommitted(crypto, image)
    ensures OpenMeta(crypto, image).Unopenable? <==> Unseal(crypto, MetaFile, Zeros(META_RECORD), INFO_SIZE, []).Forged?
  {
    var staged := WithMeta(crypto, [], 0, meta, iv);
    WrittenMeta(crypto, [], 0, meta, iv);
    ReadBack(staged, 0, Word(0));
    WordRoundTrip(0);
    hide Unseal, WithMeta;
    assert ReadAt(image, MetaPos(0, true), META_RECORD) == Zeros(META_RECORD);
  }

  /** Opening the file opens a record of zeros under counter 0. */
  ghost predicate Uncommitted(crypto: Crypto, image: Image) {
    OpenMeta(crypto, image) == OpenedRecord(crypto, 0, Zeros(META_RECORD))
  }

  /** The counter is 0, and the slot it leaves out holds the record of `meta`. */
  ghost predicate HoldsInitialMeta(crypto: Crypto, image: Image, meta: Meta) {
    && ReadAt(image, 0, COUNTER_SIZE) == Word(0)
    && OpenedRecord(crypto, 0, ReadAt(image, MetaPos(0, false), META_RECORD)) == OpenedMeta(0, meta.(counter := 0))
  }

  lemma InitialMetaWritten(crypto: Crypto, image0: Image, meta: Meta, iv: seq<byte>, image: Image)
    requires crypto.Lawful() && |iv| == IV_LEN && WellFormed(meta)
    requires image == WriteAt(WithMeta(crypto, image0, 0, meta, iv), 0, Word(0))
    ensures HoldsInitialMeta(crypto, image, meta)
  {
    var staged := WithMeta(crypto, image0, 0, meta, iv);
    WrittenMeta(crypto, image0, 0, meta, iv);
    ReadBack(staged, 0, Word(0));
    hide Unseal, WithMeta, Seal;
    assert ReadAt(image, MetaPos(0, false), META_RECORD) == ReadAt(staged, MetaPos(0, false), META_RECORD);
  }

  // ----- One commit -----

  lemma MetaWriteIsCrashSafe(crypto: Crypto, wrote: seq<Step>, ino: Inode, dir: Directory, disk0: Disk,
                             counter: uint32, meta: Meta)
    requires |meta.info.table| == NUM_BLOCKS && ino in disk0
    requires OneWrite(wrote, ino, dir, disk0, MetaPos(counter, false), META_RECORD)
    ensures OnlyFile(wrote, ino, dir, disk0)
    ensures Committed(crypto, disk0[ino], counter, meta) ==>
      CrashSafe(crypto, wrote, ino, {Content(crypto, disk0[ino], meta)})
  {
    InactiveIsSafe(counter, meta, 0);
    ShadowOneWrite(wrote, ino, dir, disk0, disk0, MetaPos(counter, false), META_RECORD, counter, meta);
    ShadowedOnlyFile(wrote, ino, dir, disk0, counter, meta);
    if Committed(crypto, disk0[ino], counter, meta) {
      ShadowedIsCrashSafe(crypto, wrote, ino, dir, disk0, counter, meta);
    }
  }

  /** With the new meta record written but the counter not, the old content is still shown. */
  lemma BeforeCounterWrite(crypto: Crypto, image0: Image, counter: uint32, meta: Meta, newMeta: Meta, iv: seq<byte>)
    requires crypto.Lawful() && |iv| == IV_LEN && WellFormed(newMeta)
    requires Committed(crypto, image0, counter, meta)
    ensures Reopen(crypto, WithMeta(crypto, image0, counter, newMeta, iv)) == Shows(Content(crypto, image0, meta))
  {
    hide Seal, Unseal, WithMeta;
    WrittenMeta(crypto, image0, counter, newMeta, iv);
    InactiveIsSafe(counter, meta, 0);
    TornIsUndisturbed(image0, counter, meta, MetaPos(counter, false), META_RECORD,
                      WithMeta(crypto, image0, counter, newMeta, iv));
    UndisturbedKeeps(crypto, image0, WithMeta(crypto, image0, counter, newMeta, iv), counter, meta);
  }

  lemma AfterCounterWrite(crypto: Crypto, image0: Image, counter: uint32, newMeta: Meta, iv: seq<byte>, image': Image)
    requires crypto.Lawful() && |iv| == IV_LEN && Covered(crypto, image0, newMeta)
    requires image' == WriteAt(WithMeta(crypto, image0, counter, newMeta, iv), 0, Word(NextCounter(counter)))
    ensures Reopen(crypto, image') == Shows(Content(crypto, image0, newMeta))
  {
    hide Seal, Unseal, WithMeta, Committed;
    CommitPublishes(crypto, image0, counter, newMeta, iv, WithMeta(crypto, image0, counter, newMeta, iv), image');
    CommittedReopens(crypto, image', NextCounter(counter), newMeta);
  }

  /** A commit, cut off anywhere, shows the old content or the new one, and its writes touch
      nothing but this file. It writes the meta record, then, if that succeeded, the counter. */
  lemma CommitIsCrashSafe(crypto: Crypto, wrote: seq<Step>, counted: seq<Step>, ino: Inode, dir: Directory,
                          disk0: Disk, disk1: Disk, counter: uint32, meta: Meta, newMeta: Meta, iv: seq<byte>)
    requires crypto.Lawful()
    requires OnlyInode(disk0, disk1, ino)
    requires Covered(crypto, disk0[ino], newMeta) && |meta.info.table| == NUM_BLOCKS
    requires OneWrite(wrote, ino, dir, disk0, MetaPos(counter, false), META_RECORD)
    requires counted == [] || counted == [Put(dir, disk1, ino, 0, Word(NextCounter(counter)))]
    requires counted != [] ==> |iv| == IV_LEN && disk1[ino] == WithMeta(crypto, disk0[ino], counter, newMeta, iv)
    ensures OnlyFile(wrote + counted, ino, dir, disk0)
    ensures Committed(crypto, disk0[ino], counter, meta) ==>
      CrashSafe(crypto, wrote + counted, ino, {Content(crypto, disk0[ino], meta), Content(crypto, disk0[ino], newMeta)})
  {
    hide WithMeta, Content, CrashSafe, Reopen;
    MetaWriteIsCrashSafe(crypto, wrote, ino, dir, disk0, counter, meta);
    if Committed(crypto, disk0[ino], counter, meta) {
      var before, after := Content(crypto, disk0[ino], meta), Content(crypto, disk0[ino], newMeta);
      NothingIsCrashSafe(crypto, ino, {before, after});
      if counted != [] {
        BeforeCounterWrite(crypto, disk0[ino], counter, meta, newMeta, iv);
        AfterCounterWrite(crypto, disk0[ino], counter, newMeta, iv, WriteAt(disk1[ino], 0, Word(NextCounter(counter))));
        CounterStepIsCrashSafe(crypto, counted[0], ino, before, after);
      }
      CrashSafeConcat(crypto, wrote, counted, ino, {before}, {before, after});
      assert {before} + {before, after} == {before, after};
    }
  }
}
