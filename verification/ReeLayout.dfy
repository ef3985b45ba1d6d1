/** compat/mitee_compat/tee_ree_fs.c, the on-disk side: where the two versions of the meta record
    and of every block lie in the host file, and what opening an arbitrary host file shows. */
module ReeLayout {
  import opened Bytes
  import opened Image
  import opened KeyManager
  import opened HostFs
  import opened FlatFile

  const BLOCK_SIZE := 256
  const NUM_BLOCKS := 32
  /** sizeof(struct tee_fs_file_info): 8 bytes length, 4 bytes table, 4 bytes padding. */
  const INFO_SIZE := 16
  /** sizeof(struct tee_fs_file_meta): info, 16 bytes FEK, 4 bytes counter, 4 bytes padding. */
  const META_STRUCT_SIZE := 40
  const META_SLOT := FEK_SIZE + IV_LEN + TAG_LEN + META_STRUCT_SIZE
  const META_RECORD := FEK_SIZE + IV_LEN + TAG_LEN + INFO_SIZE
  const BLOCK_SLOT := IV_LEN + TAG_LEN + BLOCK_SIZE
  const BLOCKS_START := COUNTER_SIZE + 2 * META_SLOT

  datatype FileInfo = FileInfo(length: nat, table: seq<bool>)
  datatype Meta = Meta(info: FileInfo, fek: seq<byte>, counter: nat)
  datatype OpenedMeta = OpenedMeta(counter: nat, meta: Meta) | Unopenable

  predicate WellFormed(meta: Meta) {
    && meta.info.length <= MAX_FILE_SIZE
    && |meta.info.table| == NUM_BLOCKS
    && |meta.fek| == FEK_SIZE
  }

  // ----- Positions -----

  /** `pos_to_block_num` */
  function PosToBlockNum(position: nat): nat {
    position / BLOCK_SIZE
  }

  function BlockOffset(position: nat): (offset: nat)
    ensures offset < BLOCK_SIZE
  {
    position % BLOCK_SIZE
  }

  /** `meta_pos_raw` */
  function MetaPos(counter: nat, active: bool): nat {
    COUNTER_SIZE + if (counter % 2 == 1) == active then META_SLOT else 0
  }

  /** Start of version `version` of block `b`. */
  function SlotPos(b: nat, version: nat): nat {
    BLOCKS_START + (2 * b + version) * BLOCK_SLOT
  }

  /** `block_pos_raw` */
  function BlockPos(table: seq<bool>, b: nat, active: bool): nat
    requires b < |table|
  {
    SlotPos(b, if active == table[b] then 1 else 0)
  }

  /** `toggle_backup_version_of_block` */
  function Toggle(table: seq<bool>, b: nat): seq<bool>
    requires b < |table|
  {
    table[b := !table[b]]
  }

  ghost predicate Disjoint(a: nat, aSize: nat, b: nat, bSize: nat) {
    a + aSize <= b || b + bSize <= a
  }

  /** The counter, the two meta slots and the 64 block slots are pairwise disjoint, and a sealed
      meta record fits its slot. Block versions are compared as (block, version) pairs. */
  lemma SlotsDisjoint(counter: nat, b: nat, v: nat, b': nat, v': nat)
    requires v < 2 && v' < 2
    ensures META_RECORD <= META_SLOT
    ensures Disjoint(MetaPos(counter, true), META_SLOT, MetaPos(counter, false), META_SLOT)
    ensures forall active ::
      && Disjoint(0, COUNTER_SIZE, MetaPos(counter, active), META_SLOT)
      && Disjoint(MetaPos(counter, active), META_SLOT, SlotPos(b, v), BLOCK_SLOT)
    ensures (b, v) != (b', v') ==> Disjoint(SlotPos(b, v), BLOCK_SLOT, SlotPos(b', v'), BLOCK_SLOT)
    ensures b < NUM_BLOCKS ==> SlotPos(b, v) + BLOCK_SLOT <= SlotPos(NUM_BLOCKS, 0) < TWO_TO_THE_31
  {
    if (b, v) != (b', v') {
      BlockSlotsDisjoint(b, v, b', v');
    }
  }

  /** Where everything lies: meta slots at 4 and 88, the live one by the parity of the counter; versions of
      block b from 172 + 568 b on, the live one by its bit in the table. */
  lemma Positions(counter: nat, table: seq<bool>, b: nat)
    requires b < |table|
    ensures MetaPos(counter, true) == 4 + 84 * (counter % 2) && MetaPos(counter, false) == 88 - 84 * (counter % 2)
    ensures BlockPos(table, b, true) == 172 + 568 * b + (if table[b] then 284 else 0)
    ensures BlockPos(table, b, false) == 172 + 568 * b + (if table[b] then 0 else 284)
    ensures BlockPos(Toggle(table, b), b, true) == BlockPos(table, b, false)
  {
  }

  lemma BlockSlotsDisjoint(b: nat, v: nat, b': nat, v': nat)
    requires v < 2 && v' < 2 && (b, v) != (b', v')
    ensures Disjoint(SlotPos(b, v), BLOCK_SLOT, SlotPos(b', v'), BLOCK_SLOT)
  {
    var n, n' := 2 * b + v, 2 * b' + v';
    assert n != n';
    assert n < n' ==> n * BLOCK_SLOT + BLOCK_SLOT <= n' * BLOCK_SLOT;
    assert n' < n ==> n' * BLOCK_SLOT + BLOCK_SLOT <= n * BLOCK_SLOT;
  }

  /** The slot a commit writes its meta to is the one the next counter value makes live,
      also when the 32-bit counter wraps around. */
  lemma CommitFlipsMetaSlot(counter: uint32)
    ensures MetaPos((counter + 1) % TWO_TO_THE_32, true) == MetaPos(counter, false)
    ensures MetaPos((counter + 1) % TWO_TO_THE_32, false) == MetaPos(counter, true)
  {
  }

  // ----- The meta record -----

  function EncodeInfo(info: FileInfo): (bytes: seq<byte>)
    requires info.length < TWO_TO_THE_64 && |info.table| == NUM_BLOCKS
    ensures |bytes| == INFO_SIZE
  {
    BitsRoundTrip(info.table);
    ThirtyTwoBits();
    Word(info.length % TWO_TO_THE_32) + Word(info.length / TWO_TO_THE_32) + Word(WordOfBits(info.table)) + Zeros(4)
  }

  function DecodeInfo(bytes: seq<byte>): (info: FileInfo)
    requires |bytes| == INFO_SIZE
    ensures |info.table| == NUM_BLOCKS
  {
    FileInfo(WordAt(bytes, 0) + TWO_TO_THE_32 * WordAt(bytes, 4), BitsOfWord(WordAt(bytes, 8), NUM_BLOCKS))
  }

  lemma InfoRoundTrip(info: FileInfo)
    requires info.length < TWO_TO_THE_64 && |info.table| == NUM_BLOCKS
    ensures DecodeInfo(EncodeInfo(info)) == info
    ensures WordAt(EncodeInfo(info), 0) == info.length % TWO_TO_THE_32 && WordAt(EncodeInfo(info), 8) == WordOfBits(info.table)
  {
    hide Word, WordAt, WordOfBits, BitsOfWord;
    var bytes := EncodeInfo(info);
    BitsRoundTrip(info.table);
    ThirtyTwoBits();
    WordAtSlice(bytes, 0, info.length % TWO_TO_THE_32);
    WordAtSlice(bytes, 4, info.length / TWO_TO_THE_32);
    WordAtSlice(bytes, 8, WordOfBits(info.table));
  }

  /** `read_meta` on a host file: the counter, then the meta record in the slot it selects. A
      record wholly past the end of the file reads as the zeroed struct of a new handle. */
  function OpenMeta(crypto: Crypto, image: Image): OpenedMeta {
    var counterBytes := ReadAt(image, 0, COUNTER_SIZE);
    if |counterBytes| != COUNTER_SIZE then Unopenable else
      var counter := WordAt(counterBytes, 0);
      var record := ReadAt(image, MetaPos(counter, true), META_RECORD);
      OpenedRecord(crypto, counter, record)
  }

  function OpenedRecord(crypto: Crypto, counter: nat, record: seq<byte>): OpenedMeta {
    if record == [] then
      OpenedMeta(counter, Meta(FileInfo(0, seq(NUM_BLOCKS, _ => false)), Zeros(FEK_SIZE), 0))
    else
      match Unseal(crypto, MetaFile, record, INFO_SIZE, [])
      case Forged => Unopenable
      case Opened(text) =>
        OpenedMeta(counter, Meta(DecodeInfo((text + Zeros(INFO_SIZE))[..INFO_SIZE]), RecordFek(MetaFile, record, []), 0))
  }

  // ----- Blocks and content -----

  function LiveSlot(meta: Meta, b: nat): nat
    requires b < |meta.info.table|
  {
    BlockPos(meta.info.table, b, true)
  }

  /** `read_block`: a block wholly past the end of the file reads as zeros. */
  function OpenBlock(crypto: Crypto, image: Image, meta: Meta, b: nat): Opening
    requires b < |meta.info.table|
  {
    var record := ReadAt(image, LiveSlot(meta, b), BLOCK_SLOT);
    if record == [] then Opened(Zeros(BLOCK_SIZE)) else Unseal(crypto, BlockFile, record, BLOCK_SIZE, meta.fek)
  }

  function BlockByte(crypto: Crypto, image: Image, meta: Meta, b: nat, j: nat): byte
    requires b < |meta.info.table|
  {
    match OpenBlock(crypto, image, meta, b)
    case Opened(text) => if j < |text| then text[j] else 0
    case Forged => 0
  }

  /** The live slot of the block is all there and opens. */
  predicate Sealed(crypto: Crypto, image: Image, meta: Meta, b: nat)
    requires b < |meta.info.table|
  {
    LiveSlot(meta, b) + BLOCK_SLOT <= |image| && OpenBlock(crypto, image, meta, b).Opened?
  }

  lemma SealedSize(crypto: Crypto, image: Image, meta: Meta, b: nat)
    requires crypto.Lawful() && b < |meta.info.table| && Sealed(crypto, image, meta, b)
    ensures |OpenBlock(crypto, image, meta, b).plaintext| == BLOCK_SIZE
  {
    OnlySealedOpens(crypto, BlockFile, ReadAt(image, LiveSlot(meta, b), BLOCK_SLOT), BLOCK_SIZE, meta.fek);
  }

  /** Every block that overlaps `[0, length)` is sealed. */
  ghost predicate Covered(crypto: Crypto, image: Image, meta: Meta) {
    && WellFormed(meta)
    && forall b | 0 <= b < NUM_BLOCKS && b * BLOCK_SIZE < meta.info.length :: Sealed(crypto, image, meta, b)
  }

  lemma CoveredWellFormed(crypto: Crypto, image: Image, meta: Meta)
    requires Covered(crypto, image, meta)
    ensures WellFormed(meta)
  {
  }

  /** The block can be read and rewritten: it is sealed, or its live version is the initial one
      and lies past the end of the file. */
  ghost predicate Intact(crypto: Crypto, image: Image, meta: Meta, b: nat)
    requires b < |meta.info.table|
  {
    Sealed(crypto, image, meta, b) || (meta.info.table[b] && SlotPos(b, 1) >= |image|)
  }

  /** As far as the file reaches, nothing but zeros lies in this slot. */
  ghost predicate ZeroSlot(image: Image, slot: nat) {
    forall i | slot <= i < slot + BLOCK_SLOT && i < |image| :: image[i] == 0
  }

  /** The live version of the block is the initial one and has never been written. */
  ghost predicate Blank(image: Image, meta: Meta, b: nat)
    requires b < |meta.info.table|
  {
    meta.info.table[b] && ZeroSlot(image, LiveSlot(meta, b))
  }

  /** Every block is sealed or has never been written. */
  ghost predicate Tidy(crypto: Crypto, image: Image, meta: Meta) {
    && |meta.info.table| == NUM_BLOCKS
    && forall b | 0 <= b < NUM_BLOCKS :: Sealed(crypto, image, meta, b) || Blank(image, meta, b)
  }

  lemma WholeIsTidy(crypto: Crypto, image: Image, meta: Meta)
    requires Whole(crypto, image, meta)
    ensures Tidy(crypto, image, meta)
  {
    forall b | 0 <= b < NUM_BLOCKS
      ensures Sealed(crypto, image, meta, b) || Blank(image, meta, b)
    {
      assert Intact(crypto, image, meta, b);
    }
  }

  /** A block that has never been written stays usable exactly while its slot is past the end of the file,
      or when it lies in a hole and a record of all zeros opens under the file's key. */
  lemma BlankExactly(crypto: Crypto, image: Image, meta: Meta, b: nat)
    requires b < |meta.info.table| && Blank(image, meta, b)
    ensures Sealed(crypto, image, meta, b)
       <==> LiveSlot(meta, b) + BLOCK_SLOT <= |image|
            && Unseal(crypto, BlockFile, Zeros(BLOCK_SLOT), BLOCK_SIZE, meta.fek).Opened?
    ensures Intact(crypto, image, meta, b) <==> Sealed(crypto, image, meta, b) || LiveSlot(meta, b) >= |image|
  {
    hide Unseal;
    if LiveSlot(meta, b) + BLOCK_SLOT <= |image| {
      assert ReadAt(image, LiveSlot(meta, b), BLOCK_SLOT) == Zeros(BLOCK_SLOT);
    }
  }

  ghost predicate Whole(crypto: Crypto, image: Image, meta: Meta) {
    |meta.info.table| == NUM_BLOCKS && forall b | 0 <= b < NUM_BLOCKS :: Intact(crypto, image, meta, b)
  }

  /** The byte sequence a reader of the file sees. */
  function Content(crypto: Crypto, image: Image, meta: Meta): (content: seq<byte>)
    requires WellFormed(meta)
    ensures |content| == meta.info.length
    ensures forall i | 0 <= i < |content| ::
      content[i] == BlockByte(crypto, image, meta, i / BLOCK_SIZE, i % BLOCK_SIZE)
  {
    seq(meta.info.length, i requires 0 <= i < meta.info.length =>
      BlockByte(crypto, image, meta, i / BLOCK_SIZE, i % BLOCK_SIZE))
  }

  lemma ContentLength(crypto: Crypto, image: Image, meta: Meta)
    requires Covered(crypto, image, meta)
    ensures |Content(crypto, image, meta)| == meta.info.length <= MAX_FILE_SIZE
  {
  }

  /** A file of length zero shows nothing, and is whole while it ends before the first block's
      initial version. */
  lemma EmptyFile(crypto: Crypto, image: Image, meta: Meta)
    requires WellFormed(meta) && meta.info.length == 0
    ensures Covered(crypto, image, meta) && Content(crypto, image, meta) == []
    ensures |image| <= SlotPos(0, 1) && (forall b | 0 <= b < NUM_BLOCKS :: meta.info.table[b]) ==>
      Whole(crypto, image, meta)
  {
  }

  lemma ContentAt(crypto: Crypto, image: Image, meta: Meta, b: nat, j: nat)
    requires WellFormed(meta) && j < BLOCK_SIZE && b * BLOCK_SIZE + j < meta.info.length
    ensures Content(crypto, image, meta)[b * BLOCK_SIZE + j] == BlockByte(crypto, image, meta, b, j)
  {
    hide BlockByte;
    var i := b * BLOCK_SIZE + j;
    assert i / BLOCK_SIZE == b && i % BLOCK_SIZE == j;
  }

  /** A part of a block read after the part of the content before it continues that content. */
  lemma ReadPiece(crypto: Crypto, image: Image, meta: Meta, b: nat, offset: nat, size: nat,
                  from: nat, data: seq<byte>, block: seq<byte>)
    requires crypto.Lawful() && Covered(crypto, image, meta)
    requires size > 0 && offset + size <= BLOCK_SIZE && b * BLOCK_SIZE + offset + size <= meta.info.length
    requires from <= b * BLOCK_SIZE + offset
    requires data == Content(crypto, image, meta)[from..b * BLOCK_SIZE + offset]
    ensures OpenBlock(crypto, image, meta, b).Opened?
    ensures OpenBlock(crypto, image, meta, b).plaintext <= block && |block| == BLOCK_SIZE ==>
      data + block[offset..offset + size] == Content(crypto, image, meta)[from..b * BLOCK_SIZE + offset + size]
  {
    hide OpenBlock, Content;
    assert Sealed(crypto, image, meta, b);
    SealedSize(crypto, image, meta, b);
    if OpenBlock(crypto, image, meta, b).plaintext <= block && |block| == BLOCK_SIZE {
      var content, pos := Content(crypto, image, meta), b * BLOCK_SIZE + offset;
      var expected, piece := content[pos..pos + size], block[offset..offset + size];
      forall j | 0 <= j < size
        ensures expected[j] == piece[j]
      {
        ContentAt(crypto, image, meta, b, offset + j);
      }
      assert expected == piece;
      assert content[from..pos] + content[pos..pos + size] == content[from..pos + size];
    }
  }

  /** `image` holds a committed file with this counter and meta. */
  ghost predicate Committed(crypto: Crypto, image: Image, counter: nat, meta: Meta) {
    && |image| >= MetaPos(counter, true) + META_RECORD
    && OpenMeta(crypto, image) == OpenedMeta(counter, meta.(counter := 0))
    && Covered(crypto, image, meta)
  }

  datatype Reopened = Shows(content: seq<byte>) | NoFile

  /** What a handle newly opened on `image` shows, if it is a committed file. */
  ghost function Reopen(crypto: Crypto, image: Image): Reopened {
    var found := OpenMeta(crypto, image);
    if found.OpenedMeta? && Committed(crypto, image, found.counter, found.meta)
    then Shows(Content(crypto, image, found.meta)) else NoFile
  }

  /** The counter on the disk is that of a committed file; no handle with another counter is in step. */
  lemma CommittedCounter(crypto: Crypto, image: Image, counter: nat, meta: Meta)
    requires Committed(crypto, image, counter, meta)
    ensures OpenMeta(crypto, image).OpenedMeta? && OpenMeta(crypto, image).counter == counter
    ensures forall counter', meta' | counter' != counter :: !Committed(crypto, image, counter', meta')
  {
  }

  /** No block of the file, as it would be opened, refuses to be read or rewritten. */
  ghost predicate WholeFile(crypto: Crypto, image: Image) {
    var found := OpenMeta(crypto, image);
    found.OpenedMeta? && Whole(crypto, image, found.meta)
  }

  /** Every block of the file, as it would be opened, is sealed or blank. */
  ghost predicate TidyFile(crypto: Crypto, image: Image) {
    var found := OpenMeta(crypto, image);
    found.OpenedMeta? && Tidy(crypto, image, found.meta)
  }

  lemma CommittedWhole(crypto: Crypto, image: Image, counter: nat, meta: Meta)
    requires Committed(crypto, image, counter, meta)
    ensures WholeFile(crypto, image) == Whole(crypto, image, meta)
    ensures TidyFile(crypto, image) == Tidy(crypto, image, meta)
  {
    SameView(crypto, image, meta, meta.(counter := 0));
  }

  /** Two metas that agree on info and FEK show the same file. */
  lemma SameView(crypto: Crypto, image: Image, meta: Meta, meta': Meta)
    requires meta.info == meta'.info && meta.fek == meta'.fek
    ensures Covered(crypto, image, meta) == Covered(crypto, image, meta')
    ensures Whole(crypto, image, meta) == Whole(crypto, image, meta')
    ensures Tidy(crypto, image, meta) == Tidy(crypto, image, meta')
    ensures Covered(crypto, image, meta) ==> Content(crypto, image, meta) == Content(crypto, image, meta')
    ensures forall counter :: Committed(crypto, image, counter, meta) == Committed(crypto, image, counter, meta')
  {
    assert forall b | 0 <= b < |meta.info.table| :: OpenBlock(crypto, image, meta, b) == OpenBlock(crypto, image, meta', b);
    assert forall b | 0 <= b < |meta.info.table| :: Sealed(crypto, image, meta, b) == Sealed(crypto, image, meta', b);
    assert forall b | 0 <= b < |meta.info.table| :: Intact(crypto, image, meta, b) == Intact(crypto, image, meta', b);
    assert forall b | 0 <= b < |meta.info.table| :: Blank(image, meta, b) == Blank(image, meta', b);
  }

  lemma CommittedReopens(crypto: Crypto, image: Image, counter: nat, meta: Meta)
    requires Committed(crypto, image, counter, meta)
    ensures WellFormed(meta) && Reopen(crypto, image) == Shows(Content(crypto, image, meta))
  {
    SameView(crypto, image, meta, meta.(counter := 0));
  }

  // ----- What a write leaves alone -----

  /** The write target meets neither the counter, nor the live meta record, nor any live block. */
  ghost predicate SafeTarget(counter: nat, meta: Meta, offset: nat, size: nat) {
    && Disjoint(0, COUNTER_SIZE, offset, size)
    && Disjoint(MetaPos(counter, true), META_RECORD, offset, size)
    && forall b | 0 <= b < |meta.info.table| :: Disjoint(LiveSlot(meta, b), BLOCK_SLOT, offset, size)
  }

  /** Everything the counter and this meta name, as far as it was there, reads the same. */
  ghost predicate Undisturbed(image: Image, image': Image, counter: nat, meta: Meta) {
    && |image| <= |image'|
    && (|image| >= COUNTER_SIZE ==> ReadAt(image', 0, COUNTER_SIZE) == ReadAt(image, 0, COUNTER_SIZE))
    && (|image| >= MetaPos(counter, true) + META_RECORD ==>
          ReadAt(image', MetaPos(counter, true), META_RECORD) == ReadAt(image, MetaPos(counter, true), META_RECORD))
    && SameBlocks(image, image', meta)
  }

  ghost predicate SameBlocks(image: Image, image': Image, meta: Meta) {
    && |image| <= |image'|
    && (forall b | 0 <= b < |meta.info.table| && ZeroSlot(image, LiveSlot(meta, b)) :: ZeroSlot(image', LiveSlot(meta, b)))
    && forall b | 0 <= b < |meta.info.table| && LiveSlot(meta, b) + BLOCK_SLOT <= |image| ::
         ReadAt(image', LiveSlot(meta, b), BLOCK_SLOT) == ReadAt(image, LiveSlot(meta, b), BLOCK_SLOT)
  }

  lemma UndisturbedSameBlocks(image: Image, image': Image, counter: nat, meta: Meta)
    requires Undisturbed(image, image', counter, meta)
    ensures SameBlocks(image, image', meta)
  {
  }

  lemma SameSlots(image: Image, image': Image, meta: Meta, meta': Meta)
    requires meta.info == meta'.info
    ensures SameBlocks(image, image', meta) == SameBlocks(image, image', meta')
  {
    hide ZeroSlot;
    assert forall b | 0 <= b < |meta.info.table| :: LiveSlot(meta, b) == LiveSlot(meta', b);
  }

  /** The inactive meta slot and the inactive version of any block are safe targets. */
  lemma InactiveIsSafe(counter: nat, meta: Meta, b: nat)
    requires |meta.info.table| == NUM_BLOCKS
    ensures SafeTarget(counter, meta, MetaPos(counter, false), META_RECORD)
    ensures b < NUM_BLOCKS ==> SafeTarget(counter, meta, BlockPos(meta.info.table, b, false), BLOCK_SLOT)
  {
    forall b' | 0 <= b' < NUM_BLOCKS
      ensures Disjoint(LiveSlot(meta, b'), BLOCK_SLOT, MetaPos(counter, false), META_RECORD)
      ensures b < NUM_BLOCKS ==>
        Disjoint(LiveSlot(meta, b'), BLOCK_SLOT, BlockPos(meta.info.table, b, false), BLOCK_SLOT)
    {
      if b < NUM_BLOCKS {
        SlotsDisjoint(counter, b', Bit(meta.info.table[b']), b, 1 - Bit(meta.info.table[b]));
      }
    }
  }

  /** A torn write to a safe target disturbs nothing that the meta names. */
  lemma TornIsUndisturbed(image: Image, counter: nat, meta: Meta, offset: nat, size: nat, torn: Image)
    requires SafeTarget(counter, meta, offset, size)
    requires Torn(image, offset, size, torn)
    ensures Undisturbed(image, torn, counter, meta)
  {
    if |image| >= COUNTER_SIZE {
      ReadOutside(image, offset, size, torn, 0, COUNTER_SIZE);
    }
    if |image| >= MetaPos(counter, true) + META_RECORD {
      ReadOutside(image, offset, size, torn, MetaPos(counter, true), META_RECORD);
    }
    forall b | 0 <= b < |meta.info.table| && LiveSlot(meta, b) + BLOCK_SLOT <= |image|
      ensures ReadAt(torn, LiveSlot(meta, b), BLOCK_SLOT) == ReadAt(image, LiveSlot(meta, b), BLOCK_SLOT)
    {
      ReadOutside(image, offset, size, torn, LiveSlot(meta, b), BLOCK_SLOT);
    }
    forall b | 0 <= b < |meta.info.table| && ZeroSlot(image, LiveSlot(meta, b))
      ensures ZeroSlot(torn, LiveSlot(meta, b))
    {
      ZeroSlotOutside(image, offset, size, torn, LiveSlot(meta, b));
    }
  }

  /** A torn write beside a slot of zeros leaves it so, also when the file grows over it. */
  lemma ZeroSlotOutside(image: Image, offset: nat, size: nat, torn: Image, slot: nat)
    requires Torn(image, offset, size, torn) && Disjoint(slot, BLOCK_SLOT, offset, size) && ZeroSlot(image, slot)
    ensures ZeroSlot(torn, slot)
  {
  }

  lemma UndisturbedTransitive(a: Image, b: Image, c: Image, counter: nat, meta: Meta)
    requires Undisturbed(a, b, counter, meta) && Undisturbed(b, c, counter, meta)
    ensures Undisturbed(a, c, counter, meta)
  {
  }

  /** Sealed blocks stay sealed with the same text when their slots read the same. */
  lemma SameBlocksKeep(crypto: Crypto, image: Image, image': Image, meta: Meta)
    requires SameBlocks(image, image', meta)
    ensures forall b | 0 <= b < |meta.info.table| && Sealed(crypto, image, meta, b) ::
      Sealed(crypto, image', meta, b) && OpenBlock(crypto, image', meta, b) == OpenBlock(crypto, image, meta, b)
    ensures Covered(crypto, image, meta) ==>
      Covered(crypto, image', meta) && Content(crypto, image', meta) == Content(crypto, image, meta)
  {
    if Covered(crypto, image, meta) {
      forall i | 0 <= i < meta.info.length
        ensures Content(crypto, image', meta)[i] == Content(crypto, image, meta)[i]
      {
        assert Sealed(crypto, image, meta, i / BLOCK_SIZE);
      }
    }
  }

  lemma TidyOfTable(crypto: Crypto, image: Image, meta: Meta, meta': Meta)
    requires meta.info.table == meta'.info.table && meta.fek == meta'.fek
    ensures Tidy(crypto, image, meta) == Tidy(crypto, image, meta')
  {
    assert forall b | 0 <= b < |meta.info.table| :: Sealed(crypto, image, meta, b) == Sealed(crypto, image, meta', b);
    assert forall b | 0 <= b < |meta.info.table| :: Blank(image, meta, b) == Blank(image, meta', b);
  }

  lemma SameBlocksTidy(crypto: Crypto, image: Image, image': Image, meta: Meta)
    requires SameBlocks(image, image', meta) && Tidy(crypto, image, meta)
    ensures Tidy(crypto, image', meta)
  {
    hide OpenBlock, ZeroSlot;
    SameBlocksKeep(crypto, image, image', meta);
  }

  /** An undisturbed file is still the same committed file, and shows the same content. */
  lemma UndisturbedKeeps(crypto: Crypto, image: Image, image': Image, counter: nat, meta: Meta)
    requires Committed(crypto, image, counter, meta)
    requires Undisturbed(image, image', counter, meta)
    ensures Committed(crypto, image', counter, meta)
    ensures Content(crypto, image', meta) == Content(crypto, image, meta)
    ensures Reopen(crypto, image') == Shows(Content(crypto, image, meta))
  {
    SameBlocksKeep(crypto, image, image', meta);
    CommittedReopens(crypto, image', counter, meta);
  }
}
