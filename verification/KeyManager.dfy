/** compat/mitee_compat/tee_fs_key_manager_compat.c: the sealed record format. */
module KeyManager {
  import opened Bytes
  import opened TeeResult

  const FEK_SIZE := 16
  const IV_LEN := 12
  const TAG_LEN := 16

  datatype FileType = MetaFile | BlockFile

  datatype Sealing = Sealing(ciphertext: seq<byte>, tag: seq<byte>)
  datatype Opening = Opened(plaintext: seq<byte>) | Forged

  /** The library cryptography: the file key behind an encrypted FEK, and AES-GCM. */
  datatype Crypto = Crypto(
    fekCrypt: seq<byte> -> seq<byte>,
    encrypt: (seq<byte>, seq<byte>, seq<byte>, seq<byte>) -> Sealing,
    decrypt: (seq<byte>, seq<byte>, seq<byte>, Sealing) -> Opening)
  {
    /** The AEAD law: decryption opens what encryption sealed, and nothing else. */
    ghost predicate Lawful() {
      && (forall key, iv, aad, text :: WellSized(text, encrypt(key, iv, aad, text)))
      && (forall key, iv, aad, text :: decrypt(key, iv, aad, encrypt(key, iv, aad, text)) == Opened(text))
      && (forall key, iv, aad, sealing :: decrypt(key, iv, aad, sealing).Opened? ==>
            encrypt(key, iv, aad, decrypt(key, iv, aad, sealing).plaintext) == sealing)
    }
  }

  predicate WellSized(text: seq<byte>, sealing: Sealing) {
    |sealing.ciphertext| == |text| && |sealing.tag| == TAG_LEN
  }

  /** `tee_fs_get_header_size`: a meta record also carries the encrypted FEK. */
  function HeaderSize(fileType: FileType): nat {
    match fileType
    case MetaFile => FEK_SIZE + IV_LEN + TAG_LEN
    case BlockFile => IV_LEN + TAG_LEN
  }

  /** The record layout: [FEK only for meta] | IV | tag | ciphertext. */
  function Seal(crypto: Crypto, fileType: FileType, iv: seq<byte>, fek: seq<byte>, text: seq<byte>): seq<byte> {
    var sealing := crypto.encrypt(crypto.fekCrypt(fek), iv, fek + iv, text);
    (if fileType == MetaFile then fek else []) + iv + sealing.tag + sealing.ciphertext
  }

  /** The FEK a record is opened with: its own for meta, the caller's for a block. */
  function RecordFek(fileType: FileType, record: seq<byte>, fek: seq<byte>): seq<byte>
    requires |record| >= HeaderSize(fileType)
  {
    if fileType == MetaFile then record[..FEK_SIZE] else fek
  }

  /** What opening a record of this type into a buffer of `capacity` bytes yields. */
  function Unseal(crypto: Crypto, fileType: FileType, record: seq<byte>, capacity: nat, fek: seq<byte>): Opening {
    var header := HeaderSize(fileType);
    if |record| < header || |record| - header > capacity then Forged else
      var key := RecordFek(fileType, record, fek);
      var iv := record[header - TAG_LEN - IV_LEN..header - TAG_LEN];
      var sealing := Sealing(record[header..], record[header - TAG_LEN..header]);
      crypto.decrypt(crypto.fekCrypt(key), iv, key + iv, sealing)
  }

  lemma SealSize(crypto: Crypto, fileType: FileType, iv: seq<byte>, fek: seq<byte>, text: seq<byte>)
    requires crypto.Lawful() && |iv| == IV_LEN && |fek| == FEK_SIZE
    ensures |Seal(crypto, fileType, iv, fek, text)| == HeaderSize(fileType) + |text|
  {
    assert WellSized(text, crypto.encrypt(crypto.fekCrypt(fek), iv, fek + iv, text));
  }

  /** Opening a sealed record gives back its plaintext, whatever FEK the caller brings for a
      meta record, and the meta record also gives back the FEK. */
  lemma SealRoundTrip(crypto: Crypto, fileType: FileType, iv: seq<byte>, fek: seq<byte>, text: seq<byte>,
                      capacity: nat, callerFek: seq<byte>)
    requires crypto.Lawful() && |iv| == IV_LEN && |fek| == FEK_SIZE && |text| <= capacity
    requires fileType == BlockFile ==> callerFek == fek
    ensures var record := Seal(crypto, fileType, iv, fek, text);
      && |record| == HeaderSize(fileType) + |text|
      && (fileType == MetaFile ==> record[..FEK_SIZE] == fek)
      && record[|record| - |text| - TAG_LEN - IV_LEN..|record| - |text| - TAG_LEN] == iv
      && RecordFek(fileType, record, callerFek) == fek
      && Unseal(crypto, fileType, record, capacity, callerFek) == Opened(text)
  {
    SealSize(crypto, fileType, iv, fek, text);
    var record := Seal(crypto, fileType, iv, fek, text);
    var sealing := crypto.encrypt(crypto.fekCrypt(fek), iv, fek + iv, text);
    var header := HeaderSize(fileType);
    assert WellSized(text, sealing);
    assert record[header - TAG_LEN - IV_LEN..header - TAG_LEN] == iv;
    assert record[header - TAG_LEN..header] == sealing.tag;
    assert record[header..] == sealing.ciphertext;
    if fileType == MetaFile {
      assert record[..FEK_SIZE] == fek;
    }
  }

  /** Only sealed records open: a record that opens to `text` is exactly what sealing `text`
      under that record's own IV and FEK produces. */
  lemma OnlySealedOpens(crypto: Crypto, fileType: FileType, record: seq<byte>, capacity: nat, fek: seq<byte>)
    requires crypto.Lawful()
    requires Unseal(crypto, fileType, record, capacity, fek).Opened?
    ensures |record| >= HeaderSize(fileType)
    ensures var header := HeaderSize(fileType);
      var text := Unseal(crypto, fileType, record, capacity, fek).plaintext;
      && |text| == |record| - header
      && record == Seal(crypto, fileType, record[header - TAG_LEN - IV_LEN..header - TAG_LEN],
                        RecordFek(fileType, record, fek), text)
  {
    var header := HeaderSize(fileType);
    var key := RecordFek(fileType, record, fek);
    var iv := record[header - TAG_LEN - IV_LEN..header - TAG_LEN];
    var text := Unseal(crypto, fileType, record, capacity, fek).plaintext;
    var sealing := crypto.encrypt(crypto.fekCrypt(key), iv, key + iv, text);
    assert sealing == Sealing(record[header..], record[header - TAG_LEN..header]);
    assert WellSized(text, sealing);
    assert record == (if fileType == MetaFile then record[..FEK_SIZE] else []) + iv + sealing.tag + sealing.ciphertext;
  }

  /** The law can be met: a cipher whose ciphertext is the plaintext and whose tag is zero. */
  function PlainText(): Crypto {
    Crypto(fek => fek,
           (key, iv, aad, text) => Sealing(text, Zeros(TAG_LEN)),
           (key, iv, aad, sealing: Sealing) => if sealing.tag == Zeros(TAG_LEN) then Opened(sealing.ciphertext) else Forged)
  }

  lemma LawfulIsSatisfiable()
    ensures PlainText().Lawful()
  {
  }

  /** `tee_fs_encrypt_file`. Randomness, key unwrapping or the cipher may fail (`fault`). */
  method EncryptFile(crypto: Crypto, fileType: FileType, dataIn: seq<byte>, dataOutSize: nat, fek: seq<byte>)
      returns (res: TeeResult, dataOut: seq<byte>, fault: bool, ghost iv: seq<byte>)
    requires crypto.Lawful() && |fek| == FEK_SIZE
    ensures res != BadParameters
    ensures res == Success <==> !fault && dataOutSize == HeaderSize(fileType) + |dataIn|
    ensures res == Success ==>
      && |iv| == IV_LEN && dataOut == Seal(crypto, fileType, iv, fek, dataIn) && |dataOut| == dataOutSize
  {
    var headerSize := HeaderSize(fileType);
    dataOut, fault, iv := [], false, [];
    if dataOutSize != headerSize + |dataIn| {
      return ShortBuffer, dataOut, fault, iv;
    }
    fault := *;
    if fault {
      return Generic, dataOut, fault, iv;
    }
    assert |Zeros(IV_LEN)| == IV_LEN;
    var nonce: seq<byte> :| |nonce| == IV_LEN;
    iv := nonce;
    var sealing := crypto.encrypt(crypto.fekCrypt(fek), nonce, fek + nonce, dataIn);
    if fileType == MetaFile {
      dataOut := dataOut + fek;
    }
    dataOut := dataOut + nonce;
    dataOut := dataOut + sealing.tag;
    dataOut := dataOut + sealing.ciphertext;
    SealSize(crypto, fileType, iv, fek, dataIn);
    return Success, dataOut, fault, iv;
  }

  /** A record of this size has a header, and its text fits the caller's buffer. */
  predicate FitsRecord(fileType: FileType, size: nat, capacity: nat) {
    HeaderSize(fileType) <= size <= HeaderSize(fileType) + capacity
  }

  /** `tee_fs_decrypt_file`. Key unwrapping or the cipher may fail (`fault`). */
  method DecryptFile(crypto: Crypto, fileType: FileType, dataIn: seq<byte>, capacity: nat, fek: seq<byte>)
      returns (res: TeeResult, plaintext: seq<byte>, usedFek: seq<byte>, fault: bool)
    ensures res != BadParameters
    ensures res == Success <==> !fault && Unseal(crypto, fileType, dataIn, capacity, fek).Opened?
    ensures !fault && !FitsRecord(fileType, |dataIn|, capacity) ==> res == ShortBuffer
    ensures !fault && FitsRecord(fileType, |dataIn|, capacity) && Unseal(crypto, fileType, dataIn, capacity, fek).Forged? ==>
      res == MacInvalid
    ensures res == Success ==>
      && Opened(plaintext) == Unseal(crypto, fileType, dataIn, capacity, fek)
      && |dataIn| >= HeaderSize(fileType) && usedFek == RecordFek(fileType, dataIn, fek)
  {
    var headerSize := HeaderSize(fileType);
    plaintext, usedFek := [], fek;
    fault := *;
    if fault {
      return Generic, plaintext, usedFek, fault;
    }
    var cipherSize := |dataIn| - headerSize;
    // A record shorter than its header makes this size wrap around to a huge one.
    if cipherSize < 0 || cipherSize > capacity {
      return ShortBuffer, plaintext, usedFek, fault;
    }
    if fileType == MetaFile {
      usedFek := dataIn[..FEK_SIZE];
    }
    var iv := dataIn[headerSize - TAG_LEN - IV_LEN..headerSize - TAG_LEN];
    var tag := dataIn[headerSize - TAG_LEN..headerSize];
    match crypto.decrypt(crypto.fekCrypt(usedFek), iv, usedFek + iv, Sealing(dataIn[headerSize..], tag))
    case Opened(text) =>
      plaintext := text;
      res := Success;
    case Forged =>
      res := MacInvalid;
  }
}
