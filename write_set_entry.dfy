/**
 * A version the transaction intends to install (include/versiondb/write-set-entry.h).
 * The pointer back to the read-set entry it was derived from is an index
 * into the read-set pool.
 */
module WriteSetEntries {
  import opened Wrappers
  import opened Configuration
  import opened Bytes
  import opened Records
  import opened VersionEntries

  datatype WriteSetEntry = WriteSetEntry(
    version: int,
    isDeleted: bool,
    record: Option<Record>,
    readEntry: Option<nat>,
    needPostProcessing: bool)

  /** The default constructor: default version, a tombstone with no record and no read entry. */
  function Default(): WriteSetEntry {
    WriteSetEntry(kDefaultVersion, true, None, None, false)
  }

  /** Reset (and the full constructor): every field from the arguments. */
  function Reset(version: int, isDeleted: bool, record: Option<Record>, readEntry: Option<nat>,
                 needPostProcessing: bool := false): (e: WriteSetEntry)
    ensures e.version == version && e.isDeleted == isDeleted && e.record == record
    ensures e.readEntry == readEntry && e.needPostProcessing == needPostProcessing
  {
    WriteSetEntry(version, isDeleted, record, readEntry, needPostProcessing)
  }

  /** Copy(): an equal entry sharing the record and the read entry. */
  function Copy(e: WriteSetEntry): (c: WriteSetEntry)
    ensures c == e
  {
    Reset(e.version, e.isDeleted, e.record, e.readEntry, e.needPostProcessing)
  }

  /** The source dereferences the record, and the version must fit an int64_t. */
  predicate Serializable(e: WriteSetEntry) {
    e.record.Some? && Records.Serializable(e.record.value) && IsInt64(e.version)
  }

  /** The bytes SerializeToBuffer writes: 8-byte version, 1-byte flag, the record. */
  function Encode(e: WriteSetEntry): seq<byte>
    requires Serializable(e)
  {
    EncodeInt64(e.version) + EncodeBool(e.isDeleted) + Records.Encode(e.record.value)
  }

  /** Serialize_Length as written: the version is counted as an int (4 bytes). */
  function SerializeLength(e: WriteSetEntry): nat
    requires e.record.Some?
  {
    INT_LENGTH + BOOL_LENGTH + Records.SerializeLength(e.record.value)
  }

  /** As written, Serialize_Length is four bytes short of what SerializeToBuffer writes. */
  lemma SerializeLengthUndercounts(e: WriteSetEntry)
    requires Serializable(e)
    ensures |Encode(e)| == SerializeLength(e) + (INT64_T_LENGTH - INT_LENGTH)
    ensures SerializeLength(e) < |Encode(e)|
  {
  }

  /** Serialize_Length with the version counted at the width it is written. */
  function CorrectedSerializeLength(e: WriteSetEntry): (n: nat)
    requires e.record.Some?
    ensures Serializable(e) ==> n == |Encode(e)|
  {
    INT64_T_LENGTH + BOOL_LENGTH + Records.SerializeLength(e.record.value)
  }

  /**
   * SerializeToBuffer(buffer, offset): version, deleted flag, then the
   * record's own encoding; offset advances by the bytes written.
   */
  method SerializeToBuffer(e: WriteSetEntry, buffer: array<byte>, offset: nat) returns (newOffset: nat)
    requires Serializable(e)
    requires offset + CorrectedSerializeLength(e) <= buffer.Length
    modifies buffer
    ensures newOffset == offset + CorrectedSerializeLength(e)
    ensures buffer[..] == old(buffer[..offset]) + Encode(e) + old(buffer[newOffset..])
  {
    ghost var b0 := buffer[..];
    var head := EncodeInt64(e.version) + EncodeBool(e.isDeleted);
    var mid := WriteBoth(buffer, offset, EncodeInt64(e.version), EncodeBool(e.isDeleted));
    ghost var b1 := buffer[..];
    newOffset := Records.SerializeToBuffer(e.record.value, buffer, mid);
    SpliceTwice(b0, b1, buffer[..], offset, head, Records.Encode(e.record.value));
    assert b0[..offset] == old(buffer[..offset]);
  }
}
