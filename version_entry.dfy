/**
 * One version of a row in the multi-version store, as the handler reports
 * it (include/versiondb/version-entry.h).
 */
module VersionEntries {
  import opened Wrappers
  import opened Configuration
  import opened Records

  /** Sentinels shared by the whole engine. */
  const kDefaultBeginTs: int := -1
  const kDefaultEndTs: int := -1
  const kDefaultMaxTs: int := 0
  const kUnSetCommitTs: int := -2
  const kMaxTimeStamp: int := INT64_MAX
  const kDefaultVersion: int := -1
  const kFirstVersion: int := 0
  const kEmptyTxId: int := -1
  const kMaxVersionKeyStartIndex: int := -1

  /**
   * Records are held by pointer in the source; here a record value or None
   * for a null pointer.
   */
  datatype VersionEntry = VersionEntry(
    version: int,
    txId: int,
    beginTs: int,
    endTs: int,
    maxCommitTs: int,
    isDeleted: bool,
    readRecord: Option<Record>,
    writeRecord: Option<Record>)

  /** The default constructor: every field at its sentinel, both records null. */
  function Default(): VersionEntry {
    VersionEntry(kDefaultVersion, kEmptyTxId, kDefaultBeginTs, kDefaultEndTs, -1, true, None, None)
  }

  /**
   * Reset(record): every field back to its sentinel except the read record,
   * which becomes the given one.
   */
  function ResetToDefault(record: Option<Record> := None): (e: VersionEntry)
    ensures e == Default().(readRecord := record)
    ensures e.version == kDefaultVersion && e.isDeleted && e.writeRecord == None
  {
    VersionEntry(kDefaultVersion, kEmptyTxId, kDefaultBeginTs, kDefaultEndTs, -1, true, record, None)
  }

  /** operator<: versions are ordered by their version number alone. */
  predicate Less(a: VersionEntry, b: VersionEntry) {
    a.version < b.version
  }

  /** operator< is a strict order that ignores every field but the version. */
  lemma LessIsStrictOrderOnVersions(a: VersionEntry, b: VersionEntry, c: VersionEntry)
    ensures !Less(a, a)
    ensures Less(a, b) && Less(b, c) ==> Less(a, c)
    ensures Less(a, b) ==> !Less(b, a)
    ensures !Less(a, b) && !Less(b, a) <==> a.version == b.version
  {
  }
  /** The full Reset (and the full constructor): every field from its argument. */
  function Reset(version: int, txId: int, beginTs: int, endTs: int, maxCommitTs: int, isDeleted: bool,
                 readRecord: Option<Record>, writeRecord: Option<Record>): (e: VersionEntry)
    ensures e.version == version && e.txId == txId && e.beginTs == beginTs && e.endTs == endTs
    ensures e.maxCommitTs == maxCommitTs && e.isDeleted == isDeleted
    ensures e.readRecord == readRecord && e.writeRecord == writeRecord
  {
    VersionEntry(version, txId, beginTs, endTs, maxCommitTs, isDeleted, readRecord, writeRecord)
  }

  /** operator=: the target ends up equal to the source entry, field for field. */
  function Assign(other: VersionEntry): (e: VersionEntry)
    ensures e == other
  {
    Reset(other.version, other.txId, other.beginTs, other.endTs, other.maxCommitTs, other.isDeleted,
          other.readRecord, other.writeRecord)
  }
}
