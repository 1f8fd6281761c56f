/**
 * A transaction's entry in the transaction table (include/versiondb/tx-entry.h):
 * its id, status, commit timestamp and commit lower bound.
 */
module TxEntries {
  import opened Configuration
  import opened Bytes
  import opened VersionEntries

  /** TxnStatus, in declaration order. */
  datatype TxnStatus = Ongoing | Committed | WaitForAborting | Aborting | Aborted

  const kDefaultCommitTs: int := -1

  datatype TxnEntry = TxnEntry(txId: int, status: TxnStatus, commitTs: int, commitLowerBound: int)

  /** The default constructor. */
  function Default(): TxnEntry {
    TxnEntry(kEmptyTxId, Ongoing, kDefaultCommitTs, kDefaultCommitTs)
  }

  /**
   * Reset(tx_id, lower_bound): an ongoing entry with the given id and lower
   * bound and no commit timestamp, whatever the entry held before.
   */
  function Reset(tx: int, lowerBound: int): (r: TxnEntry)
    ensures r == Default().(txId := tx, commitLowerBound := lowerBound)
  {
    TxnEntry(tx, Ongoing, kDefaultCommitTs, lowerBound)
  }

  /** Reset(lower_bound): only the commit lower bound changes. */
  function ResetLowerBound(e: TxnEntry, lowerBound: int): (r: TxnEntry)
    ensures r.commitLowerBound == lowerBound
    ensures r.txId == e.txId && r.status == e.status && r.commitTs == e.commitTs
  {
    e.(commitLowerBound := lowerBound)
  }

  /** The entry's 64-bit fields fit an int64_t. */
  predicate Serializable(e: TxnEntry) {
    IsInt64(e.txId) && IsInt64(e.commitTs)
  }

  /** Serialize_Length: two int64 fields. */
  function SerializeLength(e: TxnEntry): (n: nat)
    ensures Serializable(e) ==> n == |Encode(e)|
  {
    2 * INT64_T_LENGTH
  }

  /** The bytes SerializeToBuffer writes: the id, then the commit timestamp. */
  function Encode(e: TxnEntry): seq<byte>
    requires Serializable(e)
  {
    EncodeInt64(e.txId) + EncodeInt64(e.commitTs)
  }

  /**
   * The encoding carries the id in its first eight bytes and the commit
   * timestamp in the next eight; status and lower bound are not written.
   */
  lemma EncodeCarriesIdAndCommitTs(e: TxnEntry)
    requires Serializable(e)
    ensures DecodeInt64(Encode(e)[..INT64_T_LENGTH]) == e.txId
    ensures DecodeInt64(Encode(e)[INT64_T_LENGTH..]) == e.commitTs
    ensures forall f: TxnEntry :: Serializable(f) && f.txId == e.txId && f.commitTs == e.commitTs ==> Encode(f) == Encode(e)
  {
    assert Encode(e)[..INT64_T_LENGTH] == EncodeInt64(e.txId);
    assert Encode(e)[INT64_T_LENGTH..] == EncodeInt64(e.commitTs);
    Int64RoundTrip(e.txId);
    Int64RoundTrip(e.commitTs);
  }

  /** SerializeToBuffer(buffer, offset): two memcpy calls of eight bytes each. */
  method SerializeToBuffer(e: TxnEntry, buffer: array<byte>, offset: nat) returns (newOffset: nat)
    requires Serializable(e)
    requires offset + SerializeLength(e) <= buffer.Length
    modifies buffer
    ensures newOffset == offset + SerializeLength(e)
    ensures buffer[..] == old(buffer[..offset]) + Encode(e) + old(buffer[newOffset..])
  {
    newOffset := WriteBoth(buffer, offset, EncodeInt64(e.txId), EncodeInt64(e.commitTs));
  }
}
