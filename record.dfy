/**
 * Row payloads (include/versiondb/record.h): a string record or a 64-bit
 * integer record, with copying and the buffer encoding used by the redo log.
 */
module Records {
  import opened Wrappers
  import opened Configuration
  import opened Bytes

  datatype Record = StringRecord(data: Text) | IntRecord(value: int)

  /** Both records have the same dynamic type, so the static_cast in CopyFrom is sound. */
  predicate SameKind(a: Record, b: Record) {
    a.StringRecord? == b.StringRecord?
  }

  /** The payload fits its C++ field: a string whose size fits an int, an int64_t. */
  predicate Serializable(r: Record) {
    match r
    case StringRecord(d) => |d| <= INT32_MAX
    case IntRecord(v) => IsInt64(v)
  }

  /** Copy() makes a new record of the same kind holding the same payload. */
  function Copy(r: Record): (c: Record)
    ensures c == r
  {
    match r
    case StringRecord(d) => StringRecord(d)
    case IntRecord(v) => IntRecord(v)
  }

  /**
   * CopyFrom(that): the receiver takes that's payload and reports success.
   * The receiver and that must be of the same kind (the source casts
   * without checking).
   */
  function CopyFrom(self: Record, that: Record): (r: (bool, Record))
    requires SameKind(self, that)
    ensures r.0 && r.1 == that && SameKind(r.1, self)
  {
    match that
    case StringRecord(d) => (true, StringRecord(d))
    case IntRecord(v) => (true, IntRecord(v))
  }

  /** Serialize_Length: 4 + size for a string record, 8 for an integer record. */
  function SerializeLength(r: Record): (n: nat)
    ensures Serializable(r) ==> n == |Encode(r)|
  {
    match r
    case StringRecord(d) => |d| + INT_LENGTH
    case IntRecord(_) => INT64_T_LENGTH
  }

  /** The bytes SerializeToBuffer writes. */
  function Encode(r: Record): seq<byte>
    requires Serializable(r)
  {
    match r
    case StringRecord(d) => EncodeText(d)
    case IntRecord(v) => EncodeInt64(v)
  }

  /**
   * What DeserializeFromBuffer reads into a receiver of self's kind from the
   * start of s, with the number of bytes consumed; absent when s does not
   * hold a whole record of that kind.
   */
  function Decode(self: Record, s: seq<byte>): (r: Option<(Record, nat)>)
    ensures r.Some? ==> SameKind(r.value.0, self) && r.value.1 <= |s|
  {
    match self
    case StringRecord(_) =>
      (match DecodeText(s)
       case None => None
       case Some((t, used)) => Some((StringRecord(t), used)))
    case IntRecord(_) =>
      if |s| < INT64_T_LENGTH then None
      else Some((IntRecord(DecodeInt64(s[..INT64_T_LENGTH])), INT64_T_LENGTH))
  }

  /** Deserializing what was serialized gives the record back and consumes exactly its length. */
  lemma RoundTrip(r: Record, self: Record, rest: seq<byte>)
    requires Serializable(r) && SameKind(self, r)
    ensures Decode(self, Encode(r) + rest) == Some((r, SerializeLength(r)))
  {
    match r
    case StringRecord(d) =>
      TextRoundTrip(d, rest);
    case IntRecord(v) =>
      assert (Encode(r) + rest)[..INT64_T_LENGTH] == EncodeInt64(v);
      Int64RoundTrip(v);
  }

  /**
   * SerializeToBuffer(buffer, offset): writes the record at offset and
   * advances offset by Serialize_Length, leaving the rest of the buffer alone.
   */
  method SerializeToBuffer(r: Record, buffer: array<byte>, offset: nat) returns (newOffset: nat)
    requires Serializable(r)
    requires offset + SerializeLength(r) <= buffer.Length
    modifies buffer
    ensures newOffset == offset + SerializeLength(r)
    ensures buffer[..] == old(buffer[..offset]) + Encode(r) + old(buffer[newOffset..])
  {
    match r
    case StringRecord(d) =>
      newOffset := WriteBoth(buffer, offset, EncodeInt32(|d|), d);
    case IntRecord(v) =>
      newOffset := Write(buffer, offset, EncodeInt64(v));
  }

  /**
   * DeserializeFromBuffer(buffer, offset): the receiver's payload is read
   * from offset and offset is advanced past it.
   */
  method DeserializeFromBuffer(self: Record, buffer: array<byte>, offset: nat)
    returns (updated: Record, newOffset: nat)
    requires offset <= buffer.Length
    requires Decode(self, buffer[offset..]).Some?
    ensures Decode(self, buffer[offset..]) == Some((updated, newOffset - offset))
    ensures offset <= newOffset <= buffer.Length
  {
    match self
    case StringRecord(_) =>
      var size := DecodeInt32(buffer[offset..offset + INT_LENGTH]);
      assert buffer[offset..][..INT_LENGTH] == buffer[offset..offset + INT_LENGTH];
      var start := offset + INT_LENGTH;
      updated := StringRecord(buffer[start..start + size]);
      assert buffer[offset..][INT_LENGTH..INT_LENGTH + size] == buffer[start..start + size];
      newOffset := start + size;
    case IntRecord(_) =>
      assert buffer[offset..][..INT64_T_LENGTH] == buffer[offset..offset + INT64_T_LENGTH];
      updated := IntRecord(DecodeInt64(buffer[offset..offset + INT64_T_LENGTH]));
      newOffset := offset + INT64_T_LENGTH;
  }
}
