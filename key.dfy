/**
 * Table keys (include/versiondb/key.h): a string key or a 64-bit integer
 * key, with equality, copying and the buffer encoding used by the redo log.
 */
module Keys {
  import opened Wrappers
  import opened Configuration
  import opened Bytes

  datatype Key = StringKey(k: Text) | IntKey(n: int)

  /** Both keys have the same dynamic type, so the static_cast in CopyFrom and == is sound. */
  predicate SameKind(a: Key, b: Key) {
    a.StringKey? == b.StringKey?
  }

  /** The payload fits its C++ field: a string whose size fits an int, an int64_t. */
  predicate Serializable(key: Key) {
    match key
    case StringKey(k) => |k| <= INT32_MAX
    case IntKey(n) => IsInt64(n)
  }

  /**
   * `lhs == rhs`: the payloads of two keys of one kind are compared. The
   * source's unchecked static_cast leaves keys of different kinds undefined;
   * the model chooses to call them unequal.
   */
  function Equals(lhs: Key, rhs: Key): bool {
    match (lhs, rhs)
    case (StringKey(a), StringKey(b)) => b == a
    case (IntKey(a), IntKey(b)) => b == a
    case _ => false
  }

  /** Key equality is exactly equality of the modelled values. */
  lemma EqualsIsValueEquality(lhs: Key, rhs: Key)
    ensures Equals(lhs, rhs) <==> lhs == rhs
  {
  }

  /** Copy() makes a new key holding the same payload. */
  function Copy(key: Key): (c: Key)
    ensures Equals(c, key) && SameKind(c, key)
  {
    match key
    case StringKey(k) => StringKey(k)
    case IntKey(n) => IntKey(n)
  }

  /**
   * CopyFrom(that): the receiver takes that's payload and reports success.
   * The receiver and that must be of the same kind (the source casts
   * without checking).
   */
  function CopyFrom(self: Key, that: Key): (r: (bool, Key))
    requires SameKind(self, that)
    ensures r.0
    ensures Equals(r.1, that) && SameKind(r.1, self)
  {
    match that
    case StringKey(k) => (true, StringKey(k))
    case IntKey(n) => (true, IntKey(n))
  }

  /** Serialize_Length: 4 + size for a string key, 8 for an integer key. */
  function SerializeLength(key: Key): (n: nat)
    ensures Serializable(key) ==> n == |Encode(key)|
  {
    match key
    case StringKey(k) => |k| + INT_LENGTH
    case IntKey(_) => INT64_T_LENGTH
  }

  /** The bytes SerializeToBuffer writes. */
  function Encode(key: Key): seq<byte>
    requires Serializable(key)
  {
    match key
    case StringKey(k) => EncodeText(k)
    case IntKey(n) => EncodeInt64(n)
  }

  /**
   * What DeserializeFromBuffer reads into a receiver of self's kind from the
   * start of s, with the number of bytes consumed; absent when s does not
   * hold a whole key of that kind.
   */
  function Decode(self: Key, s: seq<byte>): (r: Option<(Key, nat)>)
    ensures r.Some? ==> SameKind(r.value.0, self) && r.value.1 <= |s|
  {
    match self
    case StringKey(_) =>
      (match DecodeText(s)
       case None => None
       case Some((t, used)) => Some((StringKey(t), used)))
    case IntKey(_) =>
      if |s| < INT64_T_LENGTH then None
      else Some((IntKey(DecodeInt64(s[..INT64_T_LENGTH])), INT64_T_LENGTH))
  }

  /** Deserializing what was serialized gives the key back and consumes exactly its length. */
  lemma RoundTrip(key: Key, self: Key, rest: seq<byte>)
    requires Serializable(key) && SameKind(self, key)
    ensures Decode(self, Encode(key) + rest) == Some((key, SerializeLength(key)))
  {
    match key
    case StringKey(k) =>
      TextRoundTrip(k, rest);
    case IntKey(n) =>
      assert (Encode(key) + rest)[..INT64_T_LENGTH] == EncodeInt64(n);
      Int64RoundTrip(n);
  }

  /**
   * SerializeToBuffer(buffer, offset): writes the key at offset and advances
   * offset by Serialize_Length, leaving the rest of the buffer alone.
   */
  method SerializeToBuffer(key: Key, buffer: array<byte>, offset: nat) returns (newOffset: nat)
    requires Serializable(key)
    requires offset + SerializeLength(key) <= buffer.Length
    modifies buffer
    ensures newOffset == offset + SerializeLength(key)
    ensures buffer[..] == old(buffer[..offset]) + Encode(key) + old(buffer[newOffset..])
  {
    match key
    case StringKey(k) =>
      newOffset := WriteBoth(buffer, offset, EncodeInt32(|k|), k);
    case IntKey(n) =>
      newOffset := Write(buffer, offset, EncodeInt64(n));
  }

  /**
   * DeserializeFromBuffer(buffer, offset): the receiver's payload is read
   * from offset and offset is advanced past it.
   */
  method DeserializeFromBuffer(self: Key, buffer: array<byte>, offset: nat)
    returns (updated: Key, newOffset: nat)
    requires offset <= buffer.Length
    requires Decode(self, buffer[offset..]).Some?
    ensures Decode(self, buffer[offset..]) == Some((updated, newOffset - offset))
    ensures offset <= newOffset <= buffer.Length
  {
    match self
    case StringKey(_) =>
      var size := DecodeInt32(buffer[offset..offset + INT_LENGTH]);
      assert buffer[offset..][..INT_LENGTH] == buffer[offset..offset + INT_LENGTH];
      var start := offset + INT_LENGTH;
      updated := StringKey(buffer[start..start + size]);
      assert buffer[offset..][INT_LENGTH..INT_LENGTH + size] == buffer[start..start + size];
      newOffset := start + size;
    case IntKey(_) =>
      assert buffer[offset..][..INT64_T_LENGTH] == buffer[offset..offset + INT64_T_LENGTH];
      updated := IntKey(DecodeInt64(buffer[offset..offset + INT64_T_LENGTH]));
      newOffset := offset + INT64_T_LENGTH;
  }
}
