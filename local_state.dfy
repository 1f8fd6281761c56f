/**
 * The transaction's private read and write sets (include/transaction/local-state.h,
 * src/transaction/local-state.cpp): two pools of reusable slots with a
 * logical size that grows by one slot at a time and never shrinks its
 * storage. A pointer to a slot is its index.
 */
module LocalStates {
  import opened Wrappers
  import opened Configuration
  import opened Bytes
  import opened Keys
  import opened Records
  import opened ReadSetEntries
  import opened WriteSetEntries

  /** SetKey: the table name and the key of one set entry. */
  datatype SetKey = SetKey(tableName: Text, key: Key)

  /** operator==: keys equal and table names equal. */
  function SetKeyEquals(lhs: SetKey, rhs: SetKey): bool {
    Keys.Equals(lhs.key, rhs.key) && lhs.tableName == rhs.tableName
  }

  /** SetKey equality holds exactly when both the key and the table name are equal. */
  lemma SetKeyEqualsIff(lhs: SetKey, rhs: SetKey)
    ensures SetKeyEquals(lhs, rhs) <==> lhs.key == rhs.key && lhs.tableName == rhs.tableName
  {
    EqualsIsValueEquality(lhs.key, rhs.key);
  }

  predicate SetKeySerializable(sk: SetKey) {
    |sk.tableName| <= INT32_MAX && Keys.Serializable(sk.key)
  }

  /** Serialize_Length: name size + INT_LENGTH + the key's length. */
  function SetKeySerializeLength(sk: SetKey): (n: nat)
    ensures SetKeySerializable(sk) ==> n == |EncodeSetKey(sk)|
  {
    |sk.tableName| + INT_LENGTH + Keys.SerializeLength(sk.key)
  }

  /** The bytes SerializeToBuffer writes: 4-byte name size, the name, the key. */
  function EncodeSetKey(sk: SetKey): seq<byte>
    requires SetKeySerializable(sk)
  {
    EncodeText(sk.tableName) + Keys.Encode(sk.key)
  }

  /** Reads back a SetKey whose key has self's kind: the name, then the key. */
  function DecodeSetKey(self: Key, s: seq<byte>): Option<(SetKey, nat)> {
    match DecodeText(s)
    case None => None
    case Some((name, used)) =>
      match Keys.Decode(self, s[used..])
      case None => None
      case Some((key, more)) => Some((SetKey(name, key), used + more))
  }

  /** The encoding determines the SetKey: decoding it gives the SetKey and its length back. */
  lemma SetKeyRoundTrip(sk: SetKey, self: Key, rest: seq<byte>)
    requires SetKeySerializable(sk) && Keys.SameKind(self, sk.key)
    ensures DecodeSetKey(self, EncodeSetKey(sk) + rest) == Some((sk, SetKeySerializeLength(sk)))
  {
    var s := EncodeSetKey(sk) + rest;
    assert s == EncodeText(sk.tableName) + (Keys.Encode(sk.key) + rest);
    TextRoundTrip(sk.tableName, Keys.Encode(sk.key) + rest);
    assert s[INT_LENGTH + |sk.tableName|..] == Keys.Encode(sk.key) + rest;
    Keys.RoundTrip(sk.key, self, rest);
  }

  /** SerializeToBuffer(buffer, offset): offset advances by exactly Serialize_Length. */
  method SetKeySerializeToBuffer(sk: SetKey, buffer: array<byte>, offset: nat) returns (newOffset: nat)
    requires SetKeySerializable(sk)
    requires offset + SetKeySerializeLength(sk) <= buffer.Length
    modifies buffer
    ensures newOffset == offset + SetKeySerializeLength(sk)
    ensures buffer[..] == old(buffer[..offset]) + EncodeSetKey(sk) + old(buffer[newOffset..])
  {
    ghost var b0 := buffer[..];
    var mid := WriteBoth(buffer, offset, EncodeInt32(|sk.tableName|), sk.tableName);
    ghost var b1 := buffer[..];
    newOffset := Keys.SerializeToBuffer(sk.key, buffer, mid);
    SpliceTwice(b0, b1, buffer[..], offset, EncodeText(sk.tableName), Keys.Encode(sk.key));
    assert b0[..offset] == old(buffer[..offset]);
  }

  /**
   * KeyReadSetEntry / KeyWriteSetEntry: a slot's key and entry. A slot
   * created by the pool has a null key (the source's default SetKey).
   */
  datatype Slot<E> = Slot(key: Option<SetKey>, entry: E)

  /** The comparison inside Find*: table name and key equal to the slot's. */
  predicate Matches<E>(s: Slot<E>, table: Text, key: Key) {
    s.key.Some? && table == s.key.value.tableName && Keys.Equals(key, s.key.value.key)
  }

  /** The index of the newest (highest) slot of s that matches, if any. */
  function FindNewest<E>(s: seq<Slot<E>>, table: Text, key: Key): (r: Option<nat>)
    ensures r.Some? ==> r.value < |s| && Matches(s[r.value], table, key)
    ensures r.Some? ==> forall j :: r.value < j < |s| ==> !Matches(s[j], table, key)
    ensures r.None? ==> forall j :: 0 <= j < |s| ==> !Matches(s[j], table, key)
  {
    if |s| == 0 then None
    else if Matches(s[|s| - 1], table, key) then Some(|s| - 1)
    else FindNewest(s[..|s| - 1], table, key)
  }

  /**
   * KeyReadSetEntryPool and KeyWriteSetEntryPool: `slots` is the pool
   * vector, `capacity` its capacity_ and `popIndex` its logical size.
   * `blank` is the slot Resize appends.
   */
  class Pool<E> {
    var slots: seq<Slot<E>>
    var capacity: nat
    var popIndex: nat
    const blank: Slot<E>

    ghost predicate Valid()
      reads this
    {
      capacity == |slots| && popIndex <= capacity
    }

    /** The slots in use, oldest first. */
    function Contents(): seq<Slot<E>>
      reads this
      requires Valid()
    {
      slots[..popIndex]
    }

    /** The constructor: `capacity` blank slots, logical size 0. */
    constructor(initialCapacity: nat, blankSlot: Slot<E>)
      ensures Valid()
      ensures |slots| == initialCapacity && forall j :: 0 <= j < |slots| ==> slots[j] == blankSlot
      ensures capacity == initialCapacity && popIndex == 0 && blank == blankSlot
    {
      blank := blankSlot;
      capacity := initialCapacity;
      popIndex := 0;
      var filled: seq<Slot<E>> := [];
      var i := 0;
      while i < initialCapacity
        invariant 0 <= i <= initialCapacity && |filled| == i
        invariant forall j :: 0 <= j < i ==> filled[j] == blankSlot
      {
        filled := filled + [blankSlot];
        i := i + 1;
      }
      slots := filled;
    }

    /** Resize(): exactly one blank slot is appended. */
    method Resize()
      requires Valid()
      modifies this
      ensures Valid()
      ensures slots == old(slots) + [blank] && capacity == old(capacity) + 1 && popIndex == old(popIndex)
    {
      var newCapacity := 1 + capacity;
      slots := slots + [blank];
      capacity := newCapacity;
    }

    /**
     * NewReadSetEntry(): grows the pool when it is full, then hands out the
     * slot at the old logical size, as it was, and counts it in.
     */
    method New() returns (index: nat)
      requires Valid()
      modifies this
      ensures Valid()
      ensures index == old(popIndex) && popIndex == old(popIndex) + 1
      ensures old(popIndex) < old(capacity) ==> slots == old(slots) && capacity == old(capacity)
      ensures old(popIndex) == old(capacity) ==> slots == old(slots) + [blank] && capacity == old(capacity) + 1
    {
      if popIndex == capacity {
        Resize();
      }
      index := popIndex;
      popIndex := popIndex + 1;
    }

    /**
     * NewWriteSetEntry(...): like New, but the handed-out slot's key and
     * entry are overwritten; every other slot is unchanged.
     */
    method NewWith(key: SetKey, entry: E) returns (index: nat)
      requires Valid()
      modifies this
      ensures Valid()
      ensures index == old(popIndex) && popIndex == old(popIndex) + 1
      ensures capacity == if old(popIndex) == old(capacity) then old(capacity) + 1 else old(capacity)
      ensures slots == (if old(popIndex) == old(capacity) then old(slots) + [blank] else old(slots))[index := Slot(Some(key), entry)]
      ensures Contents() == old(Contents()) + [Slot(Some(key), entry)]
    {
      if popIndex == capacity {
        Resize();
      }
      index := popIndex;
      slots := slots[index := Slot(Some(key), entry)];
      popIndex := popIndex + 1;
    }

    /**
     * FindInReadSet / FindInWriteSet: scans down from the newest slot in
     * use and returns the first that matches; slots at or above the
     * logical size are never looked at.
     */
    method Find(table: Text, key: Key) returns (r: Option<nat>)
      requires Valid()
      ensures r == FindNewest(Contents(), table, key)
      ensures r.Some? ==> r.value < popIndex && Matches(slots[r.value], table, key)
      ensures r.None? ==> forall j :: 0 <= j < popIndex ==> !Matches(slots[j], table, key)
    {
      var i: int := popIndex - 1;
      while i >= 0
        invariant -1 <= i < popIndex
        invariant FindNewest(Contents(), table, key) == FindNewest(slots[..i + 1], table, key)
      {
        var s := slots[i];
        assert slots[..i + 1][i] == s;
        if s.key.Some? && table == s.key.value.tableName && Keys.Equals(key, s.key.value.key) {
          return Some(i);
        }
        assert slots[..i + 1][..i] == slots[..i];
        i := i - 1;
      }
      return None;
    }

    /** Release(): the logical size drops by one; slot contents and capacity stay. */
    method Release()
      requires Valid() && popIndex > 0
      modifies this
      ensures Valid()
      ensures popIndex == old(popIndex) - 1 && slots == old(slots) && capacity == old(capacity)
    {
      popIndex := popIndex - 1;
    }

    /** Reset(): the logical size becomes 0; slot contents and capacity stay. */
    method Reset()
      requires Valid()
      modifies this
      ensures Valid()
      ensures popIndex == 0 && slots == old(slots) && capacity == old(capacity)
    {
      popIndex := 0;
    }

    /** GetSize(): the logical size, not the capacity. */
    function GetSize(): nat
      reads this
    {
      popIndex
    }

    /** A write through a pointer to slot i: only that slot changes. */
    method Update(i: nat, s: Slot<E>)
      requires Valid() && i < capacity
      modifies this
      ensures Valid()
      ensures slots == old(slots)[i := s] && capacity == old(capacity) && popIndex == old(popIndex)
      ensures Contents() == if i < popIndex then old(Contents())[i := s] else old(Contents())
    {
      slots := slots[i := s];
    }
  }

  /** In-use slots below the new one are unchanged by New and NewWith, so program order is kept. */
  lemma NewKeepsOlderSlots<E>(before: seq<Slot<E>>, after: seq<Slot<E>>, size: nat)
    requires size <= |before| <= |after|
    requires forall j :: 0 <= j < |before| && j != size ==> after[j] == before[j]
    ensures after[..size] == before[..size]
  {
  }

  /** LocalState: the read pool and the write pool of one transaction. */
  class LocalState {
    const readSet: Pool<ReadSetEntry>
    const writeSet: Pool<WriteSetEntry>
    ghost const Repr: set<object>

    ghost predicate Valid()
      reads this, Repr
    {
      Repr == {this, readSet, writeSet} && readSet as object != writeSet as object
      && readSet.Valid() && writeSet.Valid()
    }

    /** LocalState(capacity): both pools get the same capacity and size 0. */
    constructor(capacity: nat)
      ensures Valid() && fresh(Repr)
      ensures readSet.capacity == capacity && writeSet.capacity == capacity
      ensures readSet.popIndex == 0 && writeSet.popIndex == 0
      ensures readSet.blank == Slot(None, ReadSetEntries.Default())
      ensures writeSet.blank == Slot(None, WriteSetEntries.Default())
    {
      readSet := new Pool(capacity, Slot(None, ReadSetEntries.Default()));
      writeSet := new Pool(capacity, Slot(None, WriteSetEntries.Default()));
      Repr := {this, readSet, writeSet};
    }

    /** InsertReadSet(): a new read slot; the write pool is untouched. */
    method InsertReadSet() returns (index: nat)
      requires Valid()
      modifies readSet
      ensures Valid()
      ensures index == old(readSet.popIndex) && readSet.popIndex == index + 1
      ensures readSet.capacity >= old(readSet.capacity)
      ensures forall j :: 0 <= j < old(readSet.capacity) ==> readSet.slots[j] == old(readSet.slots[j])
    {
      index := readSet.New();
    }

    /** InsertWriteSet(...): a new write slot with the given key and entry; the read pool is untouched. */
    method InsertWriteSet(table: Text, key: Key, version: int, isDeleted: bool, record: Option<Record>,
                          readEntry: Option<nat>, needPostProcessing: bool := false)
      requires Valid()
      modifies writeSet
      ensures Valid()
      ensures writeSet.popIndex == old(writeSet.popIndex) + 1
      ensures writeSet.capacity >= old(writeSet.capacity)
      ensures writeSet.slots[old(writeSet.popIndex)]
        == Slot(Some(SetKey(table, key)), WriteSetEntries.Reset(version, isDeleted, record, readEntry, needPostProcessing))
      ensures forall j :: 0 <= j < old(writeSet.capacity) && j != old(writeSet.popIndex) ==> writeSet.slots[j] == old(writeSet.slots[j])
      ensures writeSet.Contents()
        == old(writeSet.Contents()) + [Slot(Some(SetKey(table, key)), WriteSetEntries.Reset(version, isDeleted, record, readEntry, needPostProcessing))]
    {
      var _ := writeSet.NewWith(SetKey(table, key), WriteSetEntries.Reset(version, isDeleted, record, readEntry, needPostProcessing));
    }

    method FindInWriteSet(table: Text, key: Key) returns (r: Option<nat>)
      requires Valid()
      ensures r == FindNewest(writeSet.Contents(), table, key)
    {
      r := writeSet.Find(table, key);
    }

    method FindInReadSet(table: Text, key: Key) returns (r: Option<nat>)
      requires Valid()
      ensures r == FindNewest(readSet.Contents(), table, key)
    {
      r := readSet.Find(table, key);
    }

    function GetReadSetSize(): nat
      reads this, readSet
    {
      readSet.GetSize()
    }

    function GetWriteSetSize(): nat
      reads this, writeSet
    {
      writeSet.GetSize()
    }

    /** Reset(): both logical sizes become 0, nothing else changes. */
    method Reset()
      requires Valid()
      modifies readSet, writeSet
      ensures Valid()
      ensures readSet.popIndex == 0 && writeSet.popIndex == 0
      ensures readSet.slots == old(readSet.slots) && writeSet.slots == old(writeSet.slots)
      ensures readSet.capacity == old(readSet.capacity) && writeSet.capacity == old(writeSet.capacity)
    {
      readSet.Reset();
      writeSet.Reset();
    }

    method ReleaseReadSet()
      requires Valid() && readSet.popIndex > 0
      modifies readSet
      ensures Valid()
      ensures readSet.popIndex == old(readSet.popIndex) - 1
      ensures readSet.slots == old(readSet.slots) && readSet.capacity == old(readSet.capacity)
    {
      readSet.Release();
    }

    method ReleaseWriteSet()
      requires Valid() && writeSet.popIndex > 0
      modifies writeSet
      ensures Valid()
      ensures writeSet.popIndex == old(writeSet.popIndex) - 1
      ensures writeSet.slots == old(writeSet.slots) && writeSet.capacity == old(writeSet.capacity)
    {
      writeSet.Release();
    }
  }
}
