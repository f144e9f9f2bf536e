/** The write buffer (memtable.go): an append-only list of records with a
    byte budget; reaching the budget flushes, which here only clears it. */
module MemTables {
  import opened Common
  import opened KeyValues

  const MEM_TABLE_LIMIT: u32 := 4096 * 1024

  /** The exact sum of the records' cached sizes. */
  function TotalSize(entries: seq<KeyValue>): nat
  {
    if entries == [] then 0 else TotalSize(entries[..|entries| - 1]) + entries[|entries| - 1].Size
  }

  /** What a lookup reports for the entry at `pos`. */
  function ValueAt(entries: seq<KeyValue>, pos: Option<nat>): Result<Bytes>
    requires pos.Some? ==> pos.value < |entries|
  {
    match pos
    case Some(j) => Ok(entries[j].Value)
    case None => Err(KeyNotFound)
  }

  /** The position of the newest entry at or after position `lo` whose key
      is `key`, if there is one. */
  function Newest(entries: seq<KeyValue>, key: Bytes, lo: nat): (r: Option<nat>)
    ensures r.Some? ==> lo <= r.value < |entries| && entries[r.value].Key == key
    ensures r.Some? ==> forall k :: r.value < k < |entries| ==> entries[k].Key != key
    ensures r.None? ==> forall k :: lo <= k < |entries| ==> entries[k].Key != key
    decreases |entries|
  {
    if |entries| <= lo then None
    else if entries[|entries| - 1].Key == key then Some(|entries| - 1)
    else Newest(entries[..|entries| - 1], key, lo)
  }

  class MemTable {
    var Entries: seq<KeyValue>
    var Size: u32
    var Limit: u32

    /** `Size` is the uint32 sum of the entries' sizes (the exact sum while
        that stays below 2^32), and stays below `Limit` between operations. */
    ghost predicate Valid()
      reads this
    {
      Size < Limit && Size == Wrap32(TotalSize(Entries))
    }

    /** NewMembTale */
    constructor ()
      ensures Valid()
      ensures Entries == [] && Size == 0 && Limit == MEM_TABLE_LIMIT
    {
      Entries := [];
      Size := 0;
      Limit := MEM_TABLE_LIMIT;
    }

    /** Get as written: scans from the newest entry down to position 1; the
        oldest entry, at position 0, is never examined. A tombstone's
        (empty) value is returned like any other. */
    method Get(key: Bytes) returns (r: Result<Bytes>)
      ensures r == ValueAt(Entries, Newest(Entries, key, 1))
    {
      var i := |Entries| - 1;
      while i > 0
        invariant -1 <= i < |Entries|
        invariant forall k :: i < k < |Entries| ==> Entries[k].Key != key
      {
        if Entries[i].Key == key {
          return Ok(Entries[i].Value);
        }
        i := i - 1;
      }
      return Err(KeyNotFound);
    }

    /** Get with the loop running down to position 0, as evidently intended. */
    method GetCorrected(key: Bytes) returns (r: Result<Bytes>)
      ensures r == ValueAt(Entries, Newest(Entries, key, 0))
    {
      var i := |Entries| - 1;
      while i >= 0
        invariant -1 <= i < |Entries|
        invariant forall k :: i < k < |Entries| ==> Entries[k].Key != key
      {
        if Entries[i].Key == key {
          return Ok(Entries[i].Value);
        }
        i := i - 1;
      }
      return Err(KeyNotFound);
    }

    /** Put: appends the new record and adds its size; when that brings the
        size to the limit, flushes. */
    method Put(key: Bytes, val: Bytes, del: bool) returns (err: Option<Error>)
      requires Valid()
      modifies this
      ensures Valid() && Limit == old(Limit) && err == None
      ensures var kv := NewKeyValue(key, val, del);
        var size := Wrap32(old(Size) + kv.Size);
        if size >= Limit then Entries == [] && Size == 0
        else Entries == old(Entries) + [kv] && Size == size
      ensures var kv := NewKeyValue(key, val, del);
        old(Size) + kv.Size < Limit ==> Entries == old(Entries) + [kv] && Size == old(Size) + kv.Size
    {
      var kv := NewKeyValue(key, val, del);
      Entries := Entries + [kv];
      assert Entries[..|Entries| - 1] == old(Entries);
      WrapAdd(TotalSize(old(Entries)), kv.Size);
      err := IncSize(kv.Size);
      if err.Some? {
        return;
      }
      if IsFull() {
        err := Flush();
        if err.Some? {
          return;
        }
      }
      return None;
    }

    /** Delete: puts a tombstone, a record with an empty value. */
    method Delete(key: Bytes) returns (err: Option<Error>)
      requires Valid()
      modifies this
      ensures Valid() && Limit == old(Limit) && err == None
      ensures var kv := NewKeyValue(key, [], true);
        var size := Wrap32(old(Size) + kv.Size);
        if size >= Limit then Entries == [] && Size == 0
        else Entries == old(Entries) + [kv] && Size == size
    {
      err := Put(key, [], true);
    }

    /** flush: writing to disk is not part of this model; only the reset is. */
    method Flush() returns (err: Option<Error>)
      modifies this
      ensures Entries == [] && Size == 0 && Limit == old(Limit) && err == None
    {
      err := Clear();
      if err.Some? {
        return;
      }
      return None;
    }

    /** clear */
    method Clear() returns (err: Option<Error>)
      modifies this
      ensures Entries == [] && Size == 0 && Limit == old(Limit) && err == None
    {
      Entries := [];
      Size := 0;
      return None;
    }

    function GetSize(): u32
      reads this
    {
      Size
    }

    /** IncSize: uint32 addition, so the size wraps modulo 2^32. */
    method IncSize(sz: u32) returns (err: Option<Error>)
      modifies this
      ensures Size == Wrap32(old(Size) + sz)
      ensures Entries == old(Entries) && Limit == old(Limit) && err == None
    {
      Size := Wrap32(Size + sz);
      return None;
    }

    /** IsFull: the size has reached the limit. Between operations this never
        holds, because Put flushes as soon as it does. */
    function IsFull(): (full: bool)
      reads this
      ensures Valid() ==> !full
    {
      Size >= Limit
    }
  }

  /** A key written only once, into an empty table, sits at position 0:
      Get as written does not find it, GetCorrected does. */
  method OldestEntryIsSkipped() returns (asWritten: Result<Bytes>, corrected: Result<Bytes>)
    ensures asWritten == Err(KeyNotFound)
    ensures corrected == Ok([0x31])
  {
    var mt := new MemTable();
    var _ := mt.Put([0x6B], [0x31], false);
    asWritten := mt.Get([0x6B]);
    corrected := mt.GetCorrected([0x6B]);
  }

  /** The newest write wins; after Delete the key reads as an empty value
      with no error, unlike a key never written. */
  method OverwriteThenDelete()
    returns (overwritten: Result<Bytes>, deleted: Result<Bytes>, neverWritten: Result<Bytes>)
    ensures overwritten == Ok([0x32])
    ensures deleted == Ok([])
    ensures neverWritten == Err(KeyNotFound)
  {
    var mt := new MemTable();
    var err := mt.Put([0x6B], [0x31], false);
    err := mt.Put([0x6B], [0x32], false);
    overwritten := mt.Get([0x6B]);
    err := mt.Delete([0x6B]);
    deleted := mt.Get([0x6B]);
    neverWritten := mt.Get([0x6A]);
  }
}
