/** The key/value record (kv.go). The write buffer keeps records by value
    (a slice of `KeyValue`), so a record is modelled as a datatype and the
    in-place size update as a function returning the updated record. */
module KeyValues {
  import opened Common

  /** `Deleted` marks a tombstone; `Size` caches the record's byte size. */
  datatype KeyValue = KeyValue(Key: Bytes, Value: Bytes, Deleted: bool, Size: u32)
  {
    /** GetKeySize: the key's length, converted to uint32. */
    function GetKeySize(): (n: u32)
      ensures |Key| < U32_MODULUS ==> n == |Key|
    {
      Wrap32(|Key|)
    }

    /** GetValueSize: the value's length, converted to uint32. */
    function GetValueSize(): (n: u32)
      ensures |Value| < U32_MODULUS ==> n == |Value|
    {
      Wrap32(|Value|)
    }

    /** UpdateSize: recomputes `Size` as the uint32 sum of the two lengths and
        changes nothing else. */
    function UpdateSize(): (kv: KeyValue)
      ensures kv.Key == Key && kv.Value == Value && kv.Deleted == Deleted
      ensures kv.Size == Wrap32(|Key| + |Value|)
      ensures |Key| + |Value| < U32_MODULUS ==> kv.Size == |Key| + |Value|
    {
      WrapAdd(|Key|, |Value|);
      WrapAdd(|Value|, Wrap32(|Key|));
      this.(Size := Wrap32(GetKeySize() + GetValueSize()))
    }

    /** GetSize: the cached size. */
    function GetSize(): u32
    {
      Size
    }
  }

  /** NewKeyValue: stores the three fields as given and computes the size. */
  function NewKeyValue(key: Bytes, val: Bytes, del: bool): (kv: KeyValue)
    ensures kv.Key == key && kv.Value == val && kv.Deleted == del
    ensures kv.Size == Wrap32(|key| + |val|)
    ensures |key| + |val| < U32_MODULUS ==> kv.Size == |key| + |val|
  {
    KeyValue(key, val, del, 0).UpdateSize()
  }

  /** Recomputing the size a second time changes nothing. */
  lemma UpdateSizeIdempotent(kv: KeyValue)
    ensures kv.UpdateSize().UpdateSize() == kv.UpdateSize()
  {
  }

  /** A tombstone built with an empty value is as large as its key. */
  lemma TombstoneSize(key: Bytes)
    requires |key| < U32_MODULUS
    ensures NewKeyValue(key, [], true).Size == |key|
  {
  }
}
