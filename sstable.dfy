/** The in-memory assembly of a sorted table (sstable.go): a size counter,
    the key-to-offset index and the list of blocks. */
module SSTables {
  import opened Common
  import opened KeyValues
  import opened Blocks
  import MemTables

  class SSTableHeader {
    var Size: u32

    /** NewSSTableHeader */
    constructor ()
      ensures Size == 0
    {
      Size := 0;
    }

    method SetSize(sz: u32)
      modifies this
      ensures Size == sz
    {
      Size := sz;
    }

    /** IncSize: uint32 addition, so the size wraps modulo 2^32. */
    method IncSize(sz: u32)
      modifies this
      ensures Size == Wrap32(old(Size) + sz)
      ensures old(Size) + sz < U32_MODULUS ==> Size == old(Size) + sz
    {
      Size := Wrap32(Size + sz);
    }
  }

  /** What `Block.Put` did with one record. Its definition is not part of
      this model: it either failed with some error, or succeeded and left the
      block header at some offset. */
  datatype PutOutcome = Placed(offset: u32) | Rejected(error: Error)

  /** The position of the first failed put, or `|outcomes|` if none failed. */
  function FirstRejected(outcomes: seq<PutOutcome>): (k: nat)
    ensures k <= |outcomes|
    ensures forall i :: 0 <= i < k ==> outcomes[i].Placed?
    ensures k < |outcomes| ==> outcomes[k].Rejected?
  {
    if outcomes == [] || outcomes[0].Rejected? then 0 else 1 + FirstRejected(outcomes[1..])
  }

  /** The index after recording, in order, each entry's key with the header
      offset its put left. */
  function Indexed(index: map<Bytes, u32>, entries: seq<KeyValue>, outcomes: seq<PutOutcome>): (r: map<Bytes, u32>)
    requires |outcomes| == |entries|
    requires forall i :: 0 <= i < |outcomes| ==> outcomes[i].Placed?
    ensures index.Keys <= r.Keys
  {
    if entries == [] then index
    else
      var n := |entries| - 1;
      Indexed(index, entries[..n], outcomes[..n])[entries[n].Key := outcomes[n].offset]
  }

  /** After indexing, a key carried by some entry maps to the offset left by
      the put of the LAST entry with that key (a later duplicate wins); every
      other key keeps what it had, or stays absent. */
  lemma {:induction false} IndexedLastWins(
    index: map<Bytes, u32>, entries: seq<KeyValue>, outcomes: seq<PutOutcome>, key: Bytes)
    requires |outcomes| == |entries|
    requires forall i :: 0 <= i < |outcomes| ==> outcomes[i].Placed?
    ensures var result := Indexed(index, entries, outcomes);
      match MemTables.Newest(entries, key, 0)
      case Some(i) => key in result && result[key] == outcomes[i].offset
      case None => (key in result <==> key in index) && (key in index ==> result[key] == index[key])
  {
    if entries != [] {
      var n := |entries| - 1;
      IndexedLastWins(index, entries[..n], outcomes[..n], key);
    }
  }

  /** Indexing adds exactly the entries' keys to the keys already there. */
  lemma {:induction false} IndexedKeys(index: map<Bytes, u32>, entries: seq<KeyValue>, outcomes: seq<PutOutcome>)
    requires |outcomes| == |entries|
    requires forall i :: 0 <= i < |outcomes| ==> outcomes[i].Placed?
    ensures Indexed(index, entries, outcomes).Keys == index.Keys + set i | 0 <= i < |entries| :: entries[i].Key
  {
    if entries != [] {
      var n := |entries| - 1;
      IndexedKeys(index, entries[..n], outcomes[..n]);
      assert (set i | 0 <= i < |entries| :: entries[i].Key)
        == (set i | 0 <= i < n :: entries[..n][i].Key) + {entries[n].Key};
    }
  }

  /** Every entry's key is in the index after indexing. */
  lemma IndexedCovers(index: map<Bytes, u32>, entries: seq<KeyValue>, outcomes: seq<PutOutcome>)
    requires |outcomes| == |entries|
    requires forall i :: 0 <= i < |outcomes| ==> outcomes[i].Placed?
    ensures forall i :: 0 <= i < |entries| ==> entries[i].Key in Indexed(index, entries, outcomes)
  {
    forall i | 0 <= i < |entries| ensures entries[i].Key in Indexed(index, entries, outcomes) {
      IndexedLastWins(index, entries, outcomes, entries[i].Key);
    }
  }

  class SSTable {
    var header: SSTableHeader
    var Index: map<Bytes, u32>
    var Data: seq<Block>
    var FileName: string

    /** NewSSTable */
    constructor ()
      ensures fresh(header) && header.Size == 0
      ensures Index == map[] && Data == [] && FileName == ""
    {
      header := new SSTableHeader();
      Index := map[];
      Data := [];
      FileName := "";
    }

    /** AddIndex: records `offset` for `key`, replacing any earlier offset. */
    method AddIndex(key: Bytes, offset: u32)
      modifies this
      ensures Index == old(Index)[key := offset]
      ensures header == old(header) && Data == old(Data) && FileName == old(FileName)
    {
      Index := Index[key := offset];
    }

    /** CreateBlock: puts the entries, in order, into a fresh block, indexing
        each key with the header offset its put left; then appends the block
        and counts BLOCK_SIZE more bytes. The put of entry i is `outcomes[i]`.
        A failed put returns its error at once: the block is dropped, `Data`
        and the size stay as they were, but the keys indexed before it stay. */
    method CreateBlock(entries: seq<KeyValue>, outcomes: seq<PutOutcome>) returns (err: Option<Error>)
      requires |outcomes| == |entries|
      modifies this, header
      ensures header == old(header) && FileName == old(FileName)
      ensures var k := FirstRejected(outcomes);
        k < |entries| ==>
          && err == Some(outcomes[k].error)
          && Data == old(Data) && header.Size == old(header.Size)
          && Index == Indexed(old(Index), entries[..k], outcomes[..k])
      ensures FirstRejected(outcomes) == |entries| ==>
        && err == None
        && |Data| == |old(Data)| + 1 && Data[..|old(Data)|] == old(Data)
        && fresh(Data[|old(Data)|]) && Data[|old(Data)|].Valid()
        && header.Size == Wrap32(old(header.Size) + BLOCK_SIZE)
        && Index == Indexed(old(Index), entries, outcomes)
        && (forall i :: 0 <= i < |entries| ==> entries[i].Key in Index)
        && Data[|old(Data)|].header.offset ==
             if entries == [] then BLOCK_HEADER_SIZE else outcomes[|entries| - 1].offset
    {
      var b := new Block();
      var i := 0;
      while i < |entries|
        invariant 0 <= i <= |entries|
        invariant forall j :: 0 <= j < i ==> outcomes[j].Placed?
        invariant Index == Indexed(old(Index), entries[..i], outcomes[..i])
        invariant header == old(header) && FileName == old(FileName)
        invariant Data == old(Data) && header.Size == old(header.Size)
        invariant fresh(b) && fresh(b.header) && b.Valid()
        invariant b.header.offset == if i == 0 then BLOCK_HEADER_SIZE else outcomes[i - 1].offset
      {
        // b.Put(entries[i]): its effect is the given outcome.
        if outcomes[i].Rejected? {
          return Some(outcomes[i].error);
        }
        b.header.SetOffset(outcomes[i].offset);
        var offset := b.header.GetOffset();
        AddIndex(entries[i].Key, offset);
        assert entries[..i + 1][..i] == entries[..i];
        assert outcomes[..i + 1][..i] == outcomes[..i];
        i := i + 1;
      }
      assert entries[..i] == entries && outcomes[..i] == outcomes;
      IndexedCovers(old(Index), entries, outcomes);
      Data := Data + [b];
      header.IncSize(BLOCK_SIZE);
      return None;
    }
  }
}
