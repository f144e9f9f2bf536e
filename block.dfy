/** The fixed-size page of a sorted table (block.go): an 8-byte header and a
    4088-byte data area of length-prefixed records, searched by a sorted scan. */
module Blocks {
  import opened Common
  import opened Binary

  const BLOCK_SIZE: u32 := 4096
  const BLOCK_HEADER_SIZE: u32 := 8
  const BLOCK_DATA_SIZE: u32 := BLOCK_SIZE - BLOCK_HEADER_SIZE
  const KEY_SIZE: u32 := 4
  const VAL_SIZE: u32 := 4

  // ---------------------------------------------------------------------
  // Block header

  class BlockHeader {
    var count: u32
    /** The header's offset counts from the start of the whole block, so a
        fresh header points just past the 8 header bytes. It is a different
        coordinate from the offsets `Block.Get` takes, which index `Data`. */
    var offset: u32

    /** NewBlockHeader */
    constructor ()
      ensures count == 0 && offset == BLOCK_HEADER_SIZE
    {
      count := 0;
      offset := BLOCK_HEADER_SIZE;
    }

    method SetOffset(o: u32)
      modifies this
      ensures GetOffset() == o
      ensures count == old(count)
    {
      offset := o;
    }

    function GetOffset(): u32
      reads this
    {
      offset
    }
  }

  // ---------------------------------------------------------------------
  // Record layout and the scan, on the contents of the data area

  /** Byte-wise lexicographic order, as Go compares strings: `Less(a, b)`
      is `strings.Compare(a, b) == -1`. */
  predicate Less(a: Bytes, b: Bytes)
  {
    if a == [] then b != []
    else if b == [] then false
    else if a[0] != b[0] then a[0] < b[0]
    else Less(a[1..], b[1..])
  }

  /** The outcome of one turn of the scan loop at a data offset. */
  datatype Step =
    | Match(value: Bytes)    // the record's key is the key sought
    | Past                   // the record's key is greater: stop
    | Next(offset: nat)      // go on with the record that starts here
    | OutOfRange             // a slice leaves the data area: Go panics

  /** One turn of the loop of Block.Get at `off`, once the loop guard has
      passed: read the two length prefixes, slice out the key, compare. */
  function ScanStep(data: Bytes, off: nat, key: Bytes): (s: Step)
    ensures s.Next? ==> s.offset >= off + 8
  {
    if off + 8 > |data| then OutOfRange
    else
      var keySize := GetUint32(data[off..off + 4]);
      var keyStart := off + 8;
      var keyEnd := keyStart + keySize;
      var valSize := GetUint32(data[off + 4..keyStart]);
      var valEnd := keyEnd + valSize;
      if keyEnd > |data| then OutOfRange
      else if data[keyStart..keyEnd] == key then
        (if valEnd > |data| then OutOfRange else Match(data[keyEnd..valEnd]))
      else if Less(key, data[keyStart..keyEnd]) then Past
      else Next(valEnd)
  }

  /** The scan of Block.Get from data offset `off` onwards, after the
      initial offset check: a value it returns is one a record holding `key`
      lies inside the data area past the record prefixes at `off`, and it fails
      only with "value not found" or a slice out of range. */
  function Scan(data: Bytes, off: nat, key: Bytes): (r: Result<Bytes>)
    ensures r.Ok? ==> off + 8 + |r.value| <= |data|
    ensures r.Err? ==> r.error == ValueNotFound || r.error == SliceOutOfRange
    decreases |data| - off
  {
    if off >= |data| then Err(ValueNotFound)
    else match ScanStep(data, off, key)
      case Match(v) => Ok(v)
      case Past => Err(ValueNotFound)
      case OutOfRange => Err(SliceOutOfRange)
      case Next(n) => Scan(data, n, key)
  }


  // ---------------------------------------------------------------------
  // What the scan finds: the records laid end to end in the data area

  datatype Record = Record(key: Bytes, value: Bytes)

  /** The end of the record at `off`: two length prefixes, the key, the value. */
  function RecordEnd(data: Bytes, off: nat): (e: nat)
    requires off + 8 <= |data|
    ensures e >= off + 8
  {
    off + 8 + GetUint32(data[off..off + 4]) + GetUint32(data[off + 4..off + 8])
  }

  /** The record at `off` lies wholly inside `data`. */
  predicate Fits(data: Bytes, off: nat)
  {
    off + 8 <= |data| && RecordEnd(data, off) <= |data|
  }

  function RecordAt(data: Bytes, off: nat): Record
    requires Fits(data, off)
  {
    var keyEnd := off + 8 + GetUint32(data[off..off + 4]);
    Record(data[off + 8..keyEnd], data[keyEnd..RecordEnd(data, off)])
  }

  /** From `off` up to exactly `end`, the data area holds whole records, each
      starting where the previous one ends. The bytes from `end` on are not
      constrained, so a partly filled page is tiled up to the end of its last
      record. */
  predicate TiledTo(data: Bytes, off: nat, end: nat)
    ensures TiledTo(data, off, end) ==> off <= end <= |data|
    decreases end - off
  {
    (off == end && end <= |data|)
    || (off < end && Fits(data, off) && RecordEnd(data, off) <= end
        && TiledTo(data, RecordEnd(data, off), end))
  }

  /** The records tiling [off, end), in storage order. */
  function RecordsTo(data: Bytes, off: nat, end: nat): seq<Record>
    requires TiledTo(data, off, end)
    decreases end - off
  {
    if off == end then [] else [RecordAt(data, off)] + RecordsTo(data, RecordEnd(data, off), end)
  }

  /** No record's key is smaller than the key of a record before it. */
  ghost predicate Sorted(recs: seq<Record>)
  {
    forall i, j :: 0 <= i < j < |recs| ==> !Less(recs[j].key, recs[i].key)
  }

  /** Some record of `recs` carries `key`. */
  ghost predicate Carries(recs: seq<Record>, key: Bytes)
  {
    exists i :: 0 <= i < |recs| && recs[i].key == key
  }

  /** Some record of `recs` ends a scan for `key`: it carries `key` or its
      key is greater. */
  ghost predicate Decides(recs: seq<Record>, key: Bytes)
  {
    exists i :: 0 <= i < |recs| && (recs[i].key == key || Less(key, recs[i].key))
  }

  /** The lookup over decoded records, the reference the scan is held to:
      the first record carrying `key` gives its value, the first record with
      a greater key ends the search, and `beyond` is the outcome once every
      record has been passed. */
  function Search(recs: seq<Record>, key: Bytes, beyond: Result<Bytes>): Result<Bytes>
  {
    if recs == [] then beyond
    else if recs[0].key == key then Ok(recs[0].value)
    else if Less(key, recs[0].key) then Err(ValueNotFound)
    else Search(recs[1..], key, beyond)
  }

  /** The search stops at the first record that decides it, so the value it
      finds is that of the first record carrying `key` and `beyond` plays no
      part; when no record decides, the outcome is `beyond`. */
  lemma {:induction false} SearchFindsFirst(recs: seq<Record>, key: Bytes, beyond: Result<Bytes>)
    ensures Decides(recs, key) ==>
      Search(recs, key, beyond).Ok? || Search(recs, key, beyond) == Err(ValueNotFound)
    ensures Decides(recs, key) && Search(recs, key, beyond).Ok? ==>
      exists i :: 0 <= i < |recs| && recs[i] == Record(key, Search(recs, key, beyond).value)
        && forall j :: 0 <= j < i ==> recs[j].key != key
    ensures Decides(recs, key) ==> Search(recs, key, beyond) == Search(recs, key, Err(ValueNotFound))
    ensures !Decides(recs, key) ==> Search(recs, key, beyond) == beyond
  {
    if recs != [] {
      if recs[0].key == key || Less(key, recs[0].key) {
        assert Decides(recs, key) by { assert recs[0].key == key || Less(key, recs[0].key); }
      } else {
        var rest := recs[1..];
        SearchFindsFirst(rest, key, beyond);
        DecidesTail(recs, key);
        var r := Search(recs, key, beyond);
        if Decides(recs, key) && r.Ok? {
          var i :| 0 <= i < |rest| && rest[i] == Record(key, r.value)
            && forall j :: 0 <= j < i ==> rest[j].key != key;
          assert recs[i + 1] == Record(key, r.value);
          forall j | 0 <= j < i + 1 ensures recs[j].key != key {
            if j > 0 { assert recs[j] == rest[j - 1]; }
          }
        }
      }
    }
  }

  /** When the records are sorted and one of them decides, the search finds
      a value exactly when some record carries `key`: stopping at the first
      greater key loses nothing. */
  lemma {:induction false} SearchSortedComplete(recs: seq<Record>, key: Bytes, beyond: Result<Bytes>)
    requires Sorted(recs) && Decides(recs, key)
    ensures Search(recs, key, beyond).Ok? <==> Carries(recs, key)
  {
    var w :| 0 <= w < |recs| && (recs[w].key == key || Less(key, recs[w].key));
    if recs[0].key == key {
      assert Carries(recs, key) by { assert recs[0].key == key; }
    } else if Less(key, recs[0].key) {
      forall i | 0 <= i < |recs| ensures recs[i].key != key {
        if i > 0 { assert !Less(recs[i].key, recs[0].key); }
      }
    } else {
      var rest := recs[1..];
      assert Sorted(rest) by {
        forall i, j | 0 <= i < j < |rest| ensures !Less(rest[j].key, rest[i].key) {
          assert rest[i] == recs[i + 1] && rest[j] == recs[j + 1];
        }
      }
      DecidesTail(recs, key);
      SearchSortedComplete(rest, key, beyond);
      CarriesTail(recs, key);
    }
  }

  /** A list whose head does not carry `key` carries it exactly when its tail does. */
  lemma CarriesTail(recs: seq<Record>, key: Bytes)
    requires recs != [] && recs[0].key != key
    ensures Carries(recs, key) <==> Carries(recs[1..], key)
  {
  }

  /** A list whose head does not decide a scan for `key` is decided exactly
      when its tail is. */
  lemma DecidesTail(recs: seq<Record>, key: Bytes)
    requires recs != [] && recs[0].key != key && !Less(key, recs[0].key)
    ensures Decides(recs, key) <==> Decides(recs[1..], key)
  {
  }

  /** On a record that fits, one turn of the scan reads that record: its
      value on a match, a stop on a greater key, else its end. */
  lemma StepReadsRecord(data: Bytes, off: nat, key: Bytes)
    requires Fits(data, off)
    ensures ScanStep(data, off, key) ==
      if RecordAt(data, off).key == key then Match(RecordAt(data, off).value)
      else if Less(key, RecordAt(data, off).key) then Past
      else Next(RecordEnd(data, off))
  {
  }

  /** Over the records tiling [off, end) the scan decides as the search over
      the decoded records does, and goes on from `end` when none of them
      decides. */
  lemma {:induction false} ScanDecodes(data: Bytes, off: nat, end: nat, key: Bytes)
    requires TiledTo(data, off, end)
    ensures Scan(data, off, key) == Search(RecordsTo(data, off, end), key, Scan(data, end, key))
    decreases end - off
  {
    if off < end {
      var next := RecordEnd(data, off);
      var recs := RecordsTo(data, off, end);
      assert recs[0] == RecordAt(data, off) && recs[1..] == RecordsTo(data, next, end);
      StepReadsRecord(data, off, key);
      if recs[0].key != key && !Less(key, recs[0].key) {
        ScanDecodes(data, next, end, key);
      }
    }
  }

  /** On records tiling [off, end), a scan that one of them decides never
      leaves the data area, and what it finds is the value of the first
      record carrying `key`; a scan that none of them decides goes on at
      `end` as if it had started there. Whatever follows `end` is free. */
  lemma ScanFindsFirst(data: Bytes, off: nat, end: nat, key: Bytes)
    requires TiledTo(data, off, end)
    ensures Decides(RecordsTo(data, off, end), key) ==>
      Scan(data, off, key).Ok? || Scan(data, off, key) == Err(ValueNotFound)
    ensures Decides(RecordsTo(data, off, end), key) && Scan(data, off, key).Ok? ==>
      exists i :: 0 <= i < |RecordsTo(data, off, end)|
        && RecordsTo(data, off, end)[i] == Record(key, Scan(data, off, key).value)
        && forall j :: 0 <= j < i ==> RecordsTo(data, off, end)[j].key != key
    ensures !Decides(RecordsTo(data, off, end), key) ==> Scan(data, off, key) == Scan(data, end, key)
  {
    ScanDecodes(data, off, end, key);
    SearchFindsFirst(RecordsTo(data, off, end), key, Scan(data, end, key));
  }

  /** On records tiling [off, end) in key order, one of which carries `key`
      or a greater key, the scan reports "value not found" exactly when none
      of them carries `key`, whatever follows `end`. */
  lemma ScanSortedComplete(data: Bytes, off: nat, end: nat, key: Bytes)
    requires TiledTo(data, off, end) && Sorted(RecordsTo(data, off, end))
    requires Decides(RecordsTo(data, off, end), key)
    ensures Scan(data, off, key).Ok? <==> Carries(RecordsTo(data, off, end), key)
  {
    ScanDecodes(data, off, end, key);
    SearchSortedComplete(RecordsTo(data, off, end), key, Scan(data, end, key));
  }

  /** On a data area filled to its last byte by records in key order, the
      scan never leaves the area and finds a value exactly when some record
      at or after `off` carries `key`. */
  lemma ScanFullPage(data: Bytes, off: nat, key: Bytes)
    requires TiledTo(data, off, |data|) && Sorted(RecordsTo(data, off, |data|))
    ensures Scan(data, off, key).Ok? || Scan(data, off, key) == Err(ValueNotFound)
    ensures Scan(data, off, key).Ok? <==> Carries(RecordsTo(data, off, |data|), key)
  {
    var recs := RecordsTo(data, off, |data|);
    ScanDecodes(data, off, |data|, key);
    SearchFindsFirst(recs, key, Err(ValueNotFound));
    if Decides(recs, key) {
      SearchSortedComplete(recs, key, Err(ValueNotFound));
    }
  }

  /** From `off` on, zero bytes read as records with an empty key and an
      empty value, 8 bytes each: a scan for a non-empty key walks through
      them and reports "value not found" when they end on a multiple of 8,
      and slices past the data area otherwise. */
  lemma {:induction false} ScanZeroTail(data: Bytes, off: nat, key: Bytes)
    requires key != [] && off <= |data|
    requires forall i :: off <= i < |data| ==> data[i] == 0
    ensures Scan(data, off, key)
      == if (|data| - off) % 8 == 0 then Err(ValueNotFound) else Err(SliceOutOfRange)
    decreases |data| - off
  {
    if off < |data| && off + 8 <= |data| {
      assert data[off..off + 4] == [0, 0, 0, 0];
      assert data[off + 4..off + 8] == [0, 0, 0, 0];
      assert data[off + 8..off + 8] == [];
      assert ScanStep(data, off, key) == Next(off + 8);
      ScanZeroTail(data, off + 8, key);
    }
  }

  /** The scan bounded by `end`, where the written records end: reaching
      `end` means "value not found", whatever bytes follow. */
  function ScanWithin(data: Bytes, off: nat, end: nat, key: Bytes): (r: Result<Bytes>)
    requires end <= |data|
    ensures r.Ok? ==> off + 8 + |r.value| <= |data|
    ensures r.Err? ==> r.error == ValueNotFound || r.error == SliceOutOfRange
    decreases end - off
  {
    if off >= end then Err(ValueNotFound)
    else match ScanStep(data, off, key)
      case Match(v) => Ok(v)
      case Past => Err(ValueNotFound)
      case OutOfRange => Err(SliceOutOfRange)
      case Next(n) => ScanWithin(data, n, end, key)
  }

  /** Over records tiling [off, end) the bounded scan decides as the search
      over the decoded records, with "value not found" beyond them. */
  lemma {:induction false} ScanWithinDecodes(data: Bytes, off: nat, end: nat, key: Bytes)
    requires TiledTo(data, off, end)
    ensures ScanWithin(data, off, end, key) == Search(RecordsTo(data, off, end), key, Err(ValueNotFound))
    decreases end - off
  {
    if off < end {
      var next := RecordEnd(data, off);
      var recs := RecordsTo(data, off, end);
      assert recs[0] == RecordAt(data, off) && recs[1..] == RecordsTo(data, next, end);
      StepReadsRecord(data, off, key);
      if recs[0].key != key && !Less(key, recs[0].key) {
        ScanWithinDecodes(data, next, end, key);
      }
    }
  }

  /** On records tiling [off, end) in key order, the bounded scan never
      leaves the data area, finds a value exactly when some record carries
      `key`, finds the first such record's value, and agrees with the
      unbounded scan whenever one of the records decides. */
  lemma ScanWithinSortedComplete(data: Bytes, off: nat, end: nat, key: Bytes)
    requires TiledTo(data, off, end) && Sorted(RecordsTo(data, off, end))
    ensures ScanWithin(data, off, end, key).Ok? || ScanWithin(data, off, end, key) == Err(ValueNotFound)
    ensures ScanWithin(data, off, end, key).Ok? <==> Carries(RecordsTo(data, off, end), key)
    ensures ScanWithin(data, off, end, key).Ok? ==>
      exists i :: 0 <= i < |RecordsTo(data, off, end)|
        && RecordsTo(data, off, end)[i] == Record(key, ScanWithin(data, off, end, key).value)
        && forall j :: 0 <= j < i ==> RecordsTo(data, off, end)[j].key != key
    ensures Decides(RecordsTo(data, off, end), key) ==> ScanWithin(data, off, end, key) == Scan(data, off, key)
  {
    var recs := RecordsTo(data, off, end);
    ScanWithinDecodes(data, off, end, key);
    ScanDecodes(data, off, end, key);
    SearchFindsFirst(recs, key, Err(ValueNotFound));
    SearchFindsFirst(recs, key, Scan(data, end, key));
    if Decides(recs, key) {
      SearchSortedComplete(recs, key, Err(ValueNotFound));
    }
  }

  /** The bytes of one record as a page lays it out: the key length and the
      value length, little-endian, then the key and the value. */
  function EncodeRecord(rec: Record): (b: Bytes)
    requires |rec.key| < U32_MODULUS && |rec.value| < U32_MODULUS
    ensures |b| == 8 + |rec.key| + |rec.value|
  {
    EncodeU32(|rec.key|) + EncodeU32(|rec.value|) + rec.key + rec.value
  }

  /** A record laid out after any bytes reads back whole, whatever follows it:
      it fits, it ends where its bytes end, and it decodes to itself. */
  lemma RecordRoundTrip(before: Bytes, rec: Record, after: Bytes)
    requires |rec.key| < U32_MODULUS && |rec.value| < U32_MODULUS
    ensures Fits(before + EncodeRecord(rec) + after, |before|)
    ensures RecordEnd(before + EncodeRecord(rec) + after, |before|) == |before| + |EncodeRecord(rec)|
    ensures RecordAt(before + EncodeRecord(rec) + after, |before|) == rec
  {
    var data := before + EncodeRecord(rec) + after;
    var o := |before|;
    var keyEnd := o + 8 + |rec.key|;
    assert data[o..o + 4] == EncodeU32(|rec.key|) + [];
    assert data[o + 4..o + 8] == EncodeU32(|rec.value|) + [];
    DecodeEncode(|rec.key|, []);
    DecodeEncode(|rec.value|, []);
    assert data[o + 8..keyEnd] == rec.key;
    assert data[keyEnd..keyEnd + |rec.value|] == rec.value;
  }

  /** A record whose encoding sits at `off` in any data area reads back whole
      from there. */
  lemma RecordAtOffset(data: Bytes, off: nat, rec: Record)
    requires |rec.key| < U32_MODULUS && |rec.value| < U32_MODULUS
    requires off + |EncodeRecord(rec)| <= |data|
    requires data[off..off + |EncodeRecord(rec)|] == EncodeRecord(rec)
    ensures Fits(data, off) && RecordEnd(data, off) == off + |EncodeRecord(rec)|
    ensures RecordAt(data, off) == rec
  {
    var n := off + |EncodeRecord(rec)|;
    assert data == data[..off] + EncodeRecord(rec) + data[n..];
    RecordRoundTrip(data[..off], rec, data[n..]);
  }

  /** A record encoded at `off`, followed by records tiling up to `end`, puts
      itself in front of them. */
  lemma TileCons(data: Bytes, off: nat, end: nat, rec: Record)
    requires |rec.key| < U32_MODULUS && |rec.value| < U32_MODULUS
    requires off + |EncodeRecord(rec)| <= |data|
    requires data[off..off + |EncodeRecord(rec)|] == EncodeRecord(rec)
    requires TiledTo(data, off + |EncodeRecord(rec)|, end)
    ensures TiledTo(data, off, end)
    ensures RecordsTo(data, off, end) == [rec] + RecordsTo(data, off + |EncodeRecord(rec)|, end)
  {
    RecordAtOffset(data, off, rec);
  }

  /** A data area holding the records b→2, d→4 and f→6 from data offset 0,
      each of 10 bytes, then zero bytes up to the end of the area. */
  ghost predicate IsSamplePage(data: Bytes)
  {
    && |data| == BLOCK_DATA_SIZE as int
    && data[0..10] == EncodeRecord(Record([0x62], [0x32]))
    && data[10..20] == EncodeRecord(Record([0x64], [0x34]))
    && data[20..30] == EncodeRecord(Record([0x66], [0x36]))
    && forall i :: 30 <= i < |data| ==> data[i] == 0
  }

  function SamplePage(): (data: Bytes)
    ensures |data| == BLOCK_DATA_SIZE as int
  {
    EncodeRecord(Record([0x62], [0x32])) + EncodeRecord(Record([0x64], [0x34]))
      + EncodeRecord(Record([0x66], [0x36])) + seq(BLOCK_DATA_SIZE as int - 30, _ => 0)
  }

  /** Such a data area exists. */
  lemma SamplePageExists()
    ensures IsSamplePage(SamplePage())
  {
    var data := SamplePage();
    assert data[0..10] == EncodeRecord(Record([0x62], [0x32]));
    assert data[10..20] == EncodeRecord(Record([0x64], [0x34]));
    assert data[20..30] == EncodeRecord(Record([0x66], [0x36]));
    forall i | 30 <= i < |data| ensures data[i] == 0 {
      assert data[i] == data[30..][i - 30];
    }
  }

  /** The three records of a sample page tile its first 30 bytes in key order. */
  lemma SamplePageRecords(data: Bytes)
    requires IsSamplePage(data)
    ensures TiledTo(data, 0, 30)
    ensures RecordsTo(data, 0, 30)
      == [Record([0x62], [0x32]), Record([0x64], [0x34]), Record([0x66], [0x36])]
    ensures Sorted(RecordsTo(data, 0, 30))
  {
    var b, d, f := Record([0x62], [0x32]), Record([0x64], [0x34]), Record([0x66], [0x36]);
    assert |EncodeRecord(b)| == |EncodeRecord(d)| == |EncodeRecord(f)| == 10;
    assert TiledTo(data, 30, 30) && RecordsTo(data, 30, 30) == [];
    TileCons(data, 20, 30, f);
    TileCons(data, 10, 30, d);
    TileCons(data, 0, 30, b);
    assert [b] + ([d] + ([f] + [])) == [b, d, f];
  }

  /** Lookups on a sample page: "d" is found, and "c" stops at "d", whose key
      is greater, so the zero bytes after the records are never read. */
  lemma SamplePageLookups(data: Bytes)
    requires IsSamplePage(data)
    ensures Scan(data, 0, [0x64]) == Ok([0x34])
    ensures Scan(data, 0, [0x63]) == Err(ValueNotFound)
  {
    SamplePageRecords(data);
    ScanDecodes(data, 0, 30, [0x64]);
    ScanDecodes(data, 0, 30, [0x63]);
  }

  /** A lookup of "g", greater than every key of a sample page, passes the
      three records and walks on through the 4058 zero bytes 8 at a time;
      4058 is not a multiple of 8, so the last step slices past the data
      area. The scan bounded by the end of the records reports "value not
      found". */
  lemma SamplePageOverrun(data: Bytes)
    requires IsSamplePage(data)
    ensures Scan(data, 0, [0x67]) == Err(SliceOutOfRange)
    ensures ScanWithin(data, 0, 30, [0x67]) == Err(ValueNotFound)
  {
    SamplePagePassesRecords(data, [0x67]);
    SampleTailOverruns(data, [0x67]);
  }

  /** "g" passes every record of a sample page: the scan goes on at the zero
      bytes, and the bounded scan reports "value not found". */
  lemma SamplePagePassesRecords(data: Bytes, g: Bytes)
    requires IsSamplePage(data) && g == [0x67]
    ensures Scan(data, 0, g) == Scan(data, 30, g)
    ensures ScanWithin(data, 0, 30, g) == Err(ValueNotFound)
  {
    var recs := [Record([0x62], [0x32]), Record([0x64], [0x34]), Record([0x66], [0x36])];
    SamplePageRecords(data);
    SampleKeysBelow(recs, g);
    ScanFindsFirst(data, 0, 30, g);
    ScanWithinDecodes(data, 0, 30, g);
    SearchFindsFirst(recs, g, Err(ValueNotFound));
  }

  /** From the end of the records of a sample page, a scan for a non-empty
      key walks through the 4058 zero bytes and slices past the data area. */
  lemma SampleTailOverruns(data: Bytes, key: Bytes)
    requires IsSamplePage(data) && key != []
    ensures Scan(data, 30, key) == Err(SliceOutOfRange)
  {
    assert |data| - 30 == 4058;
    assert 4058 % 8 == 2;
    ScanZeroTail(data, 30, key);
  }

  /** No record of a sample page carries "g" or a greater key. */
  lemma SampleKeysBelow(recs: seq<Record>, g: Bytes)
    requires recs == [Record([0x62], [0x32]), Record([0x64], [0x34]), Record([0x66], [0x36])]
    requires g == [0x67]
    ensures !Decides(recs, g)
  {
    assert !Less(g, [0x62]) && !Less(g, [0x64]) && !Less(g, [0x66]);
    forall i | 0 <= i < |recs| ensures recs[i].key != g && !Less(g, recs[i].key) {
    }
  }

  // ---------------------------------------------------------------------
  // The scan step as written, in uint32 arithmetic

  /** One turn of the loop of block.go:63-79 with Go's uint32 arithmetic:
      `keyEnd` and `valEnd` wrap modulo 2^32, and a slice `data[lo:hi]`
      panics unless `lo <= hi <= len(data)`. As long as the end of the
      record at `off` does not overflow uint32 it is the step of the model;
      when it moves on, it moves to that end modulo 2^32. */
  function ScanStepAsWritten(data: Bytes, off: u32, key: Bytes): (s: Step)
    ensures off + 8 > |data| || RecordEnd(data, off) < U32_MODULUS ==> s == ScanStep(data, off, key)
    ensures s.Next? ==> off + 8 <= |data| && s.offset == Wrap32(RecordEnd(data, off))
  {
    if off + 8 > |data| then OutOfRange
    else
      var keySize := GetUint32(data[off..off + 4]);
      var keyStart := off + 8;
      var keyEnd := Wrap32(keyStart + keySize);
      var valSize := GetUint32(data[off + 4..off + 8]);
      WrapAdd(keyStart + keySize, valSize);
      var valEnd := Wrap32(keyEnd + valSize);
      if !(keyStart <= keyEnd <= |data|) then OutOfRange
      else if data[keyStart..keyEnd] == key then
        (if !(keyEnd <= valEnd <= |data|) then OutOfRange else Match(data[keyEnd..valEnd]))
      else if Less(key, data[keyStart..keyEnd]) then Past
      else Next(valEnd)
  }

  /** A data area whose first record has an empty key and a value length of
      0xFFFFFFF8: `valEnd` overflows back to 0. */
  function WrappingData(): (data: Bytes)
    ensures |data| == BLOCK_DATA_SIZE as int
  {
    [0, 0, 0, 0, 0xF8, 0xFF, 0xFF, 0xFF] + seq(BLOCK_DATA_SIZE as int - 8, _ => 0)
  }

  /** As written, a lookup of "a" from offset 0 in `WrappingData()` computes
      offset 0 as the next record: the loop never ends. The model, which
      keeps offsets exact, moves past the data area and reports "value not found". */
  lemma WrappedScanRevisits()
    ensures ScanStepAsWritten(WrappingData(), 0, [0x61]) == Next(0)
    ensures ScanStep(WrappingData(), 0, [0x61]) == Next(U32_MODULUS)
    ensures Scan(WrappingData(), 0, [0x61]) == Err(ValueNotFound)
  {
  }

  // ---------------------------------------------------------------------
  // Block

  class Block {
    var header: BlockHeader
    var Data: array<byte>

    ghost predicate Valid()
      reads this
    {
      Data.Length == BLOCK_DATA_SIZE as int
    }

    /** NewBlock: a fresh header and a zeroed data area of 4088 bytes. */
    constructor ()
      ensures Valid() && fresh(header) && fresh(Data)
      ensures Data.Length == BLOCK_SIZE as int - BLOCK_HEADER_SIZE as int == 4088
      ensures forall i :: 0 <= i < Data.Length ==> Data[i] == 0
      ensures header.count == 0 && header.offset == BLOCK_HEADER_SIZE
    {
      header := new BlockHeader();
      Data := new byte[BLOCK_DATA_SIZE](_ => 0);
    }

    /** Get: the value stored under `key`, scanning the records from data
        offset `offset`. */
    method Get(offset: u32, key: Bytes) returns (r: Result<Bytes>)
      requires Valid()
      ensures offset >= BLOCK_DATA_SIZE ==> r == Err(InvalidOffset)
      ensures offset < BLOCK_DATA_SIZE ==> r == Scan(Data[..], offset, key)
    {
      if offset >= BLOCK_DATA_SIZE {
        return Err(InvalidOffset);
      }
      ghost var data := Data[..];
      var off: nat := offset;
      while off < BLOCK_DATA_SIZE as nat
        invariant Scan(data, off, key) == Scan(data, offset, key)
        decreases BLOCK_DATA_SIZE as int - off
      {
        if off + (KEY_SIZE + VAL_SIZE) as nat > Data.Length {
          return Err(SliceOutOfRange);
        }
        var keySize := GetUint32(Data[off..off + KEY_SIZE as nat]);
        assert Data[off..off + KEY_SIZE as nat] == data[off..off + 4];
        var keyStart := off + (KEY_SIZE + VAL_SIZE) as nat;
        var keyEnd := keyStart + keySize;
        var valSize := GetUint32(Data[off + KEY_SIZE as nat..keyStart]);
        var valEnd := keyEnd + valSize;
        assert Data[off + KEY_SIZE as nat..keyStart] == data[off + 4..off + 8];
        if keyEnd > Data.Length {
          return Err(SliceOutOfRange);
        }
        var currKey := Data[keyStart..keyEnd];
        assert currKey == data[keyStart..keyEnd];
        if key == currKey {
          if valEnd > Data.Length {
            return Err(SliceOutOfRange);
          }
          assert ScanStep(data, off, key) == Match(data[keyEnd..valEnd]);
          return Ok(Data[keyEnd..valEnd]);
        }
        if Less(key, currKey) {
          assert ScanStep(data, off, key) == Past;
          break;
        }
        assert ScanStep(data, off, key) == Next(valEnd);
        off := valEnd;
      }
      return Err(ValueNotFound);
    }

    /** Get with the scan bounded by `end`, the data offset where the written
        records end: the lookup a page that is not full needs. */
    method GetWithin(offset: u32, end: u32, key: Bytes) returns (r: Result<Bytes>)
      requires Valid() && end <= BLOCK_DATA_SIZE
      ensures offset >= BLOCK_DATA_SIZE ==> r == Err(InvalidOffset)
      ensures offset < BLOCK_DATA_SIZE ==> r == ScanWithin(Data[..], offset, end, key)
    {
      if offset >= BLOCK_DATA_SIZE {
        return Err(InvalidOffset);
      }
      ghost var data := Data[..];
      var off: nat := offset;
      while off < end as nat
        invariant ScanWithin(data, off, end, key) == ScanWithin(data, offset, end, key)
        decreases end as int - off
      {
        if off + (KEY_SIZE + VAL_SIZE) as nat > Data.Length {
          return Err(SliceOutOfRange);
        }
        var keySize := GetUint32(Data[off..off + KEY_SIZE as nat]);
        assert Data[off..off + KEY_SIZE as nat] == data[off..off + 4];
        var keyStart := off + (KEY_SIZE + VAL_SIZE) as nat;
        var keyEnd := keyStart + keySize;
        var valSize := GetUint32(Data[off + KEY_SIZE as nat..keyStart]);
        var valEnd := keyEnd + valSize;
        assert Data[off + KEY_SIZE as nat..keyStart] == data[off + 4..off + 8];
        if keyEnd > Data.Length {
          return Err(SliceOutOfRange);
        }
        var currKey := Data[keyStart..keyEnd];
        assert currKey == data[keyStart..keyEnd];
        if key == currKey {
          if valEnd > Data.Length {
            return Err(SliceOutOfRange);
          }
          assert ScanStep(data, off, key) == Match(data[keyEnd..valEnd]);
          return Ok(Data[keyEnd..valEnd]);
        }
        if Less(key, currKey) {
          assert ScanStep(data, off, key) == Past;
          break;
        }
        assert ScanStep(data, off, key) == Next(valEnd);
        off := valEnd;
      }
      return Err(ValueNotFound);
    }
  }
}
