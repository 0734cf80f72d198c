/** Loading what the converter wrote gives back the model, exactly if the model is well formed. */
module DbmfRoundTrip {
  import opened Results
  import opened Arith
  import opened LittleEndian
  import opened ByteStreams
  import opened GgufMetadata
  import HuffmanCodec
  import opened DbmfLayout
  import opened DbmfFormat
  import DbmfWriter
  import opened DbmfReader

  /** The size follows from type and dimensions, unused dimensions are 1, and the name is short of 4 GiB. */
  ghost predicate WellFormedTensor(t: Tensor) {
    && t.data.Some? && |t.name| < 0x1_0000_0000
    && ExpectedSize(t.kind, t.nDims, t.shape) == Ok(|t.data.value|)
    && forall d :: 0 <= d < 4 && t.nDims <= d ==> t.shape[d] == 1
  }

  ghost predicate WellFormedModel(metadata: seq<Entry>, tensors: seq<Tensor>) {
    && (forall i :: 0 <= i < |metadata| ==> WellFormed(metadata[i].value))
    && (forall i :: 0 <= i < |tensors| ==> WellFormedTensor(tensors[i]))
  }

  // ---- header -----------------------------------------------------------------------------

  lemma StartRead(file: seq<byte>, h: Header)
    requires Places(file, 0, HeaderStart(h)) && h.alignment < 0x1_0000_0000 && h.flags < 0x1_0000_0000
    requires h.tensorCount < U64 && h.metadataCount < U64 && h.metadataOffset < U64 && h.metadataSize < U64
    ensures Field(file, 0, 4) == MAGIC && Field(file, 4, 4) == VERSION
    ensures Field(file, 8, 4) == h.alignment && Field(file, 12, 4) == h.flags
    ensures Field(file, 16, 8) == h.tensorCount && Field(file, 24, 8) == h.metadataCount
    ensures Field(file, 32, 8) == h.metadataOffset && Field(file, 40, 8) == h.metadataSize
  {
    hide Put;
    hide Get;
    hide Pow2;
    var s8 := Put(h.metadataOffset, 8) + Put(h.metadataSize, 8);
    var s6 := Put(h.tensorCount, 8) + (Put(h.metadataCount, 8) + s8);
    var s4 := Put(h.alignment, 4) + (Put(h.flags, 4) + s6);
    PlacesBoth(file, 0, Put(MAGIC, 4), Put(VERSION, 4) + s4);
    PlacesBoth(file, 4, Put(VERSION, 4), s4);
    PlacesBoth(file, 8, Put(h.alignment, 4), Put(h.flags, 4) + s6);
    PlacesBoth(file, 12, Put(h.flags, 4), s6);
    PlacesBoth(file, 16, Put(h.tensorCount, 8), Put(h.metadataCount, 8) + s8);
    PlacesBoth(file, 24, Put(h.metadataCount, 8), s8);
    PlacesBoth(file, 32, Put(h.metadataOffset, 8), Put(h.metadataSize, 8));
    WordSize();
    HalfWordSize();
    FieldIs(file, 0, MAGIC, 4);
    FieldIs(file, 4, VERSION, 4);
    FieldIs(file, 8, h.alignment, 4);
    FieldIs(file, 12, h.flags, 4);
    FieldIs(file, 16, h.tensorCount, 8);
    FieldIs(file, 24, h.metadataCount, 8);
    FieldIs(file, 32, h.metadataOffset, 8);
    FieldIs(file, 40, h.metadataSize, 8);
  }

  lemma SectionsRead(file: seq<byte>, h: Header)
    requires Places(file, 48, HeaderSections(h)) && h.poolOffset < U64 && h.poolSize < U64 && h.tableOffset < U64
    requires h.tableSize < U64 && h.dataOffset < U64 && h.fileSize < U64
    ensures Field(file, 48, 8) == h.poolOffset && Field(file, 56, 8) == h.poolSize
    ensures Field(file, 64, 8) == h.tableOffset && Field(file, 72, 8) == h.tableSize
    ensures Field(file, 80, 8) == h.dataOffset && Field(file, 88, 8) == h.fileSize
  {
    hide Put;
    hide Get;
    hide Pow2;
    var s4 := Put(h.dataOffset, 8) + Put(h.fileSize, 8);
    var s2 := Put(h.tableOffset, 8) + (Put(h.tableSize, 8) + s4);
    PlacesBoth(file, 48, Put(h.poolOffset, 8), Put(h.poolSize, 8) + s2);
    PlacesBoth(file, 56, Put(h.poolSize, 8), s2);
    PlacesBoth(file, 64, Put(h.tableOffset, 8), Put(h.tableSize, 8) + s4);
    PlacesBoth(file, 72, Put(h.tableSize, 8), s4);
    PlacesBoth(file, 80, Put(h.dataOffset, 8), Put(h.fileSize, 8));
    WordSize();
    FieldIs(file, 48, h.poolOffset, 8);
    FieldIs(file, 56, h.poolSize, 8);
    FieldIs(file, 64, h.tableOffset, 8);
    FieldIs(file, 72, h.tableSize, 8);
    FieldIs(file, 80, h.dataOffset, 8);
    FieldIs(file, 88, h.fileSize, 8);
  }

  lemma AlignmentIsPowerOfTwo()
    ensures PowerOfTwo(ALIGNMENT)
  {
    PowerOfTwoIs(ALIGNMENT);
    Pow2Values();
    assert Pow2(6) == 64;
    Pow2Add(8, 6);
    assert ALIGNMENT == Pow2(14);
  }

  /** A header whose sections are in the file is read back. */
  lemma HeaderRead(file: seq<byte>, h: Header, hash: Hash)
    requires |file| < U64 && Places(file, 0, HeaderBytes(h, hash)) && h.alignment == ALIGNMENT && h.flags <= 1
    requires h.metadataCount < U64 && h.fileSize == |file| && SectionsOk(h, |file|) && TableOk(h)
    ensures ParseHeader(file, hash) == Ok(h)
  {
    hide Put;
    hide Get;
    hide Pow2;
    hide PowerOfTwo;
    hide HeaderStart;
    hide HeaderSections;
    var sum := hash(HeaderFields(h));
    PlacesBoth(file, 0, HeaderFields(h), Put(sum, 8) + Zeros(24));
    PlacesBoth(file, 96, Put(sum, 8), Zeros(24));
    PlacesBoth(file, 0, HeaderStart(h), HeaderSections(h));
    StartRead(file, h);
    SectionsRead(file, h);
    WordSize();
    FieldIs(file, 96, sum, 8);
    AlignmentIsPowerOfTwo();
    assert file[..96] == HeaderFields(h);
  }

  lemma {:induction false} MetadataIsLong(metadata: seq<Entry>)
    ensures |metadata| <= |MetadataBytes(metadata)|
  {
    if metadata != [] {
      MetadataIsLong(metadata[..|metadata| - 1]);
    }
  }

  lemma WrittenHeaderRead(metadata: seq<Entry>, items: seq<Item>, hash: Hash)
    requires |FileOf(metadata, items, hash)| < U64 / 2
    ensures var h := HeaderOf(metadata, items, hash);
      ParseHeader(FileOf(metadata, items, hash), hash) == Ok(h) && SectionsOk(h, |FileOf(metadata, items, hash)|) && TableOk(h)
  {
    hide ParseHeader;
    hide HeaderBytes;
    hide MetadataBytes;
    hide PoolBytes;
    hide TableBytes;
    hide Running;
    hide FileOf;
    FileParts(metadata, items, hash);
    MetadataIsLong(metadata);
    HeaderRead(FileOf(metadata, items, hash), HeaderOf(metadata, items, hash), hash);
  }

  /** The header of a written file: sections one after the other, the data on a page, and the reserved bytes zero. */
  lemma WrittenHeader(metadata: seq<Entry>, items: seq<Item>, hash: Hash)
    requires |FileOf(metadata, items, hash)| < U64 / 2
    ensures var file := FileOf(metadata, items, hash);
      && |file| >= 128 && Field(file, 0, 4) == 0x464D4244 && Field(file, 4, 4) == 1 && Field(file, 8, 4) == 16384
      && Field(file, 12, 4) == (if exists k :: 0 <= k < |items| && items[k].coded.Some? then 1 else 0)
      && Field(file, 16, 8) == |items| && Field(file, 24, 8) == |metadata|
      && Field(file, 32, 8) == 128 && Field(file, 48, 8) == 128 + Field(file, 40, 8)
      && Field(file, 64, 8) == Field(file, 48, 8) + Field(file, 56, 8) && Field(file, 72, 8) == 128 * |items|
      && Field(file, 64, 8) + Field(file, 72, 8) <= Field(file, 80, 8) < Field(file, 64, 8) + Field(file, 72, 8) + 16384
      && Field(file, 80, 8) % 16384 == 0 && Field(file, 88, 8) == |file| && Field(file, 96, 8) == hash(file[..96])
      && file[104..128] == seq(24, _ => 0)
  {
    hide PowerOfTwo;
    hide Get;
    hide Put;
    hide MetadataBytes;
    hide PoolBytes;
    hide TableBytes;
    hide Running;
    hide FileOf;
    var file, h := FileOf(metadata, items, hash), HeaderOf(metadata, items, hash);
    WrittenHeaderRead(metadata, items, hash);
    FileParts(metadata, items, hash);
    AlignUpIs(h.tableOffset + h.tableSize);
    ReservedAreZero(file, h, hash);
    hide HeaderBytes;
    hide AlignUp;
  }

  lemma ReservedAreZero(file: seq<byte>, h: Header, hash: Hash)
    requires Places(file, 0, HeaderBytes(h, hash))
    ensures file[104..128] == seq(24, _ => 0)
  {
    hide Put;
    PlacesBoth(file, 0, HeaderFields(h), Put(hash(HeaderFields(h)), 8) + Zeros(24));
    PlacesBoth(file, 96, Put(hash(HeaderFields(h)), 8), Zeros(24));
  }

  // ---- metadata ---------------------------------------------------------------------------

  lemma EntryRead(file: seq<byte>, size: nat, at: nat, e: Entry)
    requires at + |EntryBytes(e)| <= size <= |file| && size < U64 && Places(file, at, EntryBytes(e)) && WellFormed(e.value)
    ensures ParseEntry(file, size, at) == Ok((e, at + |EntryBytes(e)|))
  {
    hide Put;
    hide Get;
    hide Pow2;
    hide MetaBytes;
    hide ParseValue;
    hide ParseText;
    var k := at + |TextBytes(e.key)|;
    PlacesBoth(file, at, TextBytes(e.key), Put(TypeOf(e.value), 4) + MetaBytes(e.value));
    PlacesBoth(file, k, Put(TypeOf(e.value), 4), MetaBytes(e.value));
    TextRoundTrip(file, size, at, e.key);
    HalfWordSize();
    FieldIs(file, k, TypeOf(e.value), 4);
    ValueRoundTrip(file, size, k + 4, e.value);
  }

  lemma {:induction false} EntriesRead(file: seq<byte>, size: nat, at: nat, metadata: seq<Entry>)
    requires at + |MetadataBytes(metadata)| <= size <= |file| && size < U64 && Places(file, at, MetadataBytes(metadata))
    requires forall i :: 0 <= i < |metadata| ==> WellFormed(metadata[i].value)
    ensures ParseEntries(file, size, at, |metadata|) == Ok((metadata, at + |MetadataBytes(metadata)|))
  {
    hide EntryBytes;
    hide ParseEntry;
    if metadata != [] {
      var n := |metadata| - 1;
      PlacesBoth(file, at, MetadataBytes(metadata[..n]), EntryBytes(metadata[n]));
      EntriesRead(file, size, at, metadata[..n]);
      EntryRead(file, size, at + |MetadataBytes(metadata[..n])|, metadata[n]);
      assert metadata == metadata[..n] + [metadata[n]];
    }
  }

  lemma {:induction false} ReadEntriesAreWellFormed(file: seq<byte>, size: nat, at: nat, n: nat)
    requires at <= size <= |file|
    ensures var r := ParseEntries(file, size, at, n);
      r.Ok? ==> forall i :: 0 <= i < n ==> WellFormed(r.value.0[i].value)
  {
    hide WellFormed;
    hide ParseValue;
    if n > 0 {
      ReadEntriesAreWellFormed(file, size, at, n - 1);
      var r := ParseEntries(file, size, at, n - 1);
      if r.Ok? {
        var t := ParseText(file, size, r.value.1);
        if t.Ok? && t.value.1 + 4 <= size && Field(file, t.value.1, 4) <= LAST_TYPE {
          ReadIsWellFormed(file, size, t.value.1 + 4, Field(file, t.value.1, 4));
        }
      }
    }
  }

  // ---- records ----------------------------------------------------------------------------

  lemma DimsRead(file: seq<byte>, at: nat, dims: Shape)
    requires Places(file, at, DimBytes(dims))
    ensures DimsAt(file, at) == dims
  {
    hide Put;
    hide Get;
    hide Pow2;
    PlacesBoth(file, at, Put(dims[0], 8), Put(dims[1], 8) + (Put(dims[2], 8) + Put(dims[3], 8)));
    PlacesBoth(file, at + 8, Put(dims[1], 8), Put(dims[2], 8) + Put(dims[3], 8));
    PlacesBoth(file, at + 16, Put(dims[2], 8), Put(dims[3], 8));
    WordSize();
    FieldIs(file, at, dims[0], 8);
    FieldIs(file, at + 8, dims[1], 8);
    FieldIs(file, at + 16, dims[2], 8);
    FieldIs(file, at + 24, dims[3], 8);
  }

  lemma RecordBytesRead(file: seq<byte>, at: nat, nameOff: nat, r: Record)
    requires Places(file, at, RecordBytes(nameOff, r)) && nameOff < U64 && |r.name| < 0x1_0000_0000 && r.flags <= 1
    requires r.dataOffset < U64 && r.logical < U64 && r.stored < U64 && r.xxh < U64
    ensures Field(file, at, 8) == nameOff && Field(file, at + 8, 4) == |r.name| && RecordAt(file, at, r.name) == r
  {
    hide Put;
    hide Get;
    hide Pow2;
    hide DimBytes;
    hide DimsAt;
    var s9 := Put(r.stored, 8) + (Put(r.xxh, 8) + Zeros(40));
    var s7 := Put(r.dataOffset, 8) + (Put(r.logical, 8) + s9);
    var s5 := Put(r.flags, 4) + (DimBytes(r.dims) + s7);
    var s3 := Put(r.kind, 4) + (Put(r.nDims, 4) + s5);
    PlacesBoth(file, at, Put(nameOff, 8), Put(|r.name|, 4) + s3);
    PlacesBoth(file, at + 8, Put(|r.name|, 4), s3);
    PlacesBoth(file, at + 12, Put(r.kind, 4), Put(r.nDims, 4) + s5);
    PlacesBoth(file, at + 16, Put(r.nDims, 4), s5);
    PlacesBoth(file, at + 20, Put(r.flags, 4), DimBytes(r.dims) + s7);
    PlacesBoth(file, at + 24, DimBytes(r.dims), s7);
    PlacesBoth(file, at + 56, Put(r.dataOffset, 8), Put(r.logical, 8) + s9);
    PlacesBoth(file, at + 64, Put(r.logical, 8), s9);
    PlacesBoth(file, at + 72, Put(r.stored, 8), Put(r.xxh, 8) + Zeros(40));
    PlacesBoth(file, at + 80, Put(r.xxh, 8), Zeros(40));
    WordSize();
    HalfWordSize();
    FieldIs(file, at, nameOff, 8);
    FieldIs(file, at + 8, |r.name|, 4);
    FieldIs(file, at + 12, r.kind, 4);
    FieldIs(file, at + 16, r.nDims, 4);
    FieldIs(file, at + 20, r.flags, 4);
    DimsRead(file, at + 24, r.dims);
    FieldIs(file, at + 56, r.dataOffset, 8);
    FieldIs(file, at + 64, r.logical, 8);
    FieldIs(file, at + 72, r.stored, 8);
    FieldIs(file, at + 80, r.xxh, 8);
  }

  /** What conversion guarantees of the items. */
  ghost predicate Stowed(items: seq<Item>, compress: bool) {
    forall k :: 0 <= k < |items| ==>
      && items[k].tensor.data.Some? && |items[k].tensor.data.value| < U64 / 2
      && DbmfWriter.CodedFor(items[k].tensor, compress, items[k].coded)
  }

  /** Sharing does not change how much is stored. */
  lemma OwnerStoresAsMuch(items: seq<Item>, hash: Hash, compress: bool, k: nat)
    requires Stowed(items, compress) && k < |items|
    ensures |items[OwnerOf(items, hash, k)].Stored()| == |items[k].Stored()|
  {
    hide DbmfWriter.CodedFor;
    var o := OwnerOf(items, hash, k);
    if items[k].coded.Some? {
      DbmfWriter.EqualCodingsAreAsLong(items[o].tensor, items[k].tensor, compress, items[o].coded, items[k].coded);
    }
  }

  /** The region of every item, owner or not, is aligned, inside the file, and holds its owner's bytes. */
  lemma RegionInFile(metadata: seq<Entry>, items: seq<Item>, hash: Hash, compress: bool, k: nat)
    requires Stowed(items, compress) && k < |items|
    ensures var file := FileOf(metadata, items, hash);
      var off := Offset(items, hash, StartOf(metadata, items), k);
      && off % ALIGNMENT == 0 && off + |items[k].Stored()| <= |file|
      && Places(file, off, items[OwnerOf(items, hash, k)].Stored())
  {
    hide HeadOf;
    hide HeaderOf;
    hide StartOf;
    hide Running;
    hide AlignUp;
    hide Written;
    hide Stowed;
    hide First;
    var start, o := StartOf(metadata, items), OwnerOf(items, hash, k);
    var head := HeadOf(metadata, items, hash);
    HeadFits(metadata, items, hash);
    OwnerStoresAsMuch(items, hash, compress, k);
    RegionsAreApart(items, hash, start, o, o);
    WrittenLength(head, items, hash, start, |items|);
    RegionsHold(head, items, hash, start, o, |items|);
  }

  lemma HeadFits(metadata: seq<Entry>, items: seq<Item>, hash: Hash)
    ensures |HeadOf(metadata, items, hash)| <= StartOf(metadata, items)
  {
    hide MetadataBytes;
    hide PoolBytes;
    hide TableBytes;
    var h := HeaderOf(metadata, items, hash);
    AlignUpIs(h.tableOffset + h.tableSize);
  }

  /** A record reads as what was written, up to the checks. */
  lemma WrittenRecordRead(metadata: seq<Entry>, items: seq<Item>, hash: Hash, compress: bool, k: nat)
    requires Stowed(items, compress) && k < |items| && |FileOf(metadata, items, hash)| < U64 / 2
    requires |items[k].tensor.name| < 0x1_0000_0000
    requires var h := HeaderOf(metadata, items, hash); SectionsOk(h, |FileOf(metadata, items, hash)|) && TableOk(h)
    ensures ParseRecord(FileOf(metadata, items, hash), HeaderOf(metadata, items, hash), k)
         == CheckRecord(RecordOf(items, hash, StartOf(metadata, items), k), ALIGNMENT, |FileOf(metadata, items, hash)|)
  {
    hide FileOf;
    hide HeaderBytes;
    hide MetadataBytes;
    hide PoolBytes;
    hide TableBytes;
    hide RecordBytes;
    hide RecordAt;
    hide Running;
    hide CheckRecord;
    hide Offset;
    hide DbmfWriter.CodedFor;
    hide Get;
    var file, h := FileOf(metadata, items, hash), HeaderOf(metadata, items, hash);
    var r := RecordOf(items, hash, h.dataOffset, k);
    var nameOff := |PoolBytes(items, k)|;
    FileParts(metadata, items, hash);
    RecordPlaced(file, items, hash, h.dataOffset, h.tableOffset, k, |items|);
    NamePlaced(file, items, h.poolOffset, k, |items|);
    RegionInFile(metadata, items, hash, compress, k);
    RecordBytesRead(file, h.tableOffset + k * RECORD_SIZE, nameOff, r);
    assert file[h.poolOffset + nameOff..h.poolOffset + nameOff + |r.name|] == r.name;
  }

  /** A written record passes the checks exactly if its size is the one its type and dimensions ask for. */
  lemma CheckPasses(metadata: seq<Entry>, items: seq<Item>, hash: Hash, compress: bool, k: nat)
    requires Stowed(items, compress) && k < |items| && |FileOf(metadata, items, hash)| < U64 / 2
    ensures var r := RecordOf(items, hash, StartOf(metadata, items), k);
      var c := CheckRecord(r, ALIGNMENT, |FileOf(metadata, items, hash)|);
      && (c.Ok? <==> ExpectedSize(r.kind, r.nDims, r.dims) == Ok(|items[k].Bytes()|))
      && (c.Ok? ==> c == Ok(r))
  {
    hide FileOf;
    hide StartOf;
    hide Offset;
    hide ExpectedSize;
    RegionInFile(metadata, items, hash, compress, k);
  }

  ghost function RecordsOf(items: seq<Item>, hash: Hash, start: nat): (r: seq<Record>)
    ensures |r| == |items|
  {
    seq(|items|, k requires 0 <= k < |items| => RecordOf(items, hash, start, k))
  }

  lemma {:induction false} RecordsRead(metadata: seq<Entry>, items: seq<Item>, hash: Hash, compress: bool, n: nat)
    requires Stowed(items, compress) && n <= |items| && |FileOf(metadata, items, hash)| < U64 / 2
    requires forall k :: 0 <= k < n ==> WellFormedTensor(items[k].tensor)
    requires var h := HeaderOf(metadata, items, hash); SectionsOk(h, |FileOf(metadata, items, hash)|) && TableOk(h)
    ensures ParseRecords(FileOf(metadata, items, hash), HeaderOf(metadata, items, hash), n)
         == Ok(RecordsOf(items, hash, StartOf(metadata, items))[..n])
  {
    hide FileOf;
    hide HeaderOf;
    hide StartOf;
    hide ParseRecord;
    hide CheckRecord;
    hide Offset;
    hide SectionsOk;
    hide TableOk;
    hide ExpectedSize;
    hide Stowed;
    if n > 0 {
      HeaderCounts(metadata, items, hash);
      var records := RecordsOf(items, hash, StartOf(metadata, items));
      assert records[..n] == records[..n - 1] + [records[n - 1]];
      RecordsRead(metadata, items, hash, compress, n - 1);
      WrittenRecordRead(metadata, items, hash, compress, n - 1);
      CheckPasses(metadata, items, hash, compress, n - 1);
    }
  }

  lemma HeaderCounts(metadata: seq<Entry>, items: seq<Item>, hash: Hash)
    ensures HeaderOf(metadata, items, hash).tensorCount == |items| && HeaderOf(metadata, items, hash).alignment == ALIGNMENT
    ensures HeaderOf(metadata, items, hash).metadataCount == |metadata|
  {
  }

  // ---- compressed tensors -----------------------------------------------------------------

  /** The region at `off` belongs to item `k`. */
  ghost predicate RegionOf(items: seq<Item>, hash: Hash, start: nat, off: nat, ci: CompInfo, k: nat) {
    && k < |items| && items[k].coded.Some? && Offset(items, hash, start, k) == off
    && ci == CompInfo(|items[k].Bytes()|, |items[k].Stored()|, hash(items[k].Bytes()))
  }

  lemma {:induction false} RegionsOf(items: seq<Item>, hash: Hash, start: nat, n: nat)
    requires n <= |items|
    ensures var comp := CompOf(RecordsOf(items, hash, start), n);
      && (forall off :: off in comp ==> exists k :: 0 <= k < n && RegionOf(items, hash, start, off, comp[off], k))
      && (forall k :: 0 <= k < n && items[k].coded.Some? ==> Offset(items, hash, start, k) in comp)
  {
    hide Offset;
    if n > 0 {
      RegionsOf(items, hash, start, n - 1);
      var before, comp := CompOf(RecordsOf(items, hash, start), n - 1), CompOf(RecordsOf(items, hash, start), n);
      forall off | off in comp ensures exists k :: 0 <= k < n && RegionOf(items, hash, start, off, comp[off], k) {
        if off in before {
          var k :| 0 <= k < n - 1 && RegionOf(items, hash, start, off, before[off], k);
        } else {
          assert RegionOf(items, hash, start, off, comp[off], n - 1);
        }
      }
    }
  }

  lemma ItemOfRegion(items: seq<Item>, hash: Hash, start: nat, off: nat) returns (k: nat)
    requires off in CompOf(RecordsOf(items, hash, start), |items|)
    ensures RegionOf(items, hash, start, off, CompOf(RecordsOf(items, hash, start), |items|)[off], k)
  {
    hide RegionOf;
    hide CompOf;
    RegionsOf(items, hash, start, |items|);
    k :| 0 <= k < |items| && RegionOf(items, hash, start, off, CompOf(RecordsOf(items, hash, start), |items|)[off], k);
  }

  lemma CodingsAreNotEmpty(items: seq<Item>, compress: bool, k: nat)
    requires Stowed(items, compress) && k < |items| && items[k].coded.Some?
    ensures items[k].Bytes() != [] && items[k].Stored() != [] && items[k].tensor.kind == F16
    ensures exists len: seq<byte> :: HuffmanCodec.Encodes(items[k].Stored(), items[k].Bytes(), len)
  {
    var raw, coded := items[k].Bytes(), items[k].coded;
    var len: seq<byte> :| DbmfWriter.CodedWith(raw, coded, len);
    assert HuffmanCodec.Encodes(items[k].Stored(), raw, len);
  }

  lemma RegionIsNotEmpty(items: seq<Item>, hash: Hash, compress: bool, k: nat)
    requires Stowed(items, compress) && k < |items| && items[k].Bytes() != []
    ensures items[OwnerOf(items, hash, k)].Stored() != []
  {
    hide Stowed;
    var o := OwnerOf(items, hash, k);
    if items[o].coded.Some? {
      CodingsAreNotEmpty(items, compress, o);
    }
  }

  /** Whatever the hash, non-empty tensors that share an offset are byte for byte equal. */
  lemma SharedOffsetMeansEqual(items: seq<Item>, hash: Hash, compress: bool, start: nat, j: nat, k: nat)
    requires Stowed(items, compress) && j < |items| && k < |items|
    requires items[j].Bytes() != [] && items[k].Bytes() != []
    requires Offset(items, hash, start, j) == Offset(items, hash, start, k)
    ensures items[j].Bytes() == items[k].Bytes() && items[j].tensor.kind == items[k].tensor.kind
  {
    hide Stowed;
    hide Offset;
    RegionIsNotEmpty(items, hash, compress, j);
    RegionIsNotEmpty(items, hash, compress, k);
    SharersAreEqual(items, hash, start, j, k);
  }

  /** The region of a compressed item decodes to the bytes of the tensor. */
  lemma RegionDecodes(metadata: seq<Entry>, items: seq<Item>, hash: Hash, compress: bool, off: nat, ci: CompInfo, k: nat)
    requires Stowed(items, compress) && |FileOf(metadata, items, hash)| < U64 / 2
    requires RegionOf(items, hash, StartOf(metadata, items), off, ci, k)
    ensures off + ci.stored <= |FileOf(metadata, items, hash)|
    ensures DecodeAt(FileOf(metadata, items, hash), off, ci, hash) == Ok(items[k].Bytes())
  {
    hide FileOf;
    hide StartOf;
    hide Offset;
    hide Stowed;
    hide HuffmanCodec.Decompressed;
    hide HuffmanCodec.Encodes;
    var file := FileOf(metadata, items, hash);
    var o := OwnerOf(items, hash, k);
    RegionInFile(metadata, items, hash, compress, k);
    OwnerStoresAsMuch(items, hash, compress, k);
    CodingsAreNotEmpty(items, compress, o);
    var len: seq<byte> :| HuffmanCodec.Encodes(items[o].Stored(), items[o].Bytes(), len);
    StowedSize(items, compress, k);
    HuffmanCodec.RoundTrip(items[o].Stored(), items[o].Bytes(), len);
    assert file[off..off + ci.stored] == items[o].Stored();
  }

  lemma StowedSize(items: seq<Item>, compress: bool, k: nat)
    requires Stowed(items, compress) && k < |items|
    ensures items[k].tensor.data.Some? && |items[k].Bytes()| < U64 / 2
  {
  }

  /** Compressed items at one offset have the same bytes. */
  lemma RegionIsShared(items: seq<Item>, hash: Hash, compress: bool, start: nat, off: nat, a: CompInfo, j: nat, k: nat)
    requires Stowed(items, compress) && k < |items| && items[k].coded.Some?
    requires RegionOf(items, hash, start, off, a, j) && Offset(items, hash, start, k) == off
    ensures items[j].Bytes() == items[k].Bytes() && a.logical > 0
  {
    hide Offset;
    hide Stowed;
    CodingsAreNotEmpty(items, compress, k);
    CodingsAreNotEmpty(items, compress, OwnerOf(items, hash, j));
    CodingsAreNotEmpty(items, compress, OwnerOf(items, hash, k));
    SharersAreEqual(items, hash, start, j, k);
  }

  /** All compressed tensors are decoded, each to its bytes. */
  lemma AllRegionsDecode(metadata: seq<Entry>, items: seq<Item>, hash: Hash, compress: bool) returns (decoded: map<nat, seq<byte>>)
    requires Stowed(items, compress) && |FileOf(metadata, items, hash)| < U64 / 2
    ensures var comp := CompOf(RecordsOf(items, hash, StartOf(metadata, items)), |items|);
      CompFits(comp, |FileOf(metadata, items, hash)|) && DecodeAll(FileOf(metadata, items, hash), comp, hash) == Ok(decoded)
    ensures forall k :: 0 <= k < |items| && items[k].coded.Some? ==>
      var off := Offset(items, hash, StartOf(metadata, items), k); off in decoded && decoded[off] == items[k].Bytes()
  {
    hide FileOf;
    hide StartOf;
    hide Offset;
    hide Stowed;
    hide CompOf;
    hide DecodeAt;
    var file, start := FileOf(metadata, items, hash), StartOf(metadata, items);
    var comp := CompOf(RecordsOf(items, hash, start), |items|);
    RegionsOf(items, hash, start, |items|);
    forall off | off in comp
      ensures off + comp[off].stored <= |file| && DecodeAt(file, off, comp[off], hash).Ok?
    {
      var j := ItemOfRegion(items, hash, start, off);
      RegionDecodes(metadata, items, hash, compress, off, comp[off], j);
    }
    assert Failing(file, comp, hash) == {};
    decoded := DecodeAll(file, comp, hash).value;
    forall k | 0 <= k < |items| && items[k].coded.Some?
      ensures var off := Offset(items, hash, start, k); off in decoded && decoded[off] == items[k].Bytes()
    {
      var off := Offset(items, hash, start, k);
      assert off in comp;
      var j := ItemOfRegion(items, hash, start, off);
      RegionDecodes(metadata, items, hash, compress, off, comp[off], j);
      RegionIsShared(items, hash, compress, start, off, comp[off], j, k);
    }
  }

  // ---- tensors ----------------------------------------------------------------------------

  /** The tensors in writing order, with the offsets they got. */
  ghost function Restored(items: seq<Item>, hash: Hash, start: nat): (r: seq<Tensor>)
    ensures |r| == |items|
  {
    seq(|items|, k requires 0 <= k < |items| => items[k].tensor.(offset := Offset(items, hash, start, k)))
  }

  lemma TensorBuilt(metadata: seq<Entry>, items: seq<Item>, hash: Hash, compress: bool, decoded: map<nat, seq<byte>>, verify: bool, k: nat)
    requires Stowed(items, compress) && k < |items| && WellFormedTensor(items[k].tensor)
    requires items[k].coded.Some? ==> var off := Offset(items, hash, StartOf(metadata, items), k);
      off in decoded && decoded[off] == items[k].Bytes()
    ensures var r := RecordOf(items, hash, StartOf(metadata, items), k);
      && r.dataOffset + r.stored <= |FileOf(metadata, items, hash)| && (!IsCompressed(r) ==> r.stored == r.logical)
      && BuildTensor(FileOf(metadata, items, hash), r, decoded, verify, hash)
        == Ok(Restored(items, hash, StartOf(metadata, items))[k])
  {
    hide FileOf;
    hide StartOf;
    hide Offset;
    hide Stowed;
    hide ExpectedSize;
    StowedSize(items, compress, k);
    RegionInFile(metadata, items, hash, compress, k);
    var r := RecordOf(items, hash, StartOf(metadata, items), k);
    assert ShapeOf(r) == items[k].tensor.shape;
  }

  lemma {:induction false} TensorsBuilt(metadata: seq<Entry>, items: seq<Item>, hash: Hash, compress: bool, decoded: map<nat, seq<byte>>, verify: bool, n: nat)
    requires Stowed(items, compress) && n <= |items|
    requires forall k :: 0 <= k < |items| ==> WellFormedTensor(items[k].tensor)
    requires forall k :: 0 <= k < |items| && items[k].coded.Some? ==>
      var off := Offset(items, hash, StartOf(metadata, items), k); off in decoded && decoded[off] == items[k].Bytes()
    requires RecordsFit(RecordsOf(items, hash, StartOf(metadata, items)), |FileOf(metadata, items, hash)|)
    ensures BuildAll(FileOf(metadata, items, hash), RecordsOf(items, hash, StartOf(metadata, items)), n, decoded, verify, hash)
         == Ok(Restored(items, hash, StartOf(metadata, items))[..n])
  {
    hide FileOf;
    hide StartOf;
    hide Offset;
    hide Stowed;
    hide WellFormedTensor;
    hide BuildTensor;
    if n > 0 {
      var tensors := Restored(items, hash, StartOf(metadata, items));
      assert tensors[..n] == tensors[..n - 1] + [tensors[n - 1]];
      TensorsBuilt(metadata, items, hash, compress, decoded, verify, n - 1);
      TensorBuilt(metadata, items, hash, compress, decoded, verify, n - 1);
    }
  }

  // ---- the round trip ---------------------------------------------------------------------

  /** The model that loading the container of `items` is to give. */
  ghost function ModelOf(metadata: seq<Entry>, items: seq<Item>, hash: Hash): Loaded {
    Loaded(ALIGNMENT, metadata, Restored(items, hash, StartOf(metadata, items)))
  }

  ghost predicate ItemsWellFormed(items: seq<Item>) {
    forall k :: 0 <= k < |items| ==> WellFormedTensor(items[k].tensor)
  }

  ghost predicate EntriesWellFormed(metadata: seq<Entry>) {
    forall i :: 0 <= i < |metadata| ==> WellFormed(metadata[i].value)
  }

  lemma MetadataRead(metadata: seq<Entry>, items: seq<Item>, hash: Hash)
    requires |FileOf(metadata, items, hash)| < U64 / 2 && EntriesWellFormed(metadata)
    ensures var h := HeaderOf(metadata, items, hash);
      && SectionsOk(h, |FileOf(metadata, items, hash)|)
      && ParseEntries(FileOf(metadata, items, hash), h.metadataOffset + h.metadataSize, h.metadataOffset, h.metadataCount)
        == Ok((metadata, h.metadataOffset + h.metadataSize))
  {
    hide FileOf;
    hide ParseEntries;
    hide MetadataBytes;
    hide PoolBytes;
    hide TableBytes;
    hide HeaderBytes;
    hide Running;
    var file, h := FileOf(metadata, items, hash), HeaderOf(metadata, items, hash);
    FileParts(metadata, items, hash);
    WrittenHeaderRead(metadata, items, hash);
    EntriesRead(file, h.metadataOffset + h.metadataSize, h.metadataOffset, metadata);
  }

  lemma TensorsRead(metadata: seq<Entry>, items: seq<Item>, hash: Hash, compress: bool, verify: bool)
    requires Stowed(items, compress) && |FileOf(metadata, items, hash)| < U64 / 2 && ItemsWellFormed(items)
    requires var h := HeaderOf(metadata, items, hash); SectionsOk(h, |FileOf(metadata, items, hash)|) && TableOk(h)
    ensures var file := FileOf(metadata, items, hash);
      var h := HeaderOf(metadata, items, hash);
      var records := ParseRecords(file, h, h.tensorCount);
      && records.Ok? && RecordsFit(records.value, |file|) && CompFits(CompOf(records.value, |records.value|), |file|)
      && LoadAll(file, records.value, verify, hash) == Ok(Restored(items, hash, StartOf(metadata, items)))
  {
    hide FileOf;
    hide HeaderOf;
    hide StartOf;
    hide Offset;
    hide Stowed;
    hide WellFormedTensor;
    hide DecodeAll;
    hide BuildAll;
    hide ParseRecords;
    hide CompOf;
    hide CompFits;
    hide RecordsFit;
    var file, h := FileOf(metadata, items, hash), HeaderOf(metadata, items, hash);
    var records := RecordsOf(items, hash, StartOf(metadata, items));
    var tensors := Restored(items, hash, StartOf(metadata, items));
    HeaderCounts(metadata, items, hash);
    RecordsRead(metadata, items, hash, compress, |items|);
    assert records[..|items|] == records && tensors[..|items|] == tensors;
    ParsedRecordsFit(file, h);
    var decoded := AllRegionsDecode(metadata, items, hash, compress);
    TensorsBuilt(metadata, items, hash, compress, decoded, verify, |items|);
  }

  lemma LoadIs(file: seq<byte>, verify: bool, hash: Hash, h: Header, metadata: seq<Entry>, at: nat, tensors: seq<Tensor>)
    requires |file| < U64 / 2 && ParseHeader(file, hash) == Ok(h)
    requires ParseEntries(file, h.metadataOffset + h.metadataSize, h.metadataOffset, h.metadataCount) == Ok((metadata, at))
    requires var records := ParseRecords(file, h, h.tensorCount);
      && records.Ok? && RecordsFit(records.value, |file|) && CompFits(CompOf(records.value, |records.value|), |file|)
      && LoadAll(file, records.value, verify, hash) == Ok(tensors)
    ensures Load(file, verify, hash) == Ok(Loaded(h.alignment, metadata, tensors))
  {
    hide ParseHeader;
    hide ParseEntries;
    hide ParseRecords;
    hide LoadAll;
    hide RecordsFit;
    hide CompFits;
    hide CompOf;
  }

  /** Every well-formed model is read back: the same metadata, and the same tensors in the order of first use. */
  lemma WellFormedIsRestored(metadata: seq<Entry>, items: seq<Item>, hash: Hash, compress: bool, verify: bool)
    requires Stowed(items, compress) && |FileOf(metadata, items, hash)| < U64 / 2
    requires EntriesWellFormed(metadata) && ItemsWellFormed(items)
    ensures Load(FileOf(metadata, items, hash), verify, hash) == Ok(ModelOf(metadata, items, hash))
  {
    hide FileOf;
    hide HeaderOf;
    hide StartOf;
    hide Load;
    hide ParseHeader;
    hide ParseEntries;
    hide ParseRecords;
    hide LoadAll;
    hide Restored;
    hide RecordsFit;
    hide CompFits;
    hide CompOf;
    hide Stowed;
    hide EntriesWellFormed;
    hide ItemsWellFormed;
    hide SectionsOk;
    hide TableOk;
    var h := HeaderOf(metadata, items, hash);
    HeaderCounts(metadata, items, hash);
    WrittenHeaderRead(metadata, items, hash);
    MetadataRead(metadata, items, hash);
    TensorsRead(metadata, items, hash, compress, verify);
    LoadIs(FileOf(metadata, items, hash), verify, hash, h, metadata, h.metadataOffset + h.metadataSize,
           Restored(items, hash, StartOf(metadata, items)));
  }

  /** A tensor that is read back has a short name and the size that its record asks for. */
  lemma RestoredTensorIsWellFormed(metadata: seq<Entry>, items: seq<Item>, hash: Hash, compress: bool, decoded: map<nat, seq<byte>>,
                                   verify: bool, k: nat, r: Record)
    requires Stowed(items, compress) && k < |items| && |FileOf(metadata, items, hash)| < U64 / 2
    requires var h := HeaderOf(metadata, items, hash); SectionsOk(h, |FileOf(metadata, items, hash)|) && TableOk(h)
    requires ParseRecord(FileOf(metadata, items, hash), HeaderOf(metadata, items, hash), k) == Ok(r)
    requires BuildTensor(FileOf(metadata, items, hash), r, decoded, verify, hash) == Ok(Restored(items, hash, StartOf(metadata, items))[k])
    ensures WellFormedTensor(items[k].tensor)
  {
    hide FileOf;
    hide StartOf;
    hide Offset;
    hide Get;
    hide ExpectedSize;
    hide SectionsOk;
    hide TableOk;
    var file, h := FileOf(metadata, items, hash), HeaderOf(metadata, items, hash);
    assert r.name == items[k].tensor.name;
    NamesAreShort(file, h, k);
    StowedSize(items, compress, k);
    WrittenRecordRead(metadata, items, hash, compress, k);
    CheckPasses(metadata, items, hash, compress, k);
    assert r == RecordOf(items, hash, StartOf(metadata, items), k);
    forall d | 0 <= d < 4 && r.nDims <= d ensures items[k].tensor.shape[d] == 1 {
      assert ShapeOf(r)[d] == 1;
    }
  }

  lemma NamesAreShort(file: seq<byte>, h: Header, k: nat)
    requires h.alignment > 0 && SectionsOk(h, |file|) && TableOk(h) && k < h.tensorCount
    ensures var r := ParseRecord(file, h, k); r.Ok? ==> |r.value.name| < 0x1_0000_0000
  {
    hide Get;
    hide DimsAt;
    hide ExpectedSize;
    FieldRange(file, h.tableOffset + k * RECORD_SIZE + 8, 4);
  }

  /** Only a well-formed model is read back as it was. */
  lemma RestoredIsWellFormed(metadata: seq<Entry>, items: seq<Item>, hash: Hash, compress: bool, verify: bool)
    requires Stowed(items, compress) && |FileOf(metadata, items, hash)| < U64 / 2
    requires Load(FileOf(metadata, items, hash), verify, hash) == Ok(ModelOf(metadata, items, hash))
    ensures EntriesWellFormed(metadata) && ItemsWellFormed(items)
  {
    hide FileOf;
    hide HeaderOf;
    hide StartOf;
    hide ParseHeader;
    hide ParseEntries;
    hide ParseRecord;
    hide DecodeAll;
    hide BuildTensor;
    hide Restored;
    hide CompOf;
    hide Stowed;
    hide TableOk;
    hide WellFormedTensor;
    hide WellFormed;
    var file, h := FileOf(metadata, items, hash), HeaderOf(metadata, items, hash);
    HeaderCounts(metadata, items, hash);
    WrittenHeaderRead(metadata, items, hash);
    ReadEntriesAreWellFormed(file, h.metadataOffset + h.metadataSize, h.metadataOffset, h.metadataCount);
    ParsedRecordsFit(file, h);
    var records := ParseRecords(file, h, h.tensorCount).value;
    var decoded := DecodeAll(file, CompOf(records, |records|), hash).value;
    forall k | 0 <= k < |items| ensures WellFormedTensor(items[k].tensor) {
      assert ParseRecord(file, h, k) == Ok(records[k]);
      RestoredTensorIsWellFormed(metadata, items, hash, compress, decoded, verify, k, records[k]);
    }
  }

  /**
   * What `Convert` writes loads as the same metadata and the same tensors, in the order of first use,
   * exactly if the model is well formed; compressed or not, verified or not.
   */
  lemma RoundTripExactly(metadata: seq<Entry>, tensors: seq<Tensor>, order: seq<nat>, items: seq<Item>, compress: bool, verify: bool, hash: Hash)
    requires DbmfWriter.ItemsOf(tensors, order, compress, items) && |FileOf(metadata, items, hash)| < U64 / 2
    requires forall i :: 0 <= i < |tensors| && tensors[i].data.Some? ==> |tensors[i].data.value| < U64 / 2
    ensures Load(FileOf(metadata, items, hash), verify, hash) == Ok(ModelOf(metadata, items, hash)) <==> WellFormedModel(metadata, tensors)
  {
    hide FileOf;
    hide Load;
    hide ModelOf;
    hide WellFormed;
    hide WellFormedTensor;
    hide DbmfWriter.CodedFor;
    assert Stowed(items, compress);
    ItemsAreTensors(tensors, order, compress, items);
    if WellFormedModel(metadata, tensors) {
      WellFormedIsRestored(metadata, items, hash, compress, verify);
    }
    if Load(FileOf(metadata, items, hash), verify, hash) == Ok(ModelOf(metadata, items, hash)) {
      RestoredIsWellFormed(metadata, items, hash, compress, verify);
    }
  }

  lemma ItemsAreTensors(tensors: seq<Tensor>, order: seq<nat>, compress: bool, items: seq<Item>)
    requires DbmfWriter.ItemsOf(tensors, order, compress, items)
    ensures ItemsWellFormed(items) <==> forall i :: 0 <= i < |tensors| ==> WellFormedTensor(tensors[i])
  {
    hide WellFormedTensor;
    hide DbmfWriter.CodedFor;
    if ItemsWellFormed(items) {
      forall i: nat | i < |tensors| ensures WellFormedTensor(tensors[i]) {
        assert i in order;
        var k :| 0 <= k < |order| && order[k] == i;
        assert items[k].tensor == tensors[i];
      }
    }
  }
}
