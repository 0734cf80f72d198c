/** What the reader accepts, and what the checksums of a container detect. Record `k` of the table is at `Field(file, 64, 8) + 128 * k`. */
module DbmfIntegrity {
  import opened Results
  import opened Arith
  import opened LittleEndian
  import opened ByteStreams
  import opened GgufMetadata
  import HuffmanCodec
  import opened DbmfLayout
  import opened DbmfFormat
  import opened DbmfReader

  // ---- header -----------------------------------------------------------------------------------

  /** What loads has an intact header, with or without verification. */
  lemma HeaderIsIntact(file: seq<byte>, verify: bool, hash: Hash)
    requires |file| < U64 / 2 && Load(file, verify, hash).Ok?
    ensures |file| >= 128 && Field(file, 0, 4) == 0x464D4244 && Field(file, 4, 4) == 1
    ensures hash(file[..96]) == Field(file, 96, 8)
    ensures Load(file, verify, hash).value.alignment == Field(file, 8, 4)
    ensures |Load(file, verify, hash).value.metadata| == Field(file, 24, 8)
    ensures |Load(file, verify, hash).value.tensors| == Field(file, 16, 8)
    ensures Field(file, 64, 8) + 128 * Field(file, 16, 8) <= |file|
  {
    hide PowerOfTwo;
    hide ParseEntry;
    hide ParseRecord;
    hide DecodeAll;
    hide BuildTensor;
    hide CompOf;
    hide Get;
  }

  /** The tests of the header, in their order, and what it holds at which offset. */
  lemma HeaderTests(file: seq<byte>, hash: Hash)
    ensures ParseHeader(file, hash) ==
      if |file| < 128 then Err(TooSmall)
      else if Field(file, 0, 4) != 0x464D4244 then Err(Magic)
      else if Field(file, 4, 4) != 1 then Err(Version)
      else if !exists n: nat :: Field(file, 8, 4) == Pow2(n) then Err(Alignment)
      else if hash(file[..96]) != Field(file, 96, 8) then Err(HeaderChecksum)
      else if Field(file, 88, 8) > |file| then Err(FileSize)
      else if || U64 <= Field(file, 32, 8) + Field(file, 40, 8) || |file| < Field(file, 32, 8) + Field(file, 40, 8)
              || U64 <= Field(file, 48, 8) + Field(file, 56, 8) || |file| < Field(file, 48, 8) + Field(file, 56, 8)
              || U64 <= Field(file, 64, 8) + Field(file, 72, 8) || |file| < Field(file, 64, 8) + Field(file, 72, 8)
              || |file| < Field(file, 80, 8) then Err(Section)
      else if U64 <= 128 * Field(file, 16, 8) || Field(file, 72, 8) < 128 * Field(file, 16, 8) then Err(Table)
      else Ok(Header(Field(file, 8, 4), Field(file, 12, 4), Field(file, 16, 8), Field(file, 24, 8),
                     Field(file, 32, 8), Field(file, 40, 8), Field(file, 48, 8), Field(file, 56, 8),
                     Field(file, 64, 8), Field(file, 72, 8), Field(file, 80, 8), Field(file, 88, 8)))
  {
    hide Get;
    hide PowerOfTwo;
    if |file| >= 128 {
      PowerOfTwoIs(Field(file, 8, 4));
    }
  }

  // ---- records ----------------------------------------------------------------------------------

  /** A block of a quantised type: its scales and minima, then its packed bits. */
  lemma BlockSizes()
    ensures BlockOf(0) == Some((1, 4)) && BlockOf(1) == Some((1, 2)) && BlockOf(30) == Some((1, 2))
    ensures BlockOf(24) == Some((1, 1)) && BlockOf(25) == Some((1, 2)) && BlockOf(26) == Some((1, 4))
    ensures BlockOf(27) == Some((1, 8)) && BlockOf(28) == Some((1, 8))
    ensures BlockOf(2) == Some((32, 2 + 32 * 4 / 8)) && BlockOf(3) == Some((32, 2 * 2 + 32 * 4 / 8))
    ensures BlockOf(6) == Some((32, 2 + 32 * 5 / 8)) && BlockOf(7) == Some((32, 2 * 2 + 32 * 5 / 8))
    ensures BlockOf(8) == Some((32, 2 + 32)) && BlockOf(9) == Some((32, 2 * 2 + 32))
    ensures BlockOf(10) == Some((256, 2 * 2 + 256 / 16 + 256 * 2 / 8)) && BlockOf(11) == Some((256, 2 + 12 + 256 * 3 / 8))
    ensures BlockOf(12) == Some((256, 2 * 2 + 12 + 256 * 4 / 8)) && BlockOf(13) == Some((256, 2 * 2 + 12 + 256 * 5 / 8))
    ensures BlockOf(14) == Some((256, 2 + 256 / 16 + 256 * 6 / 8)) && BlockOf(15) == Some((256, 4 + 256 + 256 / 16 * 2))
    ensures forall kind: Word32 :: kind in {4, 5} || 16 <= kind <= 23 || kind == 29 || kind > 30 ==> BlockOf(kind).None?
  {
  }

  /** A tensor has whole blocks, of at most four dimensions, and neither its elements nor its bytes overflow a word. */
  lemma ExpectedSizeIs(kind: Word32, nDims: Word32, dims: Shape, size: nat)
    ensures ExpectedSize(kind, nDims, dims) == Ok(size) <==>
      && BlockOf(kind).Some? && 1 <= nDims <= 4
      && var d: seq<int> := dims;
         var two := if nDims > 1 then d[0] * d[1] else d[0];
         var three := if nDims > 2 then two * d[2] else two;
         var all := if nDims > 3 then three * d[3] else three;
         var (block, bytes) := BlockOf(kind).value;
         && two < U64 && three < U64 && all < U64
         && all % block == 0 && size == all / block * bytes < U64
  {
    hide BlockOf;
    ElementsOne(dims);
    ElementsNext(dims, 1);
    ElementsNext(dims, 2);
    ElementsNext(dims, 3);
    hide ElementCount;
  }

  lemma ElementsOne(dims: Shape)
    ensures ElementCount(dims, 1) == Some(dims[0])
  {
    assert ElementCount(dims, 0) == Some(1);
  }

  lemma ElementsNext(dims: Shape, n: nat)
    requires n < 4
    ensures ElementCount(dims, n + 1)
         == if ElementCount(dims, n).Some? && ElementCount(dims, n).value * dims[n] < U64
            then Some(ElementCount(dims, n).value * dims[n]) else None
  {
  }

  /** When a record is accepted, and what it holds at which offset. */
  lemma RecordTests(file: seq<byte>, h: Header, k: nat)
    requires |file| < U64 && h.alignment > 0 && SectionsOk(h, |file|) && TableOk(h) && k < h.tensorCount
    ensures var at := h.tableOffset + 128 * k;
      at + 128 <= |file|
    ensures var at := h.tableOffset + 128 * k;
      var kind, nDims, flags := Field(file, at + 12, 4), Field(file, at + 16, 4), Field(file, at + 20, 4);
      var logical, stored := Field(file, at + 64, 8), Field(file, at + 72, 8);
      && kind < 0x1_0000_0000 && nDims < 0x1_0000_0000
      && (ParseRecord(file, h, k).Ok? <==>
          && Field(file, at, 8) + Field(file, at + 8, 4) <= h.poolSize
          && ExpectedSize(kind, nDims, DimsAt(file, at + 24)) == Ok(logical)
          && Field(file, at + 56, 8) % h.alignment == 0 && Field(file, at + 56, 8) + stored <= |file|
          && (if flags % 2 == 1 then kind == 1 else stored == logical))
      && (ParseRecord(file, h, k).Ok? ==> var r := ParseRecord(file, h, k).value;
          && h.poolOffset + Field(file, at, 8) + Field(file, at + 8, 4) <= |file|
          && r.name == file[h.poolOffset + Field(file, at, 8)..h.poolOffset + Field(file, at, 8) + Field(file, at + 8, 4)]
          && r.kind == kind && r.nDims == nDims && r.flags == flags
          && r.dims == [Field(file, at + 24, 8), Field(file, at + 32, 8), Field(file, at + 40, 8), Field(file, at + 48, 8)]
          && r.dataOffset == Field(file, at + 56, 8) && r.logical == logical && r.stored == stored
          && r.xxh == Field(file, at + 80, 8))
  {
    hide Get;
    hide ExpectedSize;
    var at := h.tableOffset + 128 * k;
    assert at + 128 <= |file|;
    FieldRange(file, at + 12, 4);
    FieldRange(file, at + 16, 4);
  }

  /** A header that does not have its own checksum is refused. */
  lemma DamagedHeaderIsRefused(file: seq<byte>, verify: bool, hash: Hash, n: nat)
    requires 128 <= |file| < U64 / 2 && Field(file, 0, 4) == 0x464D4244 && Field(file, 4, 4) == 1
    requires Field(file, 8, 4) == Pow2(n)
    requires hash(file[..96]) != Field(file, 96, 8)
    ensures Load(file, verify, hash) == Err(HeaderChecksum)
  {
    hide PowerOfTwo;
    hide Get;
    PowerOfTwoIs(Field(file, 8, 4));
  }

  // ---- tensors stored as they are ---------------------------------------------------------------

  lemma TensorVerified(file: seq<byte>, r: Record, decoded: map<nat, seq<byte>>, hash: Hash)
    requires r.dataOffset + r.stored <= |file| && (!IsCompressed(r) ==> r.stored == r.logical)
    requires BuildTensor(file, r, decoded, false, hash).Ok?
    ensures var t := BuildTensor(file, r, decoded, false, hash).value;
      && t.data.Some?
      && BuildTensor(file, r, decoded, true, hash)
        == if r.flags % 2 == 0 && hash(t.data.value) != r.xxh then Err(TensorChecksum) else Ok(t)
  {
  }

  lemma {:induction false} BuildVerified(file: seq<byte>, records: seq<Record>, n: nat, decoded: map<nat, seq<byte>>, hash: Hash)
    requires RecordsFit(records, |file|) && n <= |records|
    requires BuildAll(file, records, n, decoded, false, hash).Ok?
    ensures var ts := BuildAll(file, records, n, decoded, false, hash).value;
      && (forall k :: 0 <= k < n ==> ts[k].data.Some?)
      && BuildAll(file, records, n, decoded, true, hash)
        == if forall k :: 0 <= k < n && records[k].flags % 2 == 0 ==> hash(ts[k].data.value) == records[k].xxh
           then Ok(ts) else Err(TensorChecksum)
  {
    hide BuildTensor;
    if n > 0 {
      BuildVerified(file, records, n - 1, decoded, hash);
      TensorVerified(file, records[n - 1], decoded, hash);
      var before := BuildAll(file, records, n - 1, decoded, false, hash).value;
      var ts := BuildAll(file, records, n, decoded, false, hash).value;
      assert forall k :: 0 <= k < n - 1 ==> ts[k] == before[k];
    }
  }

  lemma {:induction false} VerifiedIsBuilt(file: seq<byte>, records: seq<Record>, n: nat, decoded: map<nat, seq<byte>>, hash: Hash)
    requires RecordsFit(records, |file|) && n <= |records|
    requires BuildAll(file, records, n, decoded, true, hash).Ok?
    ensures BuildAll(file, records, n, decoded, false, hash) == BuildAll(file, records, n, decoded, true, hash)
  {
    if n > 0 {
      VerifiedIsBuilt(file, records, n - 1, decoded, hash);
    }
  }

  /** The fields of a record that loading keeps. */
  lemma RecordFields(file: seq<byte>, h: Header, k: nat)
    requires h.alignment > 0 && SectionsOk(h, |file|) && TableOk(h) && k < h.tensorCount
    ensures var at := h.tableOffset + 128 * k;
      && at + 128 <= |file|
      && (ParseRecord(file, h, k).Ok? ==> var r := ParseRecord(file, h, k).value;
          && r.flags == Field(file, at + 20, 4) && r.dataOffset == Field(file, at + 56, 8)
          && r.logical == Field(file, at + 64, 8) && r.stored == Field(file, at + 72, 8) && r.xxh == Field(file, at + 80, 8))
  {
    hide Get;
    hide DimsAt;
    hide ExpectedSize;
  }

  lemma HeaderFields(file: seq<byte>, hash: Hash)
    requires ParseHeader(file, hash).Ok?
    ensures |file| >= 128
    ensures var h := ParseHeader(file, hash).value; h.tableOffset == Field(file, 64, 8) && h.tensorCount == Field(file, 16, 8)
  {
    hide Get;
    hide PowerOfTwo;
  }

  /** A loaded tensor: its description is that of its record, and if it is not compressed its data is the region. */
  lemma TensorIs(file: seq<byte>, r: Record, decoded: map<nat, seq<byte>>, verify: bool, hash: Hash)
    requires r.dataOffset + r.stored <= |file| && (!IsCompressed(r) ==> r.stored == r.logical)
    requires BuildTensor(file, r, decoded, verify, hash).Ok?
    ensures var t := BuildTensor(file, r, decoded, verify, hash).value;
      && t.name == r.name && t.kind == r.kind && t.nDims == r.nDims && t.offset == r.dataOffset
      && (forall d :: 0 <= d < 4 ==> t.shape[d] == if d < r.nDims then r.dims[d] else 1)
      && (r.flags % 2 == 0 ==> r.dataOffset + r.logical <= |file| && t.data == Some(file[r.dataOffset..r.dataOffset + r.logical]))
      && (r.flags % 2 == 1 ==> r.dataOffset in decoded && t.data == Some(decoded[r.dataOffset]))
  {
  }

  /** The tensors of what loads are those of the table, in its order. */
  lemma LoadedTensor(file: seq<byte>, verify: bool, hash: Hash, k: nat)
    requires |file| < U64 / 2 && Load(file, verify, hash).Ok?
    requires 128 <= |file| && Field(file, 64, 8) + 128 * Field(file, 16, 8) <= |file| && k < Field(file, 16, 8)
    ensures |Load(file, verify, hash).value.tensors| == Field(file, 16, 8)
    ensures var t := Load(file, verify, hash).value.tensors[k];
      var at := Field(file, 64, 8) + 128 * k;
      var name, off := Field(file, 48, 8) + Field(file, at, 8), Field(file, at + 56, 8);
      && name + Field(file, at + 8, 4) <= |file| && t.name == file[name..name + Field(file, at + 8, 4)]
      && t.kind == Field(file, at + 12, 4) && t.nDims == Field(file, at + 16, 4) && t.offset == off
      && t.shape[0] == (if t.nDims > 0 then Field(file, at + 24, 8) else 1)
      && t.shape[1] == (if t.nDims > 1 then Field(file, at + 32, 8) else 1)
      && t.shape[2] == (if t.nDims > 2 then Field(file, at + 40, 8) else 1)
      && t.shape[3] == (if t.nDims > 3 then Field(file, at + 48, 8) else 1)
      && (Field(file, at + 20, 4) % 2 == 0 ==>
          off + Field(file, at + 64, 8) <= |file| && t.data == Some(file[off..off + Field(file, at + 64, 8)]))
  {
    hide ParseEntries;
    hide ParseRecord;
    hide BuildTensor;
    hide DecodeAll;
    hide CompOf;
    hide Get;
    hide ParseRecords;
    hide BuildAll;
    hide RecordsFit;
    HeaderTests(file, hash);
    hide ParseHeader;
    var h := ParseHeader(file, hash).value;
    var records := ParseRecords(file, h, h.tensorCount).value;
    ParsedRecordsFit(file, h);
    RecordTests(file, h, k);
    TensorIs(file, records[k], DecodeAll(file, CompOf(records, |records|), hash).value, verify, hash);
  }

  lemma {:induction false} LoadedVerified(file: seq<byte>, records: seq<Record>, hash: Hash)
    requires |file| < U64 / 2 && RecordsFit(records, |file|) && CompFits(CompOf(records, |records|), |file|)
    requires LoadAll(file, records, false, hash).Ok?
    ensures var ts := LoadAll(file, records, false, hash).value;
      && |ts| == |records|
      && (forall k :: 0 <= k < |ts| ==> ts[k].data.Some?)
      && LoadAll(file, records, true, hash)
        == if forall k :: 0 <= k < |ts| && records[k].flags % 2 == 0 ==> hash(ts[k].data.value) == records[k].xxh
           then Ok(ts) else Err(TensorChecksum)
  {
    hide DecodeAll;
    hide CompOf;
    BuildVerified(file, records, |records|, DecodeAll(file, CompOf(records, |records|), hash).value, hash);
  }

  /**
   * The option to verify. What loads without it loads with it to the same model if every tensor that is stored as
   * it is has the hash in its record, and otherwise fails with the error of tensor checksums.
   */
  lemma {:induction false} VerifyChecksRawTensors(file: seq<byte>, hash: Hash)
    requires |file| < U64 / 2 && Load(file, false, hash).Ok?
    ensures |file| >= 128
    ensures var ts := Load(file, false, hash).value.tensors;
      && (forall k :: 0 <= k < |ts| ==> ts[k].data.Some? && Field(file, 64, 8) + 128 * k + 128 <= |file|)
      && Load(file, true, hash)
        == if forall k :: 0 <= k < |ts| && Field(file, Field(file, 64, 8) + 128 * k + 20, 4) % 2 == 0
                          ==> hash(ts[k].data.value) == Field(file, Field(file, 64, 8) + 128 * k + 80, 8)
           then Load(file, false, hash) else Err(TensorChecksum)
  {
    hide ParseHeader;
    hide ParseEntries;
    hide ParseRecord;
    hide LoadAll;
    hide CompOf;
    hide CompFits;
    hide RecordsFit;
    hide Get;
    HeaderFields(file, hash);
    var h := ParseHeader(file, hash).value;
    var records := ParseRecords(file, h, h.tensorCount).value;
    ParsedRecordsFit(file, h);
    LoadedVerified(file, records, hash);
    forall k | 0 <= k < |records|
      ensures Field(file, 64, 8) + 128 * k + 128 <= |file|
      ensures records[k].flags == Field(file, Field(file, 64, 8) + 128 * k + 20, 4)
      ensures records[k].xxh == Field(file, Field(file, 64, 8) + 128 * k + 80, 8)
    {
      RecordFields(file, h, k);
    }
  }

  /** Whatever loads with verification loads without it to the same model. */
  lemma VerifiedLoads(file: seq<byte>, hash: Hash)
    requires |file| < U64 / 2 && Load(file, true, hash).Ok?
    ensures Load(file, false, hash) == Load(file, true, hash)
  {
    hide ParseHeader;
    hide ParseEntries;
    hide ParseRecord;
    hide DecodeAll;
    hide BuildAll;
    hide CompOf;
    var h := ParseHeader(file, hash).value;
    var records := ParseRecords(file, h, h.tensorCount).value;
    ParsedRecordsFit(file, h);
    VerifiedIsBuilt(file, records, |records|, DecodeAll(file, CompOf(records, |records|), hash).value, hash);
  }

  // ---- compressed tensors -----------------------------------------------------------------------

  /** The first of the compressed records at an offset. */
  ghost predicate FirstAt(records: seq<Record>, j: nat, off: nat) {
    && j < |records| && records[j].flags % 2 == 1 && records[j].dataOffset == off
    && forall i :: 0 <= i < j ==> !(records[i].flags % 2 == 1 && records[i].dataOffset == off)
  }

  lemma {:induction false} CompOfFirst(records: seq<Record>, n: nat, off: nat)
    requires n <= |records|
    ensures off in CompOf(records, n) <==> exists j: nat :: j < n && FirstAt(records, j, off)
    ensures forall j: nat :: j < n && FirstAt(records, j, off) ==>
      off in CompOf(records, n) && CompOf(records, n)[off] == CompInfo(records[j].logical, records[j].stored, records[j].xxh)
  {
    if n > 0 {
      CompOfFirst(records, n - 1, off);
      if off !in CompOf(records, n - 1) && records[n - 1].flags % 2 == 1 && records[n - 1].dataOffset == off {
        NoneFirst(records, n - 1, off);
        assert FirstAt(records, n - 1, off);
      }
    }
  }

  /** If no record is the first at an offset there is none at it. */
  lemma {:induction false} NoneFirst(records: seq<Record>, n: nat, off: nat)
    requires n <= |records| && forall j: nat :: j < n ==> !FirstAt(records, j, off)
    ensures forall i :: 0 <= i < n ==> !(records[i].flags % 2 == 1 && records[i].dataOffset == off)
  {
    if n > 0 {
      NoneFirst(records, n - 1, off);
      assert !FirstAt(records, n - 1, off);
    }
  }

  lemma {:induction false} RegionsIntact(file: seq<byte>, records: seq<Record>, verify: bool, hash: Hash, k: nat, j: nat)
    requires |file| < U64 / 2 && RecordsFit(records, |file|) && CompFits(CompOf(records, |records|), |file|)
    requires k < |records| && records[k].flags % 2 == 1 && FirstAt(records, j, records[k].dataOffset)
    requires LoadAll(file, records, verify, hash).Ok?
    ensures LoadAll(file, records, verify, hash).value[k].data.Some?
    ensures hash(LoadAll(file, records, verify, hash).value[k].data.value) == records[j].xxh
  {
    hide CompOf;
    hide HuffmanCodec.Decompressed;
    hide Least;
    var off, comp := records[k].dataOffset, CompOf(records, |records|);
    CompOfFirst(records, |records|, off);
    var decoded := DecodeAll(file, comp, hash).value;
    var ts := BuildAll(file, records, |records|, decoded, verify, hash).value;
    assert BuildTensor(file, records[k], decoded, verify, hash) == Ok(ts[k]);
    assert off in decoded && off in comp && off !in Failing(file, comp, hash);
  }

  /**
   * Whatever loads, verified or not, has compressed tensors with intact hashes: the data of a compressed tensor has
   * the hash in its own record if no compressed record before it shares its offset, and in the first of those if any.
   */
  lemma CompressedAreChecked(file: seq<byte>, verify: bool, hash: Hash, k: nat, j: nat)
    requires |file| < U64 / 2 && Load(file, verify, hash).Ok?
    requires 128 <= |file| && Field(file, 64, 8) + 128 * Field(file, 16, 8) <= |file| && j <= k < Field(file, 16, 8)
    requires Field(file, Field(file, 64, 8) + 128 * k + 20, 4) % 2 == 1 == Field(file, Field(file, 64, 8) + 128 * j + 20, 4) % 2
    requires Field(file, Field(file, 64, 8) + 128 * k + 56, 8) == Field(file, Field(file, 64, 8) + 128 * j + 56, 8)
    requires forall i :: 0 <= i < j ==>
      !(Field(file, Field(file, 64, 8) + 128 * i + 20, 4) % 2 == 1
        && Field(file, Field(file, 64, 8) + 128 * i + 56, 8) == Field(file, Field(file, 64, 8) + 128 * k + 56, 8))
    ensures |Load(file, verify, hash).value.tensors| == Field(file, 16, 8)
    ensures Load(file, verify, hash).value.tensors[k].data.Some?
    ensures hash(Load(file, verify, hash).value.tensors[k].data.value) == Field(file, Field(file, 64, 8) + 128 * j + 80, 8)
  {
    hide ParseHeader;
    hide ParseEntries;
    hide ParseRecord;
    hide LoadAll;
    hide CompOf;
    hide Get;
    HeaderIsIntact(file, verify, hash);
    HeaderFields(file, hash);
    var h := ParseHeader(file, hash).value;
    var records := ParseRecords(file, h, h.tensorCount).value;
    ParsedRecordsFit(file, h);
    RecordFields(file, h, k);
    RecordFields(file, h, j);
    forall i | 0 <= i < j ensures !(records[i].flags % 2 == 1 && records[i].dataOffset == records[k].dataOffset) {
      RecordFields(file, h, i);
    }
    RegionsIntact(file, records, verify, hash, k, j);
  }

  /**
   * A compressed region that decodes to something without the hash in its record is refused, if all regions before it
   * are intact.
   */
  lemma {:induction false} DamagedRegionIsRefused(file: seq<byte>, verify: bool, hash: Hash, h: Header, records: seq<Record>, k: nat, raw: seq<byte>)
    requires |file| < U64 / 2 && ParseHeader(file, hash) == Ok(h)
    requires ParseEntries(file, h.metadataOffset + h.metadataSize, h.metadataOffset, h.metadataCount).Ok?
    requires ParseRecords(file, h, h.tensorCount) == Ok(records)
    requires forall i :: 0 <= i < |records| ==> records[i].dataOffset + records[i].stored <= |file|
    requires k < |records| && records[k].logical > 0 && FirstAt(records, k, records[k].dataOffset)
    requires HuffmanCodec.Decompressed(file[records[k].dataOffset..records[k].dataOffset + records[k].stored], records[k].logical) == Ok(raw)
    requires hash(raw) != records[k].xxh
    requires forall j: nat :: j < |records| && FirstAt(records, j, records[j].dataOffset) && records[j].dataOffset < records[k].dataOffset ==>
      var d := HuffmanCodec.Decompressed(file[records[j].dataOffset..records[j].dataOffset + records[j].stored], records[j].logical);
      d.Ok? && hash(d.value) == records[j].xxh
    ensures Load(file, verify, hash) == Err(DecodedChecksum)
  {
    hide ParseHeader;
    hide ParseEntries;
    hide ParseRecords;
    hide CompOf;
    hide DecodeAll;
    hide RecordsFit;
    hide CompFits;
    hide HuffmanCodec.Decompressed;
    ParsedRecordsFit(file, h);
    DamagedDecode(file, records, hash, k, raw);
  }

  lemma {:induction false} DamagedDecode(file: seq<byte>, records: seq<Record>, hash: Hash, k: nat, raw: seq<byte>)
    requires |file| < U64 / 2 && CompFits(CompOf(records, |records|), |file|)
    requires forall i :: 0 <= i < |records| ==> records[i].dataOffset + records[i].stored <= |file|
    requires k < |records| && records[k].logical > 0 && FirstAt(records, k, records[k].dataOffset)
    requires HuffmanCodec.Decompressed(file[records[k].dataOffset..records[k].dataOffset + records[k].stored], records[k].logical) == Ok(raw)
    requires hash(raw) != records[k].xxh
    requires forall j: nat :: j < |records| && FirstAt(records, j, records[j].dataOffset) && records[j].dataOffset < records[k].dataOffset ==>
      var d := HuffmanCodec.Decompressed(file[records[j].dataOffset..records[j].dataOffset + records[j].stored], records[j].logical);
      d.Ok? && hash(d.value) == records[j].xxh
    ensures DecodeAll(file, CompOf(records, |records|), hash) == Err(DecodedChecksum)
  {
    hide CompOf;
    hide HuffmanCodec.Decompressed;
    hide FirstAt;
    var off, comp := records[k].dataOffset, CompOf(records, |records|);
    CompOfFirst(records, |records|, off);
    var failing := Failing(file, comp, hash);
    assert off in failing;
    forall x | x in failing ensures x >= off {
      CompOfFirst(records, |records|, x);
      var j: nat :| j < |records| && FirstAt(records, j, x);
      FirstIsAt(records, j, x);
    }
    assert Least(failing) == off;
  }

  lemma FirstIsAt(records: seq<Record>, j: nat, off: nat)
    requires FirstAt(records, j, off)
    ensures j < |records| && records[j].dataOffset == off
  {
  }
}
