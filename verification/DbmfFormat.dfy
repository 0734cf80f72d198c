/**
 * The container format: a header with a checksum of its own, metadata, the pool of tensor names, a
 * table of fixed-size records, and page-aligned tensor data.
 */
module DbmfFormat {
  import opened Results
  import opened Arith
  import opened LittleEndian
  import opened ByteStreams
  import opened GgufMetadata
  import opened DbmfLayout

  const MAGIC: nat := 0x464D_4244
  const VERSION: nat := 1
  const HEADER_SIZE: nat := 128
  const RECORD_SIZE: nat := 128
  const COMPRESSED: nat := 1
  const F16: nat := 1

  datatype Entry = Entry(key: seq<byte>, value: MetaValue)

  datatype Header = Header(alignment: nat, flags: nat, tensorCount: nat, metadataCount: nat,
                           metadataOffset: nat, metadataSize: nat, poolOffset: nat, poolSize: nat,
                           tableOffset: nat, tableSize: nat, dataOffset: nat, fileSize: nat)

  datatype Record = Record(name: seq<byte>, kind: Word32, nDims: Word32, flags: nat, dims: Shape,
                           dataOffset: nat, logical: nat, stored: nat, xxh: nat)

  // ---- bytes of the sections ------------------------------------------------------------

  function HeaderSections(h: Header): (r: seq<byte>)
    ensures |r| == 48
  {
    Put(h.poolOffset, 8) + (Put(h.poolSize, 8) + (Put(h.tableOffset, 8) + (Put(h.tableSize, 8)
    + (Put(h.dataOffset, 8) + Put(h.fileSize, 8)))))
  }

  function HeaderStart(h: Header): (r: seq<byte>)
    ensures |r| == 48
  {
    Put(MAGIC, 4) + (Put(VERSION, 4) + (Put(h.alignment, 4) + (Put(h.flags, 4)
    + (Put(h.tensorCount, 8) + (Put(h.metadataCount, 8)
    + (Put(h.metadataOffset, 8) + Put(h.metadataSize, 8)))))))
  }

  function HeaderFields(h: Header): (r: seq<byte>)
    ensures |r| == 96
  {
    HeaderStart(h) + HeaderSections(h)
  }

  function HeaderBytes(h: Header, hash: Hash): (r: seq<byte>)
    ensures |r| == HEADER_SIZE
  {
    HeaderFields(h) + (Put(hash(HeaderFields(h)), 8) + Zeros(24))
  }

  function DimBytes(dims: Shape): (r: seq<byte>)
    ensures |r| == 32
  {
    Put(dims[0], 8) + (Put(dims[1], 8) + (Put(dims[2], 8) + Put(dims[3], 8)))
  }

  function RecordBytes(nameOffset: nat, r: Record): (b: seq<byte>)
    ensures |b| == RECORD_SIZE
  {
    Put(nameOffset, 8) + (Put(|r.name|, 4) + (Put(r.kind, 4) + (Put(r.nDims, 4) + (Put(r.flags, 4)
    + (DimBytes(r.dims) + (Put(r.dataOffset, 8) + (Put(r.logical, 8) + (Put(r.stored, 8)
    + (Put(r.xxh, 8) + Zeros(40))))))))))
  }

  function EntryBytes(e: Entry): (r: seq<byte>) {
    TextBytes(e.key) + (Put(TypeOf(e.value), 4) + MetaBytes(e.value))
  }

  function MetadataBytes(entries: seq<Entry>): seq<byte> {
    if entries == [] then [] else MetadataBytes(entries[..|entries| - 1]) + EntryBytes(entries[|entries| - 1])
  }

  /** The names of the first `k` items. */
  function PoolBytes(items: seq<Item>, k: nat): seq<byte>
    requires k <= |items|
  {
    if k == 0 then [] else PoolBytes(items, k - 1) + items[k - 1].tensor.name
  }

  function RecordOf(items: seq<Item>, hash: Hash, start: nat, k: nat): Record
    requires k < |items|
  {
    var t := items[k].tensor;
    Record(t.name, t.kind, t.nDims, if items[k].coded.Some? then COMPRESSED else 0, t.shape,
           Offset(items, hash, start, k), |items[k].Bytes()|, |items[k].Stored()|, hash(items[k].Bytes()))
  }

  function TableBytes(items: seq<Item>, hash: Hash, start: nat, k: nat): (r: seq<byte>)
    requires k <= |items|
    ensures |r| == k * RECORD_SIZE
  {
    if k == 0 then []
    else TableBytes(items, hash, start, k - 1) + RecordBytes(|PoolBytes(items, k - 1)|, RecordOf(items, hash, start, k - 1))
  }

  // ---- the whole file -------------------------------------------------------------------

  function DataOffset(metadataSize: nat, poolSize: nat, tensorCount: nat): nat {
    AlignUp(HEADER_SIZE + metadataSize + poolSize + RECORD_SIZE * tensorCount, ALIGNMENT)
  }

  function StartOf(metadata: seq<Entry>, items: seq<Item>): nat {
    DataOffset(|MetadataBytes(metadata)|, |PoolBytes(items, |items|)|, |items|)
  }

  ghost predicate AnyCoded(items: seq<Item>) {
    exists k :: 0 <= k < |items| && items[k].coded.Some?
  }

  ghost function HeaderOf(metadata: seq<Entry>, items: seq<Item>, hash: Hash): Header {
    var metadataSize := |MetadataBytes(metadata)|;
    var poolSize := |PoolBytes(items, |items|)|;
    var start := StartOf(metadata, items);
    Header(ALIGNMENT, if AnyCoded(items) then COMPRESSED else 0, |items|, |metadata|,
           HEADER_SIZE, metadataSize, HEADER_SIZE + metadataSize, poolSize,
           HEADER_SIZE + metadataSize + poolSize, RECORD_SIZE * |items|, start,
           Running(items, hash, start, |items|))
  }

  ghost function HeadOf(metadata: seq<Entry>, items: seq<Item>, hash: Hash): seq<byte> {
    HeaderBytes(HeaderOf(metadata, items, hash), hash) + MetadataBytes(metadata) + PoolBytes(items, |items|)
    + TableBytes(items, hash, StartOf(metadata, items), |items|)
  }

  /** The container of `metadata` and of `items`, which are in writing order. */
  ghost function FileOf(metadata: seq<Entry>, items: seq<Item>, hash: Hash): seq<byte> {
    Written(HeadOf(metadata, items, hash), items, hash, StartOf(metadata, items), |items|)
  }

  /** The file is as long as its header says, and begins with the sections one after the other. */
  lemma FileParts(metadata: seq<Entry>, items: seq<Item>, hash: Hash)
    ensures var file := FileOf(metadata, items, hash);
      var h := HeaderOf(metadata, items, hash);
      && |file| == h.fileSize && h.tableOffset + h.tableSize <= h.dataOffset <= |file|
      && Places(file, 0, HeaderBytes(h, hash))
      && Places(file, h.metadataOffset, MetadataBytes(metadata))
      && Places(file, h.poolOffset, PoolBytes(items, |items|))
      && Places(file, h.tableOffset, TableBytes(items, hash, h.dataOffset, |items|))
  {
    hide HeaderBytes;
    hide MetadataBytes;
    hide PoolBytes;
    hide TableBytes;
    hide Running;
    hide Written;
    var file := FileOf(metadata, items, hash);
    var h := HeaderOf(metadata, items, hash);
    var head := HeadOf(metadata, items, hash);
    AlignUpIs(h.tableOffset + h.tableSize);
    WrittenLength(head, items, hash, h.dataOffset, |items|);
    var toPool := HeaderBytes(h, hash) + MetadataBytes(metadata);
    PlacesBoth(file, 0, toPool + PoolBytes(items, |items|), TableBytes(items, hash, h.dataOffset, |items|));
    PlacesBoth(file, 0, toPool, PoolBytes(items, |items|));
    PlacesBoth(file, 0, HeaderBytes(h, hash), MetadataBytes(metadata));
  }

  /** Record `k` and its name are where the reader looks for them. */
  lemma {:induction false} RecordPlaced(file: seq<byte>, items: seq<Item>, hash: Hash, start: nat, at: nat, k: nat, n: nat)
    requires k < n <= |items| && Places(file, at, TableBytes(items, hash, start, n))
    ensures Places(file, at + k * RECORD_SIZE, RecordBytes(|PoolBytes(items, k)|, RecordOf(items, hash, start, k)))
    decreases n
  {
    hide RecordBytes;
    hide RecordOf;
    hide PoolBytes;
    PlacesBoth(file, at, TableBytes(items, hash, start, n - 1),
               RecordBytes(|PoolBytes(items, n - 1)|, RecordOf(items, hash, start, n - 1)));
    if k < n - 1 {
      RecordPlaced(file, items, hash, start, at, k, n - 1);
    }
  }

  lemma {:induction false} NamePlaced(file: seq<byte>, items: seq<Item>, at: nat, k: nat, n: nat)
    requires k < n <= |items| && Places(file, at, PoolBytes(items, n))
    ensures Places(file, at + |PoolBytes(items, k)|, items[k].tensor.name)
    ensures |PoolBytes(items, k)| + |items[k].tensor.name| <= |PoolBytes(items, n)|
    decreases n
  {
    PlacesBoth(file, at, PoolBytes(items, n - 1), items[n - 1].tensor.name);
    if k < n - 1 {
      NamePlaced(file, items, at, k, n - 1);
    }
  }
}
