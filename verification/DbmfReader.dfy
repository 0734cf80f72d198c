/** Loading of a container, with every field checked against the size of the file. */
module DbmfReader {
  import opened Results
  import opened Arith
  import opened LittleEndian
  import opened ByteStreams
  import opened GgufMetadata
  import HuffmanStream
  import HuffmanCodec
  import opened DbmfLayout
  import opened DbmfFormat

  datatype ReadError = TooSmall | Magic | Version | Alignment | HeaderChecksum | FileSize | Section | Table
                     | Metadata(meta: MetaError) | MetadataType
                     | NameRange | UnknownType | DimCount | ElementOverflow | BlockAlign | ByteOverflow | LogicalSize
                     | OffsetAlign | DataRange | CompressedType | RawSize
                     | Decode(decode: HuffmanStream.DecodeError) | DecodedChecksum | NotDecoded | TensorChecksum

  datatype Loaded = Loaded(alignment: nat, metadata: seq<Entry>, tensors: seq<Tensor>)

  /** A read that the size of the file allows. */
  method Next(c: Cursor, k: nat) returns (v: nat)
    requires c.Valid() && c.pos + k <= c.size
    modifies c
    ensures c.Valid() && c.pos == old(c.pos) + k && v == Field(c.base, old(c.pos), k)
  {
    var r := c.ReadScalar(k);
    v := r.value;
  }

  // ---- header -----------------------------------------------------------------------------

  /** Bitwise conjunction. */
  function BitAnd(a: nat, b: nat): nat {
    if a == 0 || b == 0 then 0 else 2 * BitAnd(a / 2, b / 2) + (a % 2) * (b % 2)
  }

  predicate PowerOfTwo(a: nat) {
    a != 0 && BitAnd(a, a - 1) == 0
  }

  lemma {:induction false} BitAndSelf(a: nat)
    ensures BitAnd(a, a) == a
  {
    if a != 0 {
      BitAndSelf(a / 2);
      assert (a % 2) * (a % 2) == a % 2;
    }
  }

  lemma BitAndOdd(a: nat)
    requires a % 2 == 1
    ensures BitAnd(a, a - 1) == a - 1
  {
    assert (a - 1) / 2 == a / 2 && (a - 1) % 2 == 0;
    BitAndSelf(a / 2);
  }

  lemma BitAndEven(a: nat)
    requires a > 0 && a % 2 == 0
    ensures BitAnd(a, a - 1) == 2 * BitAnd(a / 2, a / 2 - 1)
  {
    assert (a - 1) / 2 == a / 2 - 1;
  }

  /** The test accepts the powers of two and nothing else. */
  lemma {:induction false} PowerOfTwoIs(a: nat)
    ensures PowerOfTwo(a) <==> exists n: nat :: a == Pow2(n)
    decreases a
  {
    hide BitAnd;
    if a == 1 {
      BitAndOdd(a);
      assert a == Pow2(0);
    } else if a % 2 == 1 {
      BitAndOdd(a);
      assert forall n: nat :: a != Pow2(n);
    } else if a != 0 {
      BitAndEven(a);
      PowerOfTwoIs(a / 2);
      if n: nat :| a / 2 == Pow2(n) {
        assert a == Pow2(n + 1);
      }
      if n: nat :| a == Pow2(n) {
        var m: nat := n - 1;
        assert a / 2 == Pow2(m);
      }
    }
  }

  function HeaderAt(file: seq<byte>): Header
    requires HEADER_SIZE <= |file|
  {
    Header(Field(file, 8, 4), Field(file, 12, 4), Field(file, 16, 8), Field(file, 24, 8), Field(file, 32, 8),
           Field(file, 40, 8), Field(file, 48, 8), Field(file, 56, 8), Field(file, 64, 8), Field(file, 72, 8),
           Field(file, 80, 8), Field(file, 88, 8))
  }

  predicate RegionOk(off: nat, len: nat, size: nat) {
    off + len < U64 && off + len <= size
  }

  predicate SectionsOk(h: Header, size: nat) {
    && RegionOk(h.metadataOffset, h.metadataSize, size) && RegionOk(h.poolOffset, h.poolSize, size)
    && RegionOk(h.tableOffset, h.tableSize, size) && h.dataOffset <= size
  }

  predicate TableOk(h: Header) {
    h.tensorCount * RECORD_SIZE < U64 && h.tensorCount * RECORD_SIZE <= h.tableSize
  }

  function ParseHeader(file: seq<byte>, hash: Hash): (r: Result<Header, ReadError>)
    ensures r.Ok? ==> r.value.alignment > 0 && SectionsOk(r.value, |file|) && TableOk(r.value)
  {
    if |file| < HEADER_SIZE then Err(TooSmall)
    else if Field(file, 0, 4) != MAGIC then Err(Magic)
    else if Field(file, 4, 4) != VERSION then Err(Version)
    else
      var h := HeaderAt(file);
      FieldRange(file, 8, 4);
      if !PowerOfTwo(h.alignment) then Err(Alignment)
      else if hash(file[..96]) != Field(file, 96, 8) then Err(HeaderChecksum)
      else if h.fileSize > |file| then Err(FileSize)
      else if !SectionsOk(h, |file|) then Err(Section)
      else if !TableOk(h) then Err(Table)
      else Ok(h)
  }

  method ReadHeaderFields(c: Cursor) returns (h: Header)
    requires c.Valid() && c.pos == 8 && HEADER_SIZE <= c.size
    modifies c
    ensures c.Valid() && c.pos == 96 && h == HeaderAt(c.base)
  {
    hide Get;
    var alignment := Next(c, 4);
    var flags := Next(c, 4);
    var tensorCount := Next(c, 8);
    var metadataCount := Next(c, 8);
    var metadataOffset := Next(c, 8);
    var metadataSize := Next(c, 8);
    var poolOffset := Next(c, 8);
    var poolSize := Next(c, 8);
    var tableOffset := Next(c, 8);
    var tableSize := Next(c, 8);
    var dataOffset := Next(c, 8);
    var fileSize := Next(c, 8);
    h := Header(alignment, flags, tensorCount, metadataCount, metadataOffset, metadataSize, poolOffset, poolSize,
                    tableOffset, tableSize, dataOffset, fileSize);
  }

  method ReadHeader(file: seq<byte>, hash: Hash) returns (r: Result<Header, ReadError>)
    ensures r == ParseHeader(file, hash)
  {
    hide PowerOfTwo;
    hide Get;
    if |file| < HEADER_SIZE {
      return Err(TooSmall);
    }
    var c := new Cursor(file, |file|, 0);
    var magic := Next(c, 4);
    if magic != MAGIC {
      return Err(Magic);
    }
    var version := Next(c, 4);
    if version != VERSION {
      return Err(Version);
    }
    var h := ReadHeaderFields(c);
    var storedChecksum := Next(c, 8);
    FieldRange(file, 8, 4);
    if !PowerOfTwo(h.alignment) {
      return Err(Alignment);
    }
    if hash(file[..96]) != storedChecksum {
      return Err(HeaderChecksum);
    }
    if h.fileSize > |file| {
      return Err(FileSize);
    }
    if !SectionsOk(h, |file|) {
      return Err(Section);
    }
    if !TableOk(h) {
      return Err(Table);
    }
    r := Ok(h);
  }

  // ---- metadata ---------------------------------------------------------------------------

  function ParseEntry(file: seq<byte>, size: nat, at: nat): (r: Result<(Entry, nat), ReadError>)
    requires at <= size <= |file|
    ensures r.Ok? ==> at <= r.value.1 <= size
  {
    match ParseText(file, size, at)
    case Err(e) => Err(Metadata(e))
    case Ok((key, next)) =>
      match ParseNumber(file, size, next, 4)
      case Err(e) => Err(Metadata(e))
      case Ok((ty, from)) =>
        if ty > LAST_TYPE then Err(MetadataType)
        else
          match ParseValue(file, size, from, ty)
          case Err(e) => Err(Metadata(e))
          case Ok((value, end)) => Ok((Entry(key, value), end))
  }

  function ParseEntries(file: seq<byte>, size: nat, at: nat, n: nat): (r: Result<(seq<Entry>, nat), ReadError>)
    requires at <= size <= |file|
    ensures r.Ok? ==> at <= r.value.1 <= size && |r.value.0| == n
  {
    if n == 0 then Ok(([], at))
    else
      match ParseEntries(file, size, at, n - 1)
      case Err(e) => Err(e)
      case Ok((entries, from)) =>
        match ParseEntry(file, size, from)
        case Err(e) => Err(e)
        case Ok((entry, next)) => Ok((entries + [entry], next))
  }

  lemma {:induction false} EntriesStop(file: seq<byte>, size: nat, at: nat, i: nat, n: nat)
    requires at <= size <= |file| && i <= n && ParseEntries(file, size, at, i).Err?
    ensures ParseEntries(file, size, at, n) == ParseEntries(file, size, at, i)
  {
    if i < n {
      EntriesStop(file, size, at, i, n - 1);
    }
  }

  method ReadEntry(c: Cursor) returns (r: Result<Entry, ReadError>)
    requires c.Valid()
    modifies c
    ensures c.Valid()
    ensures match ParseEntry(c.base, c.size, old(c.pos))
            case Err(e) => r == Err(e)
            case Ok((entry, next)) => r == Ok(entry) && c.pos == next
  {
    hide ParseText;
    hide ParseValue;
    var key := c.ReadString();
    if key.Err? {
      return Err(Metadata(key.error));
    }
    var ty := c.ReadScalar(4);
    if ty.Err? {
      return Err(Metadata(ty.error));
    }
    if ty.value > LAST_TYPE {
      return Err(MetadataType);
    }
    var value := c.ReadMetaValue(ty.value);
    if value.Err? {
      return Err(Metadata(value.error));
    }
    r := Ok(Entry(key.value, value.value));
  }

  method ReadMetadataSection(file: seq<byte>, h: Header) returns (r: Result<seq<Entry>, ReadError>)
    requires SectionsOk(h, |file|)
    ensures var p := ParseEntries(file, h.metadataOffset + h.metadataSize, h.metadataOffset, h.metadataCount);
      r == if p.Ok? then Ok(p.value.0) else Err(p.error)
  {
    hide ParseEntry;
    var size := h.metadataOffset + h.metadataSize;
    var c := new Cursor(file, size, h.metadataOffset);
    var entries := [];
    var i := 0;
    while i < h.metadataCount
      invariant 0 <= i <= h.metadataCount && c.Valid() && fresh(c) && c.base == file && c.size == size
      invariant ParseEntries(file, size, h.metadataOffset, i) == Ok((entries, c.pos))
    {
      var entry := ReadEntry(c);
      if entry.Err? {
        EntriesStop(file, size, h.metadataOffset, i + 1, h.metadataCount);
        return Err(entry.error);
      }
      entries := entries + [entry.value];
      i := i + 1;
    }
    r := Ok(entries);
  }

  // ---- records ----------------------------------------------------------------------------

  /** Elements and bytes of a block of a type, if the type is known. */
  function BlockOf(kind: Word32): (r: Option<(nat, nat)>)
    ensures r.Some? ==> r.value.0 > 0
  {
    match kind
    case 0 => Some((1, 4))
    case 1 => Some((1, 2))
    case 2 => Some((32, 18))
    case 3 => Some((32, 20))
    case 6 => Some((32, 22))
    case 7 => Some((32, 24))
    case 8 => Some((32, 34))
    case 9 => Some((32, 36))
    case 10 => Some((256, 84))
    case 11 => Some((256, 110))
    case 12 => Some((256, 144))
    case 13 => Some((256, 176))
    case 14 => Some((256, 210))
    case 15 => Some((256, 292))
    case 24 => Some((1, 1))
    case 25 => Some((1, 2))
    case 26 => Some((1, 4))
    case 27 => Some((1, 8))
    case 28 => Some((1, 8))
    case 30 => Some((1, 2))
    case _ => None
  }

  /** The product of the first `n` dimensions, if no partial product overflows. */
  function ElementCount(dims: Shape, n: nat): Option<nat>
    requires n <= 4
  {
    if n == 0 then Some(1)
    else
      match ElementCount(dims, n - 1)
      case None => None
      case Some(m) => if m * dims[n - 1] < U64 then Some(m * dims[n - 1]) else None
  }

  predicate IsCompressed(r: Record) {
    r.flags % 2 == 1
  }

  /** The size that type and dimensions ask for. */
  function ExpectedSize(kind: Word32, nDims: Word32, dims: Shape): Result<nat, ReadError> {
    match BlockOf(kind)
    case None => Err(UnknownType)
    case Some((blockSize, typeSize)) =>
      if nDims == 0 || nDims > 4 then Err(DimCount)
      else
        match ElementCount(dims, nDims)
        case None => Err(ElementOverflow)
        case Some(nelem) =>
          if nelem % blockSize != 0 then Err(BlockAlign)
          else if nelem / blockSize * typeSize >= U64 then Err(ByteOverflow)
          else Ok(nelem / blockSize * typeSize)
  }

  function CheckRecord(r: Record, alignment: nat, size: nat): (c: Result<Record, ReadError>)
    requires alignment > 0
    ensures c.Ok? ==> c.value == r && r.dataOffset + r.stored <= size && (!IsCompressed(r) ==> r.stored == r.logical)
  {
    match ExpectedSize(r.kind, r.nDims, r.dims)
    case Err(e) => Err(e)
    case Ok(expected) =>
      if r.logical != expected then Err(LogicalSize)
      else if r.dataOffset % alignment != 0 then Err(OffsetAlign)
      else if !RegionOk(r.dataOffset, r.stored, size) then Err(DataRange)
      else if IsCompressed(r) && r.kind != F16 then Err(CompressedType)
      else if !IsCompressed(r) && r.stored != r.logical then Err(RawSize)
      else Ok(r)
  }

  function DimsAt(file: seq<byte>, at: nat): Shape
    requires at + 32 <= |file|
  {
    FieldRange(file, at, 8);
    FieldRange(file, at + 8, 8);
    FieldRange(file, at + 16, 8);
    FieldRange(file, at + 24, 8);
    [Field(file, at, 8), Field(file, at + 8, 8), Field(file, at + 16, 8), Field(file, at + 24, 8)]
  }

  function RecordAt(file: seq<byte>, at: nat, name: seq<byte>): Record
    requires at + RECORD_SIZE <= |file|
  {
    FieldRange(file, at + 12, 4);
    FieldRange(file, at + 16, 4);
    Record(name, Field(file, at + 12, 4), Field(file, at + 16, 4), Field(file, at + 20, 4), DimsAt(file, at + 24),
           Field(file, at + 56, 8), Field(file, at + 64, 8), Field(file, at + 72, 8), Field(file, at + 80, 8))
  }

  function ParseRecord(file: seq<byte>, h: Header, idx: nat): (r: Result<Record, ReadError>)
    requires h.alignment > 0 && SectionsOk(h, |file|) && TableOk(h) && idx < h.tensorCount
    ensures r.Ok? ==> r.value.dataOffset + r.value.stored <= |file| && (!IsCompressed(r.value) ==> r.value.stored == r.value.logical)
  {
    var at := h.tableOffset + idx * RECORD_SIZE;
    var nameOff, nameLen := Field(file, at, 8), Field(file, at + 8, 4);
    if !RegionOk(nameOff, nameLen, h.poolSize) then Err(NameRange)
    else CheckRecord(RecordAt(file, at, file[h.poolOffset + nameOff..h.poolOffset + nameOff + nameLen]), h.alignment, |file|)
  }

  function ParseRecords(file: seq<byte>, h: Header, n: nat): (r: Result<seq<Record>, ReadError>)
    requires h.alignment > 0 && SectionsOk(h, |file|) && TableOk(h) && n <= h.tensorCount
    ensures r.Ok? ==> |r.value| == n && forall i :: 0 <= i < n ==> ParseRecord(file, h, i) == Ok(r.value[i])
  {
    if n == 0 then Ok([])
    else
      match ParseRecords(file, h, n - 1)
      case Err(e) => Err(e)
      case Ok(records) =>
        match ParseRecord(file, h, n - 1)
        case Err(e) => Err(e)
        case Ok(r) => Ok(records + [r])
  }

  lemma {:induction false} RecordsStop(file: seq<byte>, h: Header, i: nat, n: nat)
    requires h.alignment > 0 && SectionsOk(h, |file|) && TableOk(h) && i <= n <= h.tensorCount
    requires ParseRecords(file, h, i).Err?
    ensures ParseRecords(file, h, n) == ParseRecords(file, h, i)
  {
    if i < n {
      RecordsStop(file, h, i, n - 1);
    }
  }

  method CountElements(dims: Shape, n: nat) returns (r: Option<nat>)
    requires n <= 4
    ensures r == ElementCount(dims, n)
  {
    var nelem := 1;
    var d := 0;
    while d < n
      invariant 0 <= d <= n && ElementCount(dims, d) == Some(nelem)
    {
      nelem := nelem * dims[d];
      if nelem >= U64 {
        OverflowStays(dims, d + 1, n);
        return None;
      }
      d := d + 1;
    }
    r := Some(nelem);
  }

  lemma {:induction false} OverflowStays(dims: Shape, d: nat, n: nat)
    requires d <= n <= 4 && ElementCount(dims, d).None?
    ensures ElementCount(dims, n).None?
  {
    if d < n {
      OverflowStays(dims, d, n - 1);
    }
  }

  method ReadDims(c: Cursor) returns (dims: Shape)
    requires c.Valid() && c.pos + 32 <= c.size
    modifies c
    ensures c.Valid() && c.pos == old(c.pos) + 32 && dims == DimsAt(c.base, old(c.pos))
  {
    hide Get;
    var d0 := Next(c, 8);
    var d1 := Next(c, 8);
    var d2 := Next(c, 8);
    var d3 := Next(c, 8);
    FieldRange(c.base, old(c.pos), 8);
    FieldRange(c.base, old(c.pos) + 8, 8);
    FieldRange(c.base, old(c.pos) + 16, 8);
    FieldRange(c.base, old(c.pos) + 24, 8);
    dims := [d0, d1, d2, d3];
  }

  /** The fields behind the reference to the name. */
  method ReadRecordFields(c: Cursor) returns (r: Record)
    requires c.Valid() && 12 <= c.pos && c.pos - 12 + RECORD_SIZE <= c.size
    modifies c
    ensures c.Valid() && r == RecordAt(c.base, old(c.pos) - 12, [])
  {
    hide Get;
    hide DimsAt;
    FieldRange(c.base, c.pos, 4);
    FieldRange(c.base, c.pos + 4, 4);
    var kind := Next(c, 4);
    var nDims := Next(c, 4);
    var flags := Next(c, 4);
    var dims := ReadDims(c);
    var dataOffset := Next(c, 8);
    var logical := Next(c, 8);
    var stored := Next(c, 8);
    var xxh := Next(c, 8);
    r := Record([], kind, nDims, flags, dims, dataOffset, logical, stored, xxh);
  }

  method ReadRecord(file: seq<byte>, h: Header, idx: nat) returns (r: Result<Record, ReadError>)
    requires h.alignment > 0 && SectionsOk(h, |file|) && TableOk(h) && idx < h.tensorCount
    ensures r == ParseRecord(file, h, idx)
  {
    hide Get;
    hide DimsAt;
    var at := h.tableOffset + idx * RECORD_SIZE;
    var c := new Cursor(file, |file|, at);
    var nameOff := Next(c, 8);
    var nameLen := Next(c, 4);
    var rec := ReadRecordFields(c);
    if !RegionOk(nameOff, nameLen, h.poolSize) {
      return Err(NameRange);
    }
    var name := file[h.poolOffset + nameOff..h.poolOffset + nameOff + nameLen];
    r := ValidateRecord(rec.(name := name), h.alignment, |file|);
  }

  method ValidateRecord(rec: Record, alignment: nat, size: nat) returns (r: Result<Record, ReadError>)
    requires alignment > 0
    ensures r == CheckRecord(rec, alignment, size)
  {
    var block := BlockOf(rec.kind);
    if block.None? {
      return Err(UnknownType);
    }
    var (blockSize, typeSize) := block.value;
    if rec.nDims == 0 || rec.nDims > 4 {
      return Err(DimCount);
    }
    var nelem := CountElements(rec.dims, rec.nDims);
    if nelem.None? {
      return Err(ElementOverflow);
    }
    if nelem.value % blockSize != 0 {
      return Err(BlockAlign);
    }
    var expected := nelem.value / blockSize * typeSize;
    if expected >= U64 {
      return Err(ByteOverflow);
    }
    if rec.logical != expected {
      return Err(LogicalSize);
    }
    if rec.dataOffset % alignment != 0 {
      return Err(OffsetAlign);
    }
    if !RegionOk(rec.dataOffset, rec.stored, size) {
      return Err(DataRange);
    }
    if IsCompressed(rec) {
      if rec.kind != F16 {
        return Err(CompressedType);
      }
    } else if rec.stored != rec.logical {
      return Err(RawSize);
    }
    r := Ok(rec);
  }

  method ReadRecords(file: seq<byte>, h: Header) returns (r: Result<seq<Record>, ReadError>)
    requires h.alignment > 0 && SectionsOk(h, |file|) && TableOk(h)
    ensures r == ParseRecords(file, h, h.tensorCount)
  {
    hide ParseRecord;
    var records := [];
    var i := 0;
    while i < h.tensorCount
      invariant 0 <= i <= h.tensorCount && ParseRecords(file, h, i) == Ok(records)
    {
      var record := ReadRecord(file, h, i);
      if record.Err? {
        RecordsStop(file, h, i + 1, h.tensorCount);
        return Err(record.error);
      }
      records := records + [record.value];
      i := i + 1;
    }
    r := Ok(records);
  }

  // ---- compressed tensors -----------------------------------------------------------------

  datatype CompInfo = CompInfo(logical: nat, stored: nat, xxh: nat)

  /** The compressed regions of the first `n` records, each with the sizes of its first record. */
  function CompOf(records: seq<Record>, n: nat): (r: map<nat, CompInfo>)
    requires n <= |records|
  {
    if n == 0 then map[]
    else
      var r := records[n - 1];
      var before := CompOf(records, n - 1);
      if IsCompressed(r) && r.dataOffset !in before then before[r.dataOffset := CompInfo(r.logical, r.stored, r.xxh)]
      else before
  }

  ghost predicate RecordsFit(records: seq<Record>, size: nat) {
    forall i :: 0 <= i < |records| ==>
      && records[i].dataOffset + records[i].stored <= size
      && (!IsCompressed(records[i]) ==> records[i].stored == records[i].logical)
  }

  ghost predicate CompFits(comp: map<nat, CompInfo>, size: nat) {
    forall off :: off in comp ==> off + comp[off].stored <= size
  }

  lemma {:induction false} CompOfFits(records: seq<Record>, n: nat, size: nat)
    requires n <= |records| && RecordsFit(records, size)
    ensures CompFits(CompOf(records, n), size)
  {
    if n > 0 {
      CompOfFits(records, n - 1, size);
    }
  }

  function DecodeAt(file: seq<byte>, off: nat, ci: CompInfo, hash: Hash): Result<seq<byte>, ReadError>
    requires |file| < U64 / 2 && off + ci.stored <= |file|
  {
    match HuffmanCodec.Decompressed(file[off..off + ci.stored], ci.logical)
    case Err(e) => Err(Decode(e))
    case Ok(raw) => if hash(raw) != ci.xxh then Err(DecodedChecksum) else Ok(raw)
  }

  ghost function Least(s: set<nat>): (r: nat)
    requires s != {}
    ensures r in s && forall x :: x in s ==> r <= x
  {
    var x :| x in s;
    if s == {x} then x
    else
      var y := Least(s - {x});
      assert forall z :: z in s ==> z == x || z in s - {x};
      if x < y then x else y
  }

  ghost function Failing(file: seq<byte>, comp: map<nat, CompInfo>, hash: Hash): set<nat>
    requires |file| < U64 / 2 && CompFits(comp, |file|)
  {
    set off | off in comp && DecodeAt(file, off, comp[off], hash).Err?
  }

  /** All regions by offset, or the error of the first that fails. */
  ghost function DecodeEach(file: seq<byte>, comp: map<nat, CompInfo>, hash: Hash): Result<map<nat, seq<byte>>, ReadError>
    requires |file| < U64 / 2 && CompFits(comp, |file|)
  {
    var failing := Failing(file, comp, hash);
    if failing == {} then
      assert forall off :: off in comp ==> off !in failing;
      Ok(map off | off in comp :: DecodeAt(file, off, comp[off], hash).value)
    else Err(DecodeAt(file, Least(failing), comp[Least(failing)], hash).error)
  }

  /** Nothing is decoded if all regions are empty. */
  ghost function DecodeAll(file: seq<byte>, comp: map<nat, CompInfo>, hash: Hash): Result<map<nat, seq<byte>>, ReadError>
    requires |file| < U64 / 2 && CompFits(comp, |file|)
  {
    if forall off :: off in comp ==> comp[off].logical == 0 then Ok(map[]) else DecodeEach(file, comp, hash)
  }

  method AscendingOffsets(comp: map<nat, CompInfo>) returns (offsets: seq<nat>)
    ensures Lists(offsets, comp)
  {
    offsets := [];
    var rest := comp.Keys;
    while rest != {}
      invariant forall x :: x in comp <==> x in offsets || x in rest
      invariant forall i, j :: 0 <= i < j < |offsets| ==> offsets[i] < offsets[j]
      invariant forall i, x :: 0 <= i < |offsets| && x in rest ==> offsets[i] < x
      decreases |rest|
    {
      ghost var least := Least(rest);
      var off :| off in rest && forall x :: x in rest ==> off <= x;
      offsets := offsets + [off];
      rest := rest - {off};
    }
  }

  method DecodeRegion(file: seq<byte>, off: nat, ci: CompInfo, hash: Hash) returns (r: Result<seq<byte>, ReadError>)
    requires |file| < U64 / 2 && off + ci.stored <= |file|
    ensures r == DecodeAt(file, off, ci, hash)
  {
    hide HuffmanCodec.Decompressed;
    var dst := new byte[ci.logical];
    var decoded := HuffmanCodec.DecompressF16(file[off..off + ci.stored], dst);
    if decoded.Err? {
      return Err(Decode(decoded.error));
    }
    if hash(dst[..]) != ci.xxh {
      return Err(DecodedChecksum);
    }
    r := Ok(dst[..]);
  }

  ghost predicate Lists(offsets: seq<nat>, comp: map<nat, CompInfo>) {
    && (forall x :: x in offsets <==> x in comp)
    && (forall i, j :: 0 <= i < j < |offsets| ==> offsets[i] < offsets[j])
  }

  method DecodeRegions(file: seq<byte>, comp: map<nat, CompInfo>, offsets: seq<nat>, hash: Hash)
    returns (r: Result<map<nat, seq<byte>>, ReadError>)
    requires |file| < U64 / 2 && CompFits(comp, |file|) && Lists(offsets, comp)
    ensures r == DecodeEach(file, comp, hash)
  {
    hide DecodeAt;
    var decoded: map<nat, seq<byte>> := map[];
    var i := 0;
    while i < |offsets|
      invariant 0 <= i <= |offsets|
      invariant forall off :: off in decoded <==> off in offsets[..i]
      invariant forall off :: off in decoded ==> off in comp && DecodeAt(file, off, comp[off], hash) == Ok(decoded[off])
    {
      var off := offsets[i];
      assert off in comp;
      var region := DecodeRegion(file, off, comp[off], hash);
      if region.Err? {
        FirstFailure(file, comp, offsets, hash, i, decoded);
        return Err(region.error);
      }
      decoded := decoded[off := region.value];
      i := i + 1;
    }
    assert offsets[..i] == offsets;
    AllDecoded(file, comp, hash, decoded);
    r := Ok(decoded);
  }

  lemma FirstFailure(file: seq<byte>, comp: map<nat, CompInfo>, offsets: seq<nat>, hash: Hash, i: nat, decoded: map<nat, seq<byte>>)
    requires |file| < U64 / 2 && CompFits(comp, |file|) && Lists(offsets, comp) && i < |offsets| && offsets[i] in comp
    requires forall off :: off in decoded <==> off in offsets[..i]
    requires forall off :: off in decoded ==> off in comp && DecodeAt(file, off, comp[off], hash).Ok?
    requires DecodeAt(file, offsets[i], comp[offsets[i]], hash).Err?
    ensures Failing(file, comp, hash) != {} && Least(Failing(file, comp, hash)) == offsets[i]
  {
    hide DecodeAt;
    var failing := Failing(file, comp, hash);
    assert offsets[i] in failing;
    forall j | 0 <= j < i ensures offsets[j] in decoded {
      assert offsets[..i][j] == offsets[j];
    }
    var l := Least(failing);
    var j :| 0 <= j < |offsets| && offsets[j] == l;
  }

  lemma AllDecoded(file: seq<byte>, comp: map<nat, CompInfo>, hash: Hash, decoded: map<nat, seq<byte>>)
    requires |file| < U64 / 2 && CompFits(comp, |file|)
    requires forall off :: off in decoded <==> off in comp
    requires forall off :: off in decoded ==> DecodeAt(file, off, comp[off], hash) == Ok(decoded[off])
    ensures DecodeEach(file, comp, hash) == Ok(decoded)
  {
    hide DecodeAt;
    assert Failing(file, comp, hash) == {};
    assert (map off | off in comp :: DecodeAt(file, off, comp[off], hash).value) == decoded;
  }

  /** The regions to decode; the first record at an offset decides about its sizes. */
  method CollectRegions(records: seq<Record>) returns (comp: map<nat, CompInfo>)
    ensures comp == CompOf(records, |records|)
  {
    comp := map[];
    var i := 0;
    while i < |records|
      invariant 0 <= i <= |records| && comp == CompOf(records, i)
    {
      var rec := records[i];
      if IsCompressed(rec) && rec.dataOffset !in comp {
        comp := comp[rec.dataOffset := CompInfo(rec.logical, rec.stored, rec.xxh)];
      }
      i := i + 1;
    }
  }

  method DecodeCompressedTensors(file: seq<byte>, records: seq<Record>, hash: Hash) returns (r: Result<map<nat, seq<byte>>, ReadError>)
    requires |file| < U64 / 2 && CompFits(CompOf(records, |records|), |file|)
    ensures r == DecodeAll(file, CompOf(records, |records|), hash)
  {
    hide DecodeEach;
    hide CompOf;
    var comp := CollectRegions(records);
    var offsets := AscendingOffsets(comp);
    var auxSize := 0;
    var i := 0;
    while i < |offsets|
      invariant 0 <= i <= |offsets|
      invariant auxSize >= 0 && (auxSize == 0 <==> forall j :: 0 <= j < i ==> comp[offsets[j]].logical == 0)
    {
      auxSize := auxSize + comp[offsets[i]].logical;
      i := i + 1;
    }
    if auxSize == 0 {
      return Ok(map[]);
    }
    r := DecodeRegions(file, comp, offsets, hash);
  }

  // ---- tensors ----------------------------------------------------------------------------

  function ShapeOf(r: Record): Shape {
    [if 0 < r.nDims then r.dims[0] else 1, if 1 < r.nDims then r.dims[1] else 1,
     if 2 < r.nDims then r.dims[2] else 1, if 3 < r.nDims then r.dims[3] else 1]
  }

  /**
   * The tensor of a record. A compressed one whose region was not decoded makes the lookup throw,
   * which is an error here.
   */
  function BuildTensor(file: seq<byte>, r: Record, decoded: map<nat, seq<byte>>, verify: bool, hash: Hash): Result<Tensor, ReadError>
    requires r.dataOffset + r.stored <= |file| && (!IsCompressed(r) ==> r.stored == r.logical)
  {
    if IsCompressed(r) then
      if r.dataOffset !in decoded then Err(NotDecoded)
      else Ok(Tensor(r.name, r.kind, r.nDims, ShapeOf(r), Some(decoded[r.dataOffset]), r.dataOffset))
    else
      var data := file[r.dataOffset..r.dataOffset + r.logical];
      if verify && hash(data) != r.xxh then Err(TensorChecksum)
      else Ok(Tensor(r.name, r.kind, r.nDims, ShapeOf(r), Some(data), r.dataOffset))
  }

  function BuildAll(file: seq<byte>, records: seq<Record>, n: nat, decoded: map<nat, seq<byte>>, verify: bool, hash: Hash)
    : (r: Result<seq<Tensor>, ReadError>)
    requires RecordsFit(records, |file|) && n <= |records|
    ensures r.Ok? ==> |r.value| == n && forall i :: 0 <= i < n ==> BuildTensor(file, records[i], decoded, verify, hash) == Ok(r.value[i])
  {
    if n == 0 then Ok([])
    else
      match BuildAll(file, records, n - 1, decoded, verify, hash)
      case Err(e) => Err(e)
      case Ok(tensors) =>
        match BuildTensor(file, records[n - 1], decoded, verify, hash)
        case Err(e) => Err(e)
        case Ok(t) => Ok(tensors + [t])
  }

  lemma {:induction false} BuildStops(file: seq<byte>, records: seq<Record>, i: nat, n: nat, decoded: map<nat, seq<byte>>, verify: bool, hash: Hash)
    requires RecordsFit(records, |file|) && i <= n <= |records|
    requires BuildAll(file, records, i, decoded, verify, hash).Err?
    ensures BuildAll(file, records, n, decoded, verify, hash) == BuildAll(file, records, i, decoded, verify, hash)
  {
    if i < n {
      BuildStops(file, records, i, n - 1, decoded, verify, hash);
    }
  }

  method BuildTensors(file: seq<byte>, records: seq<Record>, decoded: map<nat, seq<byte>>, verify: bool, hash: Hash)
    returns (r: Result<seq<Tensor>, ReadError>)
    requires RecordsFit(records, |file|)
    ensures r == BuildAll(file, records, |records|, decoded, verify, hash)
  {
    hide BuildTensor;
    var tensors := [];
    var i := 0;
    while i < |records|
      invariant 0 <= i <= |records| && BuildAll(file, records, i, decoded, verify, hash) == Ok(tensors)
    {
      var tensor := LoadTensor(file, records[i], decoded, verify, hash);
      if tensor.Err? {
        BuildStops(file, records, i + 1, |records|, decoded, verify, hash);
        return Err(tensor.error);
      }
      tensors := tensors + [tensor.value];
      i := i + 1;
    }
    r := Ok(tensors);
  }

  method LoadTensor(file: seq<byte>, rec: Record, decoded: map<nat, seq<byte>>, verify: bool, hash: Hash)
    returns (r: Result<Tensor, ReadError>)
    requires rec.dataOffset + rec.stored <= |file| && (!IsCompressed(rec) ==> rec.stored == rec.logical)
    ensures r == BuildTensor(file, rec, decoded, verify, hash)
  {
    var shape: Shape := [1, 1, 1, 1];
    var d := 0;
    while d < rec.nDims && d < 4
      invariant 0 <= d <= 4 && d <= rec.nDims
      invariant forall j :: 0 <= j < 4 ==> shape[j] == if j < d then rec.dims[j] else 1
    {
      shape := shape[d := rec.dims[d]];
      d := d + 1;
    }
    assert shape == ShapeOf(rec);
    if IsCompressed(rec) {
      if rec.dataOffset !in decoded {
        return Err(NotDecoded);
      }
      return Ok(Tensor(rec.name, rec.kind, rec.nDims, shape, Some(decoded[rec.dataOffset]), rec.dataOffset));
    }
    var data := file[rec.dataOffset..rec.dataOffset + rec.logical];
    if verify && hash(data) != rec.xxh {
      return Err(TensorChecksum);
    }
    r := Ok(Tensor(rec.name, rec.kind, rec.nDims, shape, Some(data), rec.dataOffset));
  }

  // ---- the whole file -----------------------------------------------------------------------

  lemma ParsedRecordsFit(file: seq<byte>, h: Header)
    requires h.alignment > 0 && SectionsOk(h, |file|) && TableOk(h)
    ensures var r := ParseRecords(file, h, h.tensorCount);
      r.Ok? ==> RecordsFit(r.value, |file|) && CompFits(CompOf(r.value, |r.value|), |file|)
  {
    hide ParseRecord;
    var r := ParseRecords(file, h, h.tensorCount);
    if r.Ok? {
      forall i | 0 <= i < |r.value|
        ensures r.value[i].dataOffset + r.value[i].stored <= |file| && (!IsCompressed(r.value[i]) ==> r.value[i].stored == r.value[i].logical)
      {
        assert ParseRecord(file, h, i) == Ok(r.value[i]);
      }
      CompOfFits(r.value, |r.value|, |file|);
    }
  }

  ghost function LoadAll(file: seq<byte>, records: seq<Record>, verify: bool, hash: Hash): Result<seq<Tensor>, ReadError>
    requires |file| < U64 / 2 && RecordsFit(records, |file|) && CompFits(CompOf(records, |records|), |file|)
  {
    match DecodeAll(file, CompOf(records, |records|), hash)
    case Err(e) => Err(e)
    case Ok(decoded) => BuildAll(file, records, |records|, decoded, verify, hash)
  }

  ghost function Load(file: seq<byte>, verify: bool, hash: Hash): Result<Loaded, ReadError>
    requires |file| < U64 / 2
  {
    match ParseHeader(file, hash)
    case Err(e) => Err(e)
    case Ok(h) =>
      match ParseEntries(file, h.metadataOffset + h.metadataSize, h.metadataOffset, h.metadataCount)
      case Err(e) => Err(e)
      case Ok((metadata, _)) =>
        ParsedRecordsFit(file, h);
        match ParseRecords(file, h, h.tensorCount)
        case Err(e) => Err(e)
        case Ok(records) =>
          match LoadAll(file, records, verify, hash)
          case Err(e) => Err(e)
          case Ok(tensors) => Ok(Loaded(h.alignment, metadata, tensors))
  }

  /** Reads any file, well formed or not. */
  method Read(file: seq<byte>, verify: bool, hash: Hash) returns (r: Result<Loaded, ReadError>)
    requires |file| < U64 / 2
    ensures r == Load(file, verify, hash)
  {
    hide ParseHeader;
    hide ParseEntries;
    hide ParseRecords;
    hide DecodeAll;
    hide BuildAll;
    hide RecordsFit;
    hide CompFits;
    hide CompOf;
    hide SectionsOk;
    hide TableOk;
    var header := ReadHeader(file, hash);
    if header.Err? {
      return Err(header.error);
    }
    var h := header.value;
    var metadata := ReadMetadataSection(file, h);
    if metadata.Err? {
      return Err(metadata.error);
    }
    ParsedRecordsFit(file, h);
    var records := ReadRecords(file, h);
    if records.Err? {
      return Err(records.error);
    }
    var decoded := DecodeCompressedTensors(file, records.value, hash);
    if decoded.Err? {
      return Err(decoded.error);
    }
    var tensors := BuildTensors(file, records.value, decoded.value, verify, hash);
    if tensors.Err? {
      return Err(tensors.error);
    }
    r := Ok(Loaded(h.alignment, metadata.value, tensors.value));
  }
}
