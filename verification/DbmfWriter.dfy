/** Conversion of a loaded model into a container. */
module DbmfWriter {
  import opened Results
  import opened Arith
  import opened LittleEndian
  import opened ByteStreams
  import opened GgufMetadata
  import HuffmanLengths
  import CanonicalCode
  import HuffmanCodec
  import opened DbmfLayout
  import opened DbmfFormat

  datatype ConvertError = NoData

  /** What the writer keeps of each tensor, in the order of the source. */
  datatype Prepared = Prepared(logical: nat, stored: nat, xxh: Word, compressed: bool, blob: seq<byte>,
                               dataOffset: nat, owner: bool)

  // ---- preparation ------------------------------------------------------------------------

  /** `coded` is an encoding of `raw`, of the least size that any table gives. */
  ghost predicate CodedWith(raw: seq<byte>, coded: Option<seq<byte>>, len: seq<byte>) {
    && |len| == HuffmanLengths.ALPHABET && HuffmanCodec.BestTable(raw, len)
    && (coded.Some? <==> HuffmanCodec.Longest(len) <= CanonicalCode.MAX_LEN && HuffmanCodec.EncodedSize(raw, len) < |raw|)
    && (coded.Some? ==> HuffmanCodec.Encodes(coded.value, raw, len) && |coded.value| == HuffmanCodec.EncodedSize(raw, len))
  }

  /** Only half-precision tensors are compressed, if asked for and if that makes them smaller. */
  ghost predicate CodedFor(t: Tensor, compress: bool, coded: Option<seq<byte>>)
    requires t.data.Some?
  {
    var raw := t.data.value;
    if compress && t.kind == F16 && raw != [] && |raw| % 2 == 0 then exists len: seq<byte> :: CodedWith(raw, coded, len)
    else coded == None
  }

  function ItemAt(tensors: seq<Tensor>, prep: seq<Prepared>, i: nat): Item
    requires i < |tensors| == |prep|
  {
    Item(tensors[i], if prep[i].compressed then Some(prep[i].blob) else None)
  }

  ghost predicate PreparedFor(t: Tensor, compress: bool, hash: Hash, p: Prepared) {
    && t.data.Some?
    && p.logical == |t.data.value| && p.xxh == hash(t.data.value) && !p.owner
    && p.stored == (if p.compressed then |p.blob| else |t.data.value|)
    && CodedFor(t, compress, if p.compressed then Some(p.blob) else None)
  }

  method PrepareTensors(tensors: seq<Tensor>, compress: bool, hash: Hash) returns (r: Result<seq<Prepared>, ConvertError>)
    requires forall i :: 0 <= i < |tensors| && tensors[i].data.Some? ==> |tensors[i].data.value| < U64 / 2
    ensures r.Err? <==> exists i :: 0 <= i < |tensors| && tensors[i].data.None?
    ensures r.Ok? ==> |r.value| == |tensors| && forall i :: 0 <= i < |tensors| ==> PreparedFor(tensors[i], compress, hash, r.value[i])
  {
    var prep: seq<Prepared> := [];
    var i := 0;
    while i < |tensors|
      invariant 0 <= i <= |tensors| && |prep| == i
      invariant forall j :: 0 <= j < i ==> PreparedFor(tensors[j], compress, hash, prep[j])
    {
      var t := tensors[i];
      if t.data.None? {
        return Err(NoData);
      }
      var p := PrepareTensor(t, compress, hash);
      prep := prep + [p];
      i := i + 1;
    }
    r := Ok(prep);
  }

  method PrepareTensor(t: Tensor, compress: bool, hash: Hash) returns (p: Prepared)
    requires t.data.Some? && |t.data.value| < U64 / 2
    ensures PreparedFor(t, compress, hash, p)
  {
    hide HuffmanCodec.Encodes;
    hide HuffmanCodec.BestTable;
    hide HuffmanCodec.EncodedSize;
    hide HuffmanCodec.Longest;
    var raw := t.data.value;
    p := Prepared(|raw|, |raw|, hash(raw), false, [], 0, false);
    if compress && t.kind == F16 && |raw| > 0 {
      var coded, len := HuffmanCodec.CompressF16(raw);
      if coded.Some? {
        p := p.(blob := coded.value, stored := |coded.value|, compressed := true);
      }
      assert |raw| % 2 == 0 ==> CodedWith(raw, coded, len);
    }
  }

  /** Equal half-precision tensors have codings of equal length. */
  lemma EqualCodingsAreAsLong(a: Tensor, b: Tensor, compress: bool, codedA: Option<seq<byte>>, codedB: Option<seq<byte>>)
    requires a.data.Some? && a.data == b.data && codedA.Some? && codedB.Some?
    requires CodedFor(a, compress, codedA) && CodedFor(b, compress, codedB)
    ensures |codedA.value| == |codedB.value|
  {
    hide HuffmanCodec.EncodedSize;
    var raw := a.data.value;
    var x: seq<byte> :| CodedWith(raw, codedA, x);
    var y: seq<byte> :| CodedWith(raw, codedB, y);
    HuffmanCodec.NoBlobIsSmaller(raw, x, codedB.value, y);
    HuffmanCodec.NoBlobIsSmaller(raw, y, codedA.value, x);
  }

  /**
   * What is compressed: half-precision tensors, if asked for, with the smallest of all encodings, and only if that is
   * smaller than the tensor. They stay as they are if no encoding is, or if a best table has codes over the cap.
   */
  lemma CompressedIfSmaller(t: Tensor, compress: bool, coded: Option<seq<byte>>)
    requires t.data.Some? && CodedFor(t, compress, coded)
    ensures coded.Some? ==> compress && t.kind == 1 && |coded.value| < |t.data.value|
    ensures coded.Some? ==> exists len :: HuffmanCodec.Encodes(coded.value, t.data.value, len)
    ensures forall blob, other :: HuffmanCodec.Encodes(blob, t.data.value, other) ==>
      || !compress || t.kind != 1 || t.data.value == []
      || (if coded.Some? then |coded.value| <= |blob| else |t.data.value| <= |blob|)
      || (coded.None? && exists len: seq<byte> ::
            HuffmanCodec.BestTable(t.data.value, len) && HuffmanCodec.Longest(len) > 24)
  {
    hide HuffmanCodec.EncodedSize;
    hide HuffmanCodec.Longest;
    var raw := t.data.value;
    if compress && t.kind == F16 && raw != [] && |raw| % 2 == 0 {
      var len: seq<byte> :| CodedWith(raw, coded, len);
      assert HuffmanCodec.Shortest(raw, len) && HuffmanCodec.BestTable(raw, len);
      hide HuffmanCodec.BestTable;
      hide HuffmanCodec.Shortest;
      forall blob, other | HuffmanCodec.Encodes(blob, raw, other) ensures HuffmanCodec.EncodedSize(raw, len) <= |blob| {
        HuffmanCodec.NoBlobIsSmaller(raw, len, blob, other);
      }
    }
  }

  // ---- sections ---------------------------------------------------------------------------

  method EncodeMetadata(entries: seq<Entry>) returns (bytes: seq<byte>)
    ensures bytes == MetadataBytes(entries)
  {
    hide Put;
    hide TextBytes;
    hide MetaBytes;
    var meta := new ByteBuf();
    var i := 0;
    while i < |entries|
      invariant 0 <= i <= |entries| && fresh(meta)
      invariant meta.data == MetadataBytes(entries[..i])
    {
      ghost var before := meta.data;
      PutText(meta, entries[i].key);
      meta.PutNumber(TypeOf(entries[i].value), 4);
      PutMetaValue(meta, entries[i].value);
      assert meta.data == before + EntryBytes(entries[i]);
      assert entries[..i + 1][..i] == entries[..i];
      i := i + 1;
    }
    assert entries[..i] == entries;
    bytes := meta.data;
  }

  ghost function ItemsAt(tensors: seq<Tensor>, prep: seq<Prepared>, order: seq<nat>): (r: seq<Item>)
    requires |tensors| == |prep| && forall k :: 0 <= k < |order| ==> order[k] < |tensors|
    ensures |r| == |order|
  {
    seq(|order|, k requires 0 <= k < |order| => ItemAt(tensors, prep, order[k]))
  }

  ghost predicate Distinct(order: seq<nat>, n: nat) {
    && (forall k :: 0 <= k < |order| ==> order[k] < n)
    && (forall j, k :: 0 <= j < k < |order| ==> order[j] != order[k])
  }

  /** The name of item `k` starts where the names before it end. */
  ghost predicate Noted(items: seq<Item>, order: seq<nat>, nameOff: seq<nat>, k: nat)
    requires k <= |items| == |order|
  {
    forall j :: 0 <= j < k ==> order[j] < |nameOff| && nameOff[order[j]] == |PoolBytes(items, j)|
  }

  lemma NotedStep(items: seq<Item>, order: seq<nat>, nameOff: seq<nat>, k: nat)
    requires k < |items| == |order| && Distinct(order, |nameOff|) && Noted(items, order, nameOff, k)
    ensures Noted(items, order, nameOff[order[k] := |PoolBytes(items, k)|], k + 1)
  {
    hide PoolBytes;
  }

  method BuildStringPool(tensors: seq<Tensor>, order: seq<nat>, ghost items: seq<Item>) returns (pool: seq<byte>, nameOff: seq<nat>)
    requires Distinct(order, |tensors|) && |items| == |order|
    requires forall k :: 0 <= k < |order| ==> items[k].tensor == tensors[order[k]]
    ensures pool == PoolBytes(items, |items|)
    ensures |nameOff| == |tensors| && Noted(items, order, nameOff, |order|)
  {
    var b := new ByteBuf();
    nameOff := seq(|tensors|, _ => 0);
    var k := 0;
    while k < |order|
      invariant 0 <= k <= |order| && fresh(b) && |nameOff| == |tensors|
      invariant b.data == PoolBytes(items, k)
      invariant Noted(items, order, nameOff, k)
    {
      NotedStep(items, order, nameOff, k);
      nameOff := nameOff[order[k] := |b.data|];
      b.PutBytes(tensors[order[k]].name);
      k := k + 1;
    }
    pool := b.data;
  }

  // ---- offsets ----------------------------------------------------------------------------

  /** `prep` has the sizes and hashes of the items. */
  ghost predicate Describes(items: seq<Item>, hash: Hash, order: seq<nat>, prep: seq<Prepared>) {
    && |items| == |order|
    && forall k :: 0 <= k < |order| ==>
        && order[k] < |prep|
        && var p := prep[order[k]];
          && p.logical == |items[k].Bytes()| && p.xxh == hash(items[k].Bytes())
          && p.stored == |items[k].Stored()| && p.compressed == items[k].coded.Some?
          && (p.compressed ==> p.blob == items[k].coded.value)
  }

  /** The first `k` items have their offsets and the others are not owners yet. */
  ghost predicate Placed(items: seq<Item>, hash: Hash, start: nat, order: seq<nat>, prep: seq<Prepared>, k: nat)
    requires |items| == |order| && forall j :: 0 <= j < |order| ==> order[j] < |prep|
  {
    && (forall j :: 0 <= j < |order| && j < k ==>
        prep[order[j]].dataOffset == Offset(items, hash, start, j) && prep[order[j]].owner == Owner(items, hash, j))
    && (forall j :: k <= j < |order| ==> !prep[order[j]].owner)
  }

  type DedupKey = (Word, nat, Word32)

  ghost predicate Occurs(items: seq<Item>, hash: Hash, key: DedupKey, k: nat)
    requires k <= |items|
  {
    exists j :: 0 <= j < k && KeyAt(items, hash, j) == key
  }

  /** The map of owners holds the first item of every key that occurred. */
  ghost predicate Registered(items: seq<Item>, hash: Hash, order: seq<nat>, owners: map<DedupKey, nat>, k: nat)
    requires |items| == |order| && k <= |items|
  {
    && (forall j :: 0 <= j < k ==> KeyAt(items, hash, j) in owners && owners[KeyAt(items, hash, j)] == order[First(items, hash, j)])
    && (forall key :: key in owners ==> Occurs(items, hash, key, k))
  }

  lemma PlacedStep(items: seq<Item>, hash: Hash, start: nat, order: seq<nat>, prep: seq<Prepared>, k: nat, p: Prepared)
    requires Distinct(order, |prep|) && k < |items| == |order| && Placed(items, hash, start, order, prep, k)
    requires p == prep[order[k]].(dataOffset := Offset(items, hash, start, k), owner := Owner(items, hash, k))
    ensures Placed(items, hash, start, order, prep[order[k] := p], k + 1)
  {
    hide Offset;
    hide Owner;
  }

  lemma DescribesStep(items: seq<Item>, hash: Hash, order: seq<nat>, prep: seq<Prepared>, k: nat, off: nat, owner: bool)
    requires Distinct(order, |prep|) && k < |order| && Describes(items, hash, order, prep)
    ensures Describes(items, hash, order, prep[order[k] := prep[order[k]].(dataOffset := off, owner := owner)])
  {
  }

  lemma RegisteredStep(items: seq<Item>, hash: Hash, order: seq<nat>, owners: map<DedupKey, nat>, k: nat)
    requires |items| == |order| && k < |items| && Registered(items, hash, order, owners, k)
    ensures var key := KeyAt(items, hash, k);
      Registered(items, hash, order, if key in owners then owners else owners[key := order[k]], k + 1)
  {
    hide KeyAt;
    hide First;
    var key := KeyAt(items, hash, k);
    var longer := if key in owners then owners else owners[key := order[k]];
    if key in owners {
      OwnerIsFirst(items, hash, order, owners, k);
    } else {
      NewKeyIsFirst(items, hash, order, owners, k);
    }
    forall j | 0 <= j < k
      ensures KeyAt(items, hash, j) in longer && longer[KeyAt(items, hash, j)] == order[First(items, hash, j)]
    {
      assert KeyAt(items, hash, j) in owners;
    }
    forall x | x in longer ensures Occurs(items, hash, x, k + 1) {
      OccursLater(items, hash, x, k);
    }
  }

  lemma OccursLater(items: seq<Item>, hash: Hash, key: DedupKey, k: nat)
    requires k < |items| && (Occurs(items, hash, key, k) || key == KeyAt(items, hash, k))
    ensures Occurs(items, hash, key, k + 1)
  {
  }

  /** What the map knows about an item whose key occurred before. */
  lemma KnownOwner(items: seq<Item>, hash: Hash, start: nat, order: seq<nat>, prep: seq<Prepared>,
                   owners: map<DedupKey, nat>, k: nat)
    requires Describes(items, hash, order, prep) && k < |items|
    requires Registered(items, hash, order, owners, k) && Placed(items, hash, start, order, prep, k)
    requires KeyAt(items, hash, k) in owners
    ensures var f := First(items, hash, k);
      && f < k && owners[KeyAt(items, hash, k)] == order[f] < |prep|
      && prep[order[f]].compressed == items[f].coded.Some?
      && (Owner(items, hash, k) <==> !SameContent(items[f], items[k]))
      && (!Owner(items, hash, k) ==> prep[order[f]].dataOffset == Offset(items, hash, start, k))
  {
    hide First;
    hide Running;
    hide AlignUp;
    OwnerIsFirst(items, hash, order, owners, k);
  }

  method AssignOffsets(tensors: seq<Tensor>, order: seq<nat>, start: nat, prep0: seq<Prepared>, ghost hash: Hash,
                       ghost items: seq<Item>)
    returns (prep: seq<Prepared>, fileSize: nat, anyCompressed: bool)
    requires Distinct(order, |tensors|) && |tensors| == |prep0| && |items| == |order|
    requires forall k :: 0 <= k < |order| ==> items[k].tensor == tensors[order[k]] && items[k].tensor.data.Some?
    requires Describes(items, hash, order, prep0) && forall k :: 0 <= k < |order| ==> !prep0[order[k]].owner
    ensures |prep| == |prep0| && Describes(items, hash, order, prep)
    ensures Placed(items, hash, start, order, prep, |order|)
    ensures fileSize == Running(items, hash, start, |items|)
    ensures anyCompressed <==> AnyCoded(items)
  {
    hide Registered;
    hide Placed;
    hide Describes;
    hide First;
    hide AlignUp;
    hide Running;
    hide Offset;
    hide Owner;
    hide KeyAt;
    var owners: map<DedupKey, nat> := map[];
    var running := start;
    prep, fileSize, anyCompressed := prep0, start, false;
    var k := 0;
    NothingYet(items, hash, start, order, prep);
    while k < |order|
      invariant 0 <= k <= |order| && |prep| == |prep0|
      invariant Describes(items, hash, order, prep)
      invariant Placed(items, hash, start, order, prep, k)
      invariant Registered(items, hash, order, owners, k)
      invariant fileSize == running == Running(items, hash, start, k)
      invariant anyCompressed <==> exists j :: 0 <= j < k && items[j].coded.Some?
    {
      var i := order[k];
      var t := tensors[i];
      DescribesAt(items, hash, start, order, prep, k);
      ghost var next := prep[i := prep[i].(dataOffset := Offset(items, hash, start, k), owner := Owner(items, hash, k))];
      PlacedStep(items, hash, start, order, prep, k, next[i]);
      DescribesStep(items, hash, order, prep, k, Offset(items, hash, start, k), Owner(items, hash, k));
      RegisteredStep(items, hash, order, owners, k);
      RunningStep(items, hash, start, k);
      var key: DedupKey := (prep[i].xxh, prep[i].logical, t.kind);
      assert key == KeyAt(items, hash, k);
      var shared := false;
      if key in owners {
        var o := owners[key];
        KnownOwner(items, hash, start, order, prep, owners, k);
        if prep[i].compressed == prep[o].compressed && t.data.value == tensors[o].data.value {
          prep := prep[i := prep[i].(dataOffset := prep[o].dataOffset)];
          shared := true;
        }
      } else {
        NewKeyIsFirst(items, hash, order, owners, k);
      }
      assert shared <==> !Owner(items, hash, k);
      if !shared {
        var off := AlignUp(running, ALIGNMENT);
        prep := prep[i := prep[i].(dataOffset := off, owner := true)];
        running := off + prep[i].stored;
        fileSize := running;
        if key !in owners {
          owners := owners[key := i];
        }
      }
      assert prep == next;
      anyCompressed := anyCompressed || prep[i].compressed;
      k := k + 1;
    }
  }

  lemma RunningStep(items: seq<Item>, hash: Hash, start: nat, k: nat)
    requires k < |items|
    ensures Owner(items, hash, k) ==>
      && Offset(items, hash, start, k) == AlignUp(Running(items, hash, start, k), ALIGNMENT)
      && Running(items, hash, start, k + 1) == Offset(items, hash, start, k) + |items[k].Stored()|
    ensures !Owner(items, hash, k) ==> Running(items, hash, start, k + 1) == Running(items, hash, start, k)
  {
  }

  lemma NothingYet(items: seq<Item>, hash: Hash, start: nat, order: seq<nat>, prep: seq<Prepared>)
    requires |items| == |order| && forall k :: 0 <= k < |order| ==> order[k] < |prep| && !prep[order[k]].owner
    ensures Registered(items, hash, order, map[], 0) && Placed(items, hash, start, order, prep, 0)
    ensures Running(items, hash, start, 0) == start
  {
  }

  lemma DescribesAt(items: seq<Item>, hash: Hash, start: nat, order: seq<nat>, prep: seq<Prepared>, k: nat)
    requires Describes(items, hash, order, prep) && k < |items| && Placed(items, hash, start, order, prep, k)
    ensures var p := prep[order[k]];
      && (p.xxh, p.logical, items[k].tensor.kind) == KeyAt(items, hash, k) && !p.owner
      && p.stored == |items[k].Stored()| && p.compressed == items[k].coded.Some?
  {
  }

  lemma OwnerIsFirst(items: seq<Item>, hash: Hash, order: seq<nat>, owners: map<DedupKey, nat>, k: nat)
    requires |items| == |order| && k < |items| && Registered(items, hash, order, owners, k)
    requires KeyAt(items, hash, k) in owners
    ensures First(items, hash, k) < k && owners[KeyAt(items, hash, k)] == order[First(items, hash, k)]
    ensures Owner(items, hash, First(items, hash, k))
  {
    var j :| 0 <= j < k && KeyAt(items, hash, j) == KeyAt(items, hash, k);
    FirstIsFirst(items, hash, j, k);
    FirstIsFirst(items, hash, First(items, hash, k), k);
  }

  lemma NewKeyIsFirst(items: seq<Item>, hash: Hash, order: seq<nat>, owners: map<DedupKey, nat>, k: nat)
    requires |items| == |order| && k < |items| && Registered(items, hash, order, owners, k)
    requires KeyAt(items, hash, k) !in owners
    ensures First(items, hash, k) == k && Owner(items, hash, k)
  {
    assert forall j :: 0 <= j < k ==> KeyAt(items, hash, j) in owners;
  }

  // ---- table and header -------------------------------------------------------------------

  method PutDims(b: ByteBuf, dims: Shape)
    modifies b
    ensures b.data == old(b.data) + DimBytes(dims)
  {
    hide Put;
    b.PutNumber(dims[0], 8);
    b.PutNumber(dims[1], 8);
    b.PutNumber(dims[2], 8);
    b.PutNumber(dims[3], 8);
  }

  method PutRecord(table: ByteBuf, nameOff: nat, r: Record)
    modifies table
    ensures table.data == old(table.data) + RecordBytes(nameOff, r)
  {
    hide Put;
    hide DimBytes;
    var start := |table.data|;
    table.PutNumber(nameOff, 8);
    table.PutNumber(|r.name|, 4);
    table.PutNumber(r.kind, 4);
    table.PutNumber(r.nDims, 4);
    table.PutNumber(r.flags, 4);
    PutDims(table, r.dims);
    table.PutNumber(r.dataOffset, 8);
    table.PutNumber(r.logical, 8);
    table.PutNumber(r.stored, 8);
    table.PutNumber(r.xxh, 8);
    table.PadTo(start + RECORD_SIZE);
  }

  /** What the table says of an item is what was prepared for it. */
  lemma RecordMatches(items: seq<Item>, hash: Hash, start: nat, order: seq<nat>, nameOff: seq<nat>, prep: seq<Prepared>, k: nat)
    requires Describes(items, hash, order, prep) && Placed(items, hash, start, order, prep, |order|)
    requires Noted(items, order, nameOff, |order|) && k < |order|
    ensures var t, p := items[k].tensor, prep[order[k]];
      RecordOf(items, hash, start, k) == Record(t.name, t.kind, t.nDims, if p.compressed then COMPRESSED else 0, t.shape,
                                                p.dataOffset, p.logical, p.stored, p.xxh)
    ensures order[k] < |nameOff| && nameOff[order[k]] == |PoolBytes(items, k)|
  {
    hide Offset;
    hide Owner;
    hide PoolBytes;
  }

  method EncodeTable(tensors: seq<Tensor>, order: seq<nat>, nameOff: seq<nat>, prep: seq<Prepared>, ghost hash: Hash,
                     ghost start: nat, ghost items: seq<Item>)
    returns (table: seq<byte>)
    requires Distinct(order, |tensors|) && |tensors| == |prep| == |nameOff| && |items| == |order|
    requires forall k :: 0 <= k < |order| ==> items[k].tensor == tensors[order[k]]
    requires Describes(items, hash, order, prep) && Placed(items, hash, start, order, prep, |order|)
    requires Noted(items, order, nameOff, |order|)
    ensures table == TableBytes(items, hash, start, |items|)
  {
    hide RecordBytes;
    hide RecordOf;
    hide PoolBytes;
    hide Describes;
    hide Placed;
    hide Noted;
    var b := new ByteBuf();
    var k := 0;
    while k < |order|
      invariant 0 <= k <= |order| && fresh(b)
      invariant b.data == TableBytes(items, hash, start, k)
    {
      var i := order[k];
      var t, p := tensors[i], prep[i];
      RecordMatches(items, hash, start, order, nameOff, prep, k);
      PutRecord(b, nameOff[i], Record(t.name, t.kind, t.nDims, if p.compressed then COMPRESSED else 0, t.shape,
                                      p.dataOffset, p.logical, p.stored, p.xxh));
      k := k + 1;
    }
    table := b.data;
  }

  method PutHeaderStart(b: ByteBuf, h: Header)
    modifies b
    ensures b.data == old(b.data) + HeaderStart(h)
  {
    hide Put;
    b.PutNumber(MAGIC, 4);
    b.PutNumber(VERSION, 4);
    b.PutNumber(h.alignment, 4);
    b.PutNumber(h.flags, 4);
    b.PutNumber(h.tensorCount, 8);
    b.PutNumber(h.metadataCount, 8);
    b.PutNumber(h.metadataOffset, 8);
    b.PutNumber(h.metadataSize, 8);
  }

  method PutHeaderSections(b: ByteBuf, h: Header)
    modifies b
    ensures b.data == old(b.data) + HeaderSections(h)
  {
    hide Put;
    b.PutNumber(h.poolOffset, 8);
    b.PutNumber(h.poolSize, 8);
    b.PutNumber(h.tableOffset, 8);
    b.PutNumber(h.tableSize, 8);
    b.PutNumber(h.dataOffset, 8);
    b.PutNumber(h.fileSize, 8);
  }

  method EncodeHeader(h: Header, hash: Hash) returns (bytes: seq<byte>)
    ensures bytes == HeaderBytes(h, hash)
  {
    hide Put;
    hide HeaderStart;
    hide HeaderSections;
    var b := new ByteBuf();
    PutHeaderStart(b, h);
    PutHeaderSections(b, h);
    assert b.data == HeaderFields(h);
    b.PutNumber(hash(b.data), 8);
    b.PadTo(HEADER_SIZE);
    bytes := b.data;
  }

  // ---- the file ---------------------------------------------------------------------------

  /** A file that is written from the front; zeros are written in pieces of at most 4096. */
  class Writer {
    var file: seq<byte>

    constructor ()
      ensures file == []
    {
      file := [];
    }

    method Write(b: seq<byte>)
      modifies this
      ensures file == old(file) + b
    {
      file := file + b;
    }

    method PadTo(target: nat)
      modifies this
      ensures file == Padded(old(file), target)
    {
      while |file| < target
        invariant file == old(file) + Zeros(|file| - |old(file)|)
        invariant |old(file)| <= |file| <= Max(target, |old(file)|)
      {
        file := file + Zeros(Min(target - |file|, 4096));
      }
    }
  }

  method WriteFile(head: seq<byte>, tensors: seq<Tensor>, order: seq<nat>, prep: seq<Prepared>, ghost hash: Hash,
                   start: nat, ghost items: seq<Item>)
    returns (file: seq<byte>)
    requires Distinct(order, |tensors|) && |tensors| == |prep| && |items| == |order|
    requires forall k :: 0 <= k < |order| ==> items[k].tensor == tensors[order[k]] && items[k].tensor.data.Some?
    requires Describes(items, hash, order, prep) && Placed(items, hash, start, order, prep, |order|)
    ensures file == Written(head, items, hash, start, |items|)
  {
    hide Offset;
    hide Owner;
    hide Padded;
    var w := new Writer();
    w.Write(head);
    assert w.file == head;
    w.PadTo(start);
    var k := 0;
    while k < |order|
      invariant 0 <= k <= |order| && fresh(w)
      invariant w.file == Written(head, items, hash, start, k)
    {
      var i := order[k];
      if prep[i].owner {
        w.PadTo(prep[i].dataOffset);
        if prep[i].compressed {
          w.Write(prep[i].blob);
        } else {
          w.Write(tensors[i].data.value);
        }
      }
      k := k + 1;
    }
    file := w.file;
  }

  // ---- conversion -------------------------------------------------------------------------

  /** `items` are the tensors in the order of first use, with what is stored of each. */
  ghost predicate ItemsOf(tensors: seq<Tensor>, order: seq<nat>, compress: bool, items: seq<Item>) {
    && UsageOrdered(tensors, order) && |items| == |order|
    && forall k :: 0 <= k < |items| ==>
        && order[k] < |tensors| && items[k].tensor == tensors[order[k]] && items[k].tensor.data.Some?
        && CodedFor(items[k].tensor, compress, items[k].coded)
  }

  lemma UsageIsDistinct(tensors: seq<Tensor>, order: seq<nat>)
    requires UsageOrdered(tensors, order)
    ensures Distinct(order, |tensors|)
  {
    var keys := Keys(tensors);
    forall j, k | 0 <= j < k < |order| ensures order[j] != order[k] {
      assert Before(keys, order[j], order[k]);
    }
  }

  lemma PreparedItems(tensors: seq<Tensor>, order: seq<nat>, compress: bool, hash: Hash, prep: seq<Prepared>, items: seq<Item>)
    requires UsageOrdered(tensors, order) && |prep| == |tensors| && Distinct(order, |tensors|)
    requires forall i :: 0 <= i < |tensors| ==> PreparedFor(tensors[i], compress, hash, prep[i])
    requires items == ItemsAt(tensors, prep, order)
    ensures ItemsOf(tensors, order, compress, items) && Describes(items, hash, order, prep)
    ensures forall k :: 0 <= k < |order| ==> !prep[order[k]].owner
  {
    hide UsageOrdered;
    hide CodedFor;
    forall k | 0 <= k < |order|
      ensures PreparedFor(tensors[order[k]], compress, hash, prep[order[k]])
    {
    }
  }

  /** The container of a model whose tensors are all bound to data. */
  method Convert(metadata: seq<Entry>, tensors: seq<Tensor>, compress: bool, hash: Hash)
    returns (r: Result<seq<byte>, ConvertError>, ghost order: seq<nat>, ghost items: seq<Item>)
    requires forall i :: 0 <= i < |tensors| && tensors[i].data.Some? ==> |tensors[i].data.value| < U64 / 2
    ensures r.Err? <==> exists i :: 0 <= i < |tensors| && tensors[i].data.None?
    ensures r.Ok? ==> ItemsOf(tensors, order, compress, items) && r.value == FileOf(metadata, items, hash)
  {
    var writing := UsageOrder(tensors);
    order, items := writing, [];
    UsageIsDistinct(tensors, order);
    var prepared := PrepareTensors(tensors, compress, hash);
    if prepared.Err? {
      return Err(prepared.error), order, items;
    }
    items := ItemsAt(tensors, prepared.value, order);
    PreparedItems(tensors, order, compress, hash, prepared.value, items);
    var file := Assemble(metadata, tensors, writing, prepared.value, hash, items);
    r := Ok(file);
  }

  method Assemble(metadata: seq<Entry>, tensors: seq<Tensor>, order: seq<nat>, prep0: seq<Prepared>, hash: Hash,
                  ghost items: seq<Item>)
    returns (file: seq<byte>)
    requires Distinct(order, |tensors|) && |tensors| == |prep0| && |items| == |order| == |tensors|
    requires forall k :: 0 <= k < |order| ==> items[k].tensor == tensors[order[k]] && items[k].tensor.data.Some?
    requires Describes(items, hash, order, prep0) && forall k :: 0 <= k < |order| ==> !prep0[order[k]].owner
    ensures file == FileOf(metadata, items, hash)
  {
    hide HeaderBytes;
    hide MetadataBytes;
    hide PoolBytes;
    hide TableBytes;
    hide Running;
    hide Written;
    hide Describes;
    hide Placed;
    var meta := EncodeMetadata(metadata);
    var pool, nameOff := BuildStringPool(tensors, order, items);
    var start := DataOffset(|meta|, |pool|, |tensors|);
    var prep, fileSize, anyCompressed := AssignOffsets(tensors, order, start, prep0, hash, items);
    var table := EncodeTable(tensors, order, nameOff, prep, hash, start, items);
    var h := Header(ALIGNMENT, if anyCompressed then COMPRESSED else 0, |tensors|, |metadata|,
                    HEADER_SIZE, |meta|, HEADER_SIZE + |meta|, |pool|,
                    HEADER_SIZE + |meta| + |pool|, RECORD_SIZE * |tensors|, start, fileSize);
    var header := EncodeHeader(h, hash);
    file := WriteFile(header + meta + pool + table, tensors, order, prep, hash, start, items);
  }
}
