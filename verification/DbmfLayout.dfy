/**
 * Where the tensors of a container go: the order of first use, page-aligned offsets, and sharing of
 * tensors with equal bytes.
 */
module DbmfLayout {
  import opened Results
  import opened Arith
  import opened LittleEndian
  import opened ByteStreams

  const ALIGNMENT: nat := 16384

  type Word32 = n: int | 0 <= n < 0x1_0000_0000
  type Shape = d: seq<Word> | |d| == 4 witness [1, 1, 1, 1]

  /** `kind` is the number of the element type. The writer ignores `offset`. */
  datatype Tensor = Tensor(name: seq<byte>, kind: Word32, nDims: Word32, shape: Shape, data: Option<seq<byte>>, offset: nat)

  // ---- order of first use ---------------------------------------------------------------

  function Ascii(s: string): (r: seq<byte>)
    ensures |r| == |s|
  {
    seq(|s|, i requires 0 <= i < |s| => s[i] as int % 256)
  }

  predicate IsDigit(c: byte) {
    '0' as int <= c <= '9' as int
  }

  /** The number that the digits from `i` on continue, modulo 2^64. */
  function LayerFrom(name: seq<byte>, i: nat, layer: nat): nat
    decreases |name| - i
  {
    if i < |name| && IsDigit(name[i]) then LayerFrom(name, i + 1, (layer * 10 + (name[i] - '0' as int)) % U64) else layer
  }

  predicate IsEmbedding(name: seq<byte>) {
    name == Ascii("token_embd.weight")
  }

  predicate IsBlock(name: seq<byte>) {
    !IsEmbedding(name) && Ascii("blk.") <= name
  }

  predicate IsHead(name: seq<byte>) {
    name == Ascii("output.weight")
  }

  function KeyOf(name: seq<byte>): nat {
    if IsEmbedding(name) then 0
    else if IsBlock(name) then (0x100_0000_0000 + LayerFrom(name, 4, 0) * 256 % U64) % U64
    else if IsHead(name) then 0x300_0000_0000
    else 0x200_0000_0000
  }

  method OrderKey(name: seq<byte>) returns (key: nat)
    ensures key == KeyOf(name)
  {
    if IsEmbedding(name) {
      return 0;
    }
    if Ascii("blk.") <= name {
      var layer: nat, i: nat := 0, 4;
      while i < |name| && IsDigit(name[i])
        invariant 4 <= i <= |name|
        invariant LayerFrom(name, i, layer) == LayerFrom(name, 4, 0)
      {
        layer := (layer * 10 + (name[i] - '0' as int)) % U64;
        i := i + 1;
      }
      return (0x100_0000_0000 + layer * 256 % U64) % U64;
    }
    if IsHead(name) {
      return 0x300_0000_0000;
    }
    return 0x200_0000_0000;
  }

  /** The number itself. */
  function Decimal(name: seq<byte>, i: nat, layer: nat): (r: nat)
    ensures r >= layer
    decreases |name| - i
  {
    if i < |name| && IsDigit(name[i]) then Decimal(name, i + 1, layer * 10 + (name[i] - '0' as int)) else layer
  }

  lemma {:induction false} LayerIsDecimal(name: seq<byte>, i: nat, layer: nat)
    requires Decimal(name, i, layer) < U64
    ensures LayerFrom(name, i, layer) == Decimal(name, i, layer)
    decreases |name| - i
  {
    if i < |name| && IsDigit(name[i]) {
      LayerIsDecimal(name, i + 1, layer * 10 + (name[i] - '0' as int));
    }
  }

  function Stage(name: seq<byte>): nat {
    if IsEmbedding(name) then 0
    else if IsBlock(name) then 1
    else if IsHead(name) then 3
    else 2
  }

  lemma KeyIs(name: seq<byte>)
    requires IsBlock(name) ==> Decimal(name, 4, 0) < 0x1_0000_0000
    ensures KeyOf(name) == if Stage(name) == 1 then 0x100_0000_0000 + Decimal(name, 4, 0) * 256 else Stage(name) * 0x100_0000_0000
  {
    hide IsEmbedding;
    hide IsBlock;
    hide IsHead;
    if IsBlock(name) {
      LayerIsDecimal(name, 4, 0);
    }
  }

  /** The embedding comes first, then the blocks by their number, then the rest, and the output head last. */
  lemma FirstUse(a: seq<byte>, b: seq<byte>)
    requires Ascii("blk.") <= a ==> Decimal(a, 4, 0) < 0x1_0000_0000
    requires Ascii("blk.") <= b ==> Decimal(b, 4, 0) < 0x1_0000_0000
    ensures a == Ascii("token_embd.weight") && a != b ==> KeyOf(a) < KeyOf(b)
    ensures b == Ascii("output.weight") && a != b ==> KeyOf(a) < KeyOf(b)
    ensures Ascii("blk.") <= a && Ascii("blk.") <= b ==> (KeyOf(a) < KeyOf(b) <==> Decimal(a, 4, 0) < Decimal(b, 4, 0))
    ensures Ascii("blk.") <= a && !(Ascii("blk.") <= b) && b != Ascii("token_embd.weight") ==> KeyOf(a) < KeyOf(b)
    ensures !(Ascii("blk.") <= a) && a != Ascii("token_embd.weight") && a != Ascii("output.weight") ==>
      !(Ascii("blk.") <= b) && b != Ascii("token_embd.weight") && b != Ascii("output.weight") ==> KeyOf(a) == KeyOf(b)
  {
    hide KeyOf;
    hide Decimal;
    KeyIs(a);
    KeyIs(b);
    NamesDiffer();
    hide Ascii;
  }

  lemma NamesDiffer()
    ensures !(Ascii("blk.") <= Ascii("token_embd.weight")) && !(Ascii("blk.") <= Ascii("output.weight"))
    ensures Ascii("token_embd.weight") != Ascii("output.weight")
  {
    assert Ascii("blk.")[0] == 98 && Ascii("token_embd.weight")[0] == 116 && Ascii("output.weight")[0] == 111;
  }

  /** A number is read digit by digit, up to the first byte that is no digit. */
  lemma {:induction false} DecimalIs(name: seq<byte>, i: nat, j: nat, layer: nat)
    requires i <= j <= |name| && (j < |name| ==> !(48 <= name[j] <= 57))
    requires forall k :: i <= k < j ==> 48 <= name[k] <= 57
    ensures Decimal(name, i, layer) == if i == j then layer else 10 * Decimal(name[..j - 1], i, layer) + (name[j - 1] - 48)
    decreases j - i
  {
    if i < j {
      DecimalIs(name, i + 1, j, layer * 10 + (name[i] - 48));
      if i + 1 == j {
        assert Decimal(name[..j - 1], i, layer) == layer;
      }
    }
  }

  /** `a` sorts before `b`; equal keys keep their order. */
  predicate Before(keys: seq<nat>, a: nat, b: nat) {
    a < |keys| && b < |keys| && (keys[a] < keys[b] || (keys[a] == keys[b] && a < b))
  }

  ghost predicate Ascending(keys: seq<nat>, order: seq<nat>) {
    && (forall j :: 0 <= j < |order| ==> order[j] < |keys|)
    && (forall j, k :: 0 <= j < k < |order| ==> Before(keys, order[j], order[k]))
  }

  /** `order` lists all indices by key, and those with equal keys by index. */
  ghost predicate StableOrder(keys: seq<nat>, order: seq<nat>) {
    && |order| == |keys|
    && Ascending(keys, order)
    && (forall i: nat :: i < |keys| ==> i in order)
  }

  /** Puts the indices into order one after the other, each behind all that do not sort after it. */
  method StableSort(keys: seq<nat>) returns (order: seq<nat>)
    ensures StableOrder(keys, order)
  {
    order := [];
    var i := 0;
    while i < |keys|
      invariant 0 <= i <= |keys| && |order| == i && Ascending(keys, order)
      invariant forall j :: 0 <= j < i ==> order[j] < i
      invariant forall x: nat :: x < i ==> x in order
    {
      var at := |order|;
      while at > 0 && keys[i] < keys[order[at - 1]]
        invariant 0 <= at <= |order|
        invariant forall j :: at <= j < |order| ==> keys[i] < keys[order[j]]
      {
        at := at - 1;
      }
      InsertedAscends(keys, order, at, i);
      InsertedKeeps(order, at, i);
      order := order[..at] + [i] + order[at..];
      i := i + 1;
    }
  }

  lemma InsertedAscends(keys: seq<nat>, order: seq<nat>, at: nat, i: nat)
    requires Ascending(keys, order) && at <= |order| && i < |keys|
    requires forall j :: 0 <= j < |order| ==> order[j] < i
    requires forall j :: at <= j < |order| ==> keys[i] < keys[order[j]]
    requires at > 0 ==> keys[order[at - 1]] <= keys[i]
    ensures Ascending(keys, order[..at] + [i] + order[at..])
  {
    forall j | 0 <= j < at ensures Before(keys, order[j], i) {
      assert j < at - 1 ==> Before(keys, order[j], order[at - 1]);
    }
  }

  lemma InsertedKeeps(order: seq<nat>, at: nat, i: nat)
    requires at <= |order|
    ensures forall x :: x in order[..at] + [i] + order[at..] <==> x in order || x == i
  {
    assert order == order[..at] + order[at..];
  }

  lemma HasMember(s: seq<nat>)
    requires s != []
    ensures exists x :: x in s
  {
    assert s[0] in s;
  }

  /** There is only one stable order. */
  lemma {:induction false} OrderIsUnique(keys: seq<nat>, a: seq<nat>, b: seq<nat>)
    requires Ascending(keys, a) && Ascending(keys, b)
    requires forall i :: i in a <==> i in b
    ensures a == b
    decreases |a|
  {
    if a == [] {
      if b != [] {
        HasMember(b);
      }
    } else {
      assert a[0] in b;
      var m, n := |a| - 1, |b| - 1;
      assert a[m] in b && b[n] in a;
      assert a[m] == b[n];
      forall i ensures i in a[..m] <==> i in b[..n] {
        if i in a[..m] {
          assert i in a;
          assert i in b;
        }
        if i in b[..n] {
          assert i in b;
          assert i in a;
        }
      }
      OrderIsUnique(keys, a[..m], b[..n]);
      assert a == a[..m] + [a[m]] && b == b[..n] + [b[n]];
    }
  }

  function Keys(tensors: seq<Tensor>): (r: seq<nat>)
    ensures |r| == |tensors|
  {
    seq(|tensors|, i requires 0 <= i < |tensors| => KeyOf(tensors[i].name))
  }

  ghost predicate UsageOrdered(tensors: seq<Tensor>, order: seq<nat>) {
    StableOrder(Keys(tensors), order)
  }

  method UsageOrder(tensors: seq<Tensor>) returns (order: seq<nat>)
    ensures UsageOrdered(tensors, order)
  {
    var keys := [];
    var i := 0;
    while i < |tensors|
      invariant 0 <= i <= |tensors| && keys == Keys(tensors)[..i]
    {
      var key := OrderKey(tensors[i].name);
      keys := keys + [key];
      i := i + 1;
    }
    order := StableSort(keys);
    assert keys == Keys(tensors);
  }

  /** Every tensor once, by ascending key, and those with equal keys as they were. */
  lemma UsageOrderIs(tensors: seq<Tensor>, order: seq<nat>)
    requires UsageOrdered(tensors, order)
    ensures |order| == |tensors| && (forall j :: 0 <= j < |order| ==> order[j] < |tensors|)
    ensures forall i: nat :: i < |tensors| ==> i in order
    ensures forall j, k :: 0 <= j < k < |order| ==>
      || KeyOf(tensors[order[j]].name) < KeyOf(tensors[order[k]].name)
      || (KeyOf(tensors[order[j]].name) == KeyOf(tensors[order[k]].name) && order[j] < order[k])
  {
    hide KeyOf;
    forall j, k | 0 <= j < k < |order| ensures Before(Keys(tensors), order[j], order[k]) {
    }
  }

  // ---- offsets --------------------------------------------------------------------------

  function AlignUp(x: nat, a: nat): nat
    requires a > 0
  {
    (x + a - 1) / a * a
  }

  lemma AlignUpIs(x: nat)
    ensures x <= AlignUp(x, ALIGNMENT) < x + ALIGNMENT && AlignUp(x, ALIGNMENT) % ALIGNMENT == 0
  {
  }

  /** A tensor in writing order; `coded` is its compressed form if it is stored in that form. */
  datatype Item = Item(tensor: Tensor, coded: Option<seq<byte>>) {
    function Bytes(): seq<byte> {
      tensor.data.GetOr([])
    }

    function Stored(): seq<byte> {
      coded.GetOr(Bytes())
    }
  }

  type Hash = seq<byte> -> Word

  function KeyAt(items: seq<Item>, hash: Hash, k: nat): (Word, nat, Word32)
    requires k < |items|
  {
    (hash(items[k].Bytes()), |items[k].Bytes()|, items[k].tensor.kind)
  }

  function FirstFrom(items: seq<Item>, hash: Hash, j: nat, k: nat): (r: nat)
    requires j <= k < |items|
    ensures j <= r <= k && KeyAt(items, hash, r) == KeyAt(items, hash, k)
    decreases k - j
  {
    if KeyAt(items, hash, j) == KeyAt(items, hash, k) then j else FirstFrom(items, hash, j + 1, k)
  }

  /** The first item with the hash, size and type of item `k`. */
  function First(items: seq<Item>, hash: Hash, k: nat): (r: nat)
    requires k < |items|
    ensures r <= k && KeyAt(items, hash, r) == KeyAt(items, hash, k)
  {
    FirstFrom(items, hash, 0, k)
  }

  lemma {:induction false} NoneBefore(items: seq<Item>, hash: Hash, i: nat, j: nat, k: nat)
    requires j <= k < |items| && j <= i < FirstFrom(items, hash, j, k)
    ensures KeyAt(items, hash, i) != KeyAt(items, hash, k)
    decreases k - j
  {
    if j < i {
      NoneBefore(items, hash, i, j + 1, k);
    }
  }

  /** No earlier item has the key, and items with one key have one first. */
  lemma FirstIsFirst(items: seq<Item>, hash: Hash, j: nat, k: nat)
    requires j < |items| && k < |items| && KeyAt(items, hash, j) == KeyAt(items, hash, k)
    ensures First(items, hash, k) <= j && First(items, hash, j) == First(items, hash, k)
  {
    var a, b := First(items, hash, j), First(items, hash, k);
    if a < b {
      NoneBefore(items, hash, a, 0, k);
    } else if b < a {
      NoneBefore(items, hash, b, 0, j);
    }
  }

  predicate SameContent(a: Item, b: Item) {
    a.coded.Some? == b.coded.Some? && a.Bytes() == b.Bytes()
  }

  /** Item `k` has a region of its own: it is the first with its key, or it differs from the first. */
  predicate Owner(items: seq<Item>, hash: Hash, k: nat)
    requires k < |items|
  {
    var f := First(items, hash, k);
    f == k || !SameContent(items[f], items[k])
  }

  /** The end of the data after `k` items. */
  function Running(items: seq<Item>, hash: Hash, start: nat, k: nat): (r: nat)
    requires k <= |items|
    ensures r >= start
  {
    if k == 0 then start
    else if Owner(items, hash, k - 1) then
      AlignUpIs(Running(items, hash, start, k - 1));
      AlignUp(Running(items, hash, start, k - 1), ALIGNMENT) + |items[k - 1].Stored()|
    else Running(items, hash, start, k - 1)
  }

  function Offset(items: seq<Item>, hash: Hash, start: nat, k: nat): nat
    requires k < |items|
  {
    var at := if Owner(items, hash, k) then k else First(items, hash, k);
    AlignUp(Running(items, hash, start, at), ALIGNMENT)
  }

  lemma {:induction false} RunningGrows(items: seq<Item>, hash: Hash, start: nat, j: nat, k: nat)
    requires j <= k <= |items|
    ensures Running(items, hash, start, j) <= Running(items, hash, start, k)
  {
    if j < k {
      RunningGrows(items, hash, start, j, k - 1);
      AlignUpIs(Running(items, hash, start, k - 1));
    }
  }

  /** Regions are page-aligned, inside the data, and apart from each other. */
  lemma RegionsAreApart(items: seq<Item>, hash: Hash, start: nat, j: nat, k: nat)
    requires j < |items| && k < |items| && Owner(items, hash, j) && Owner(items, hash, k)
    ensures Offset(items, hash, start, j) % 16384 == 0 && start <= Offset(items, hash, start, j)
    ensures Offset(items, hash, start, j) + |items[j].Stored()| <= Running(items, hash, start, |items|)
    ensures j < k ==> Offset(items, hash, start, j) + |items[j].Stored()| <= Offset(items, hash, start, k)
  {
    AlignUpIs(Running(items, hash, start, j));
    AlignUpIs(Running(items, hash, start, k));
    RunningGrows(items, hash, start, j + 1, |items|);
    if j < k {
      RunningGrows(items, hash, start, j + 1, k);
    }
  }

  /** The owner of the region of item `k`. */
  function OwnerOf(items: seq<Item>, hash: Hash, k: nat): (r: nat)
    requires k < |items|
    ensures r <= k && Owner(items, hash, r) && SameContent(items[r], items[k])
    ensures KeyAt(items, hash, r) == KeyAt(items, hash, k)
  {
    FirstIsFirst(items, hash, First(items, hash, k), k);
    if Owner(items, hash, k) then k else First(items, hash, k)
  }

  /** Tensors at the same offset are byte for byte equal, whatever the hash, unless one of them is empty. */
  lemma SharersAreEqual(items: seq<Item>, hash: Hash, start: nat, j: nat, k: nat)
    requires j < |items| && k < |items| && Offset(items, hash, start, j) == Offset(items, hash, start, k)
    requires items[OwnerOf(items, hash, j)].Stored() != [] && items[OwnerOf(items, hash, k)].Stored() != []
    ensures SameContent(items[j], items[k]) && items[j].tensor.kind == items[k].tensor.kind
  {
    var a, b := OwnerOf(items, hash, j), OwnerOf(items, hash, k);
    RegionsAreApart(items, hash, start, a, b);
    RegionsAreApart(items, hash, start, b, a);
    assert a == b;
  }

  /** Without a collision of hashes, equal tensors are stored once: exactly the first has a region. */
  lemma StoredOnce(items: seq<Item>, hash: Hash, k: nat)
    requires k < |items|
    requires forall i, j :: 0 <= i < |items| && 0 <= j < |items| ==>
      (KeyAt(items, hash, i) == KeyAt(items, hash, j) ==> SameContent(items[i], items[j]))
    ensures Owner(items, hash, k) <==>
      !exists j :: 0 <= j < k && items[j].tensor.kind == items[k].tensor.kind && SameContent(items[j], items[k])
  {
    var f := First(items, hash, k);
    if f < k {
      assert SameContent(items[f], items[k]);
    } else {
      forall j | 0 <= j < k
        ensures !(items[j].tensor.kind == items[k].tensor.kind && SameContent(items[j], items[k]))
      {
        NoneBefore(items, hash, j, 0, k);
      }
    }
  }

  // ---- the data section -----------------------------------------------------------------

  /** The file after `k` items are written behind `head`, with zeros up to every region. */
  function Written(head: seq<byte>, items: seq<Item>, hash: Hash, start: nat, k: nat): seq<byte>
    requires k <= |items|
  {
    if k == 0 then Padded(head, start)
    else
      var before := Written(head, items, hash, start, k - 1);
      if Owner(items, hash, k - 1) then Padded(before, Offset(items, hash, start, k - 1)) + items[k - 1].Stored() else before
  }

  lemma {:induction false} WrittenLength(head: seq<byte>, items: seq<Item>, hash: Hash, start: nat, k: nat)
    requires k <= |items| && |head| <= start
    ensures |Written(head, items, hash, start, k)| == Running(items, hash, start, k)
    ensures Places(Written(head, items, hash, start, k), 0, head)
  {
    if k > 0 {
      WrittenLength(head, items, hash, start, k - 1);
      AlignUpIs(Running(items, hash, start, k - 1));
    }
  }

  lemma PlacesBefore(file: seq<byte>, longer: seq<byte>, at: nat, part: seq<byte>)
    requires Places(file, at, part) && file <= longer
    ensures Places(longer, at, part)
  {
    assert longer[at..at + |part|] == file[at..at + |part|];
  }

  /** Every region holds what its owner stores. */
  lemma {:induction false} RegionsHold(head: seq<byte>, items: seq<Item>, hash: Hash, start: nat, j: nat, k: nat)
    requires j < k <= |items| && |head| <= start && Owner(items, hash, j)
    ensures Places(Written(head, items, hash, start, k), Offset(items, hash, start, j), items[j].Stored())
  {
    hide Owner;
    hide Running;
    hide AlignUp;
    var before := Written(head, items, hash, start, k - 1);
    WrittenLength(head, items, hash, start, k - 1);
    if j < k - 1 {
      RegionsHold(head, items, hash, start, j, k - 1);
      if Owner(items, hash, k - 1) {
        PlacesBefore(before, Padded(before, Offset(items, hash, start, k - 1)) + items[k - 1].Stored(),
                     Offset(items, hash, start, j), items[j].Stored());
      }
    } else {
      assert |before| <= Offset(items, hash, start, j) by {
        AlignUpIs(Running(items, hash, start, k - 1));
      }
    }
  }
}
