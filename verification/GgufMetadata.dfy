/**
 * Metadata values and their encoding: typed numbers, truth values, texts and flat arrays. The reader
 * is a cursor over the bytes of the file that checks every step against the end.
 */
module GgufMetadata {
  import opened Results
  import opened Arith
  import opened LittleEndian
  import opened ByteStreams

  const BOOL: nat := 7
  const STRING: nat := 8
  const ARRAY: nat := 9
  const LAST_TYPE: nat := 12

  /** `kind` is the number of a numeric type and `bits` its representation. */
  datatype MetaValue = Number(kind: nat, bits: nat) | Truth(b: bool) | Text(s: seq<byte>)
                     | Array(elem: nat, values: seq<MetaValue>)

  datatype MetaError = EndOfFile | ElementType | NestedArray | ArrayCount

  function TypeOf(v: MetaValue): nat {
    match v
    case Number(kind, _) => kind
    case Truth(_) => BOOL
    case Text(_) => STRING
    case Array(_, _) => ARRAY
  }

  predicate Numeric(kind: nat) {
    kind <= LAST_TYPE && kind != BOOL && kind != STRING && kind != ARRAY
  }

  function Width(kind: nat): nat {
    if kind <= 1 then 1 else if kind <= 3 then 2 else if kind <= 6 then 4 else 8
  }

  predicate ScalarOf(v: MetaValue, ty: nat) {
    && TypeOf(v) == ty && !v.Array?
    && (v.Number? ==> Numeric(v.kind) && v.bits < Pow2(8 * Width(v.kind)))
  }

  /** Numbers fit their types and arrays hold scalars of their element type. */
  predicate WellFormed(v: MetaValue) {
    match v
    case Array(elem, values) => elem <= LAST_TYPE && elem != ARRAY && forall i :: 0 <= i < |values| ==> ScalarOf(values[i], elem)
    case _ => ScalarOf(v, TypeOf(v))
  }

  // ---- encoding -----------------------------------------------------------------------------

  function TextBytes(s: seq<byte>): seq<byte> {
    Put(|s|, 8) + s
  }

  function MetaBytes(v: MetaValue): seq<byte>
    decreases v
  {
    match v
    case Number(kind, bits) => Put(bits, Width(kind))
    case Truth(b) => Put(if b then 1 else 0, 1)
    case Text(s) => TextBytes(s)
    case Array(elem, values) => Put(elem, 4) + (Put(|values|, 8) + AllBytes(values))
  }

  function AllBytes(values: seq<MetaValue>): seq<byte>
    decreases values
  {
    if values == [] then [] else AllBytes(values[..|values| - 1]) + MetaBytes(values[|values| - 1])
  }

  method PutText(b: ByteBuf, s: seq<byte>)
    modifies b
    ensures b.data == old(b.data) + TextBytes(s)
  {
    b.PutNumber(|s|, 8);
    b.PutBytes(s);
  }

  method PutMetaValue(b: ByteBuf, v: MetaValue)
    modifies b
    ensures b.data == old(b.data) + MetaBytes(v)
    decreases v
  {
    hide Put;
    match v {
      case Number(kind, bits) => b.PutNumber(bits, Width(kind));
      case Truth(t) => b.PutNumber(if t then 1 else 0, 1);
      case Text(s) => PutText(b, s);
      case Array(elem, values) =>
        b.PutNumber(elem, 4);
        b.PutNumber(|values|, 8);
        ghost var start := b.data;
        var i := 0;
        while i < |values|
          invariant 0 <= i <= |values|
          invariant b.data == start + AllBytes(values[..i])
        {
          PutMetaValue(b, values[i]);
          assert values[..i + 1][..i] == values[..i];
          i := i + 1;
        }
        assert values[..i] == values;
    }
  }

  // ---- decoding -----------------------------------------------------------------------------

  function ParseNumber(file: seq<byte>, size: nat, at: nat, k: nat): (r: Result<(nat, nat), MetaError>)
    requires at <= size <= |file|
    ensures r.Ok? ==> r.value.1 == at + k <= size
  {
    if at + k > size then Err(EndOfFile) else Ok((Field(file, at, k), at + k))
  }

  function ParseText(file: seq<byte>, size: nat, at: nat): (r: Result<(seq<byte>, nat), MetaError>)
    requires at <= size <= |file|
    ensures r.Ok? ==> at <= r.value.1 <= size
  {
    match ParseNumber(file, size, at, 8)
    case Err(e) => Err(e)
    case Ok((len, from)) => if len > size - from then Err(EndOfFile) else Ok((file[from..from + len], from + len))
  }

  /** A value of a type other than array. */
  function ParseScalar(file: seq<byte>, size: nat, at: nat, ty: nat): (r: Result<(MetaValue, nat), MetaError>)
    requires at <= size <= |file|
    ensures r.Ok? ==> at < r.value.1 <= size
  {
    if ty == STRING then
      match ParseText(file, size, at)
      case Err(e) => Err(e)
      case Ok((s, next)) => Ok((Text(s), next))
    else
      match ParseNumber(file, size, at, if ty == BOOL then 1 else Width(ty))
      case Err(e) => Err(e)
      case Ok((v, next)) => Ok((if ty == BOOL then Truth(v != 0) else Number(ty, v), next))
  }

  function ParseMany(file: seq<byte>, size: nat, at: nat, elem: nat, n: nat): (r: Result<(seq<MetaValue>, nat), MetaError>)
    requires at <= size <= |file|
    ensures r.Ok? ==> at <= r.value.1 <= size && |r.value.0| == n
  {
    if n == 0 then Ok(([], at))
    else
      match ParseMany(file, size, at, elem, n - 1)
      case Err(e) => Err(e)
      case Ok((values, from)) =>
        match ParseScalar(file, size, from, elem)
        case Err(e) => Err(e)
        case Ok((v, next)) => Ok((values + [v], next))
  }

  function ParseArray(file: seq<byte>, size: nat, at: nat): (r: Result<(MetaValue, nat), MetaError>)
    requires at <= size <= |file|
    ensures r.Ok? ==> at < r.value.1 <= size
  {
    match ParseNumber(file, size, at, 4)
    case Err(e) => Err(e)
    case Ok((elem, next)) =>
      if elem > LAST_TYPE then Err(ElementType)
      else if elem == ARRAY then Err(NestedArray)
      else
        match ParseNumber(file, size, next, 8)
        case Err(e) => Err(e)
        case Ok((count, from)) =>
          if count > size - from then Err(ArrayCount)
          else
            match ParseMany(file, size, from, elem, count)
            case Err(e) => Err(e)
            case Ok((values, end)) => Ok((Array(elem, values), end))
  }

  function ParseValue(file: seq<byte>, size: nat, at: nat, ty: nat): (r: Result<(MetaValue, nat), MetaError>)
    requires at <= size <= |file|
    ensures r.Ok? ==> at < r.value.1 <= size
  {
    if ty == ARRAY then ParseArray(file, size, at) else ParseScalar(file, size, at, ty)
  }

  /** A read returned the value that `parse` has, and moved to where `parse` ends. */
  ghost predicate Agrees<T>(parse: Result<(T, nat), MetaError>, r: Result<T, MetaError>, pos: nat) {
    match parse
    case Err(e) => r == Err(e)
    case Ok((v, next)) => r == Ok(v) && pos == next
  }

  /** A forward reader of the first `size` bytes of `base`. */
  class Cursor {
    const base: seq<byte>
    const size: nat
    var pos: nat

    ghost predicate Valid()
      reads this
    {
      pos <= size <= |base|
    }

    constructor (base: seq<byte>, size: nat, pos: nat)
      requires pos <= size <= |base|
      ensures Valid() && this.base == base && this.size == size && this.pos == pos
    {
      this.base, this.size, this.pos := base, size, pos;
    }

    method ReadScalar(k: nat) returns (r: Result<nat, MetaError>)
      requires Valid()
      modifies this
      ensures Valid() && Agrees(ParseNumber(base, size, old(pos), k), r, pos)
      ensures r.Err? ==> pos == old(pos)
    {
      if pos + k > size {
        return Err(EndOfFile);
      }
      r := Ok(Field(base, pos, k));
      pos := pos + k;
    }

    /** A text that runs past the end leaves the cursor behind its length. */
    method ReadString() returns (r: Result<seq<byte>, MetaError>)
      requires Valid()
      modifies this
      ensures Valid() && Agrees(ParseText(base, size, old(pos)), r, pos)
      ensures r.Err? ==> pos == if old(pos) + 8 > size then old(pos) else old(pos) + 8
    {
      var len := ReadScalar(8);
      if len.Err? {
        return Err(len.error);
      }
      if len.value > size - pos {
        return Err(EndOfFile);
      }
      r := Ok(base[pos..pos + len.value]);
      pos := pos + len.value;
    }

    method ReadMetaValue(ty: nat) returns (r: Result<MetaValue, MetaError>)
      requires Valid() && ty <= LAST_TYPE
      modifies this
      ensures Valid() && Agrees(ParseValue(base, size, old(pos), ty), r, pos)
      decreases ty == ARRAY
    {
      if ty == BOOL {
        var v := ReadScalar(1);
        r := if v.Err? then Err(v.error) else Ok(Truth(v.value != 0));
      } else if ty == STRING {
        var s := ReadString();
        r := if s.Err? then Err(s.error) else Ok(Text(s.value));
      } else if ty == ARRAY {
        r := ReadArray();
      } else {
        var v := ReadScalar(Width(ty));
        r := if v.Err? then Err(v.error) else Ok(Number(ty, v.value));
      }
    }

    method ReadArray() returns (r: Result<MetaValue, MetaError>)
      requires Valid()
      modifies this
      ensures Valid() && Agrees(ParseArray(base, size, old(pos)), r, pos)
      decreases true, 0
    {
      hide Get;
      hide ParseScalar;
      var elem := ReadScalar(4);
      if elem.Err? {
        return Err(elem.error);
      }
      if elem.value > LAST_TYPE {
        return Err(ElementType);
      }
      if elem.value == ARRAY {
        return Err(NestedArray);
      }
      var count := ReadScalar(8);
      if count.Err? {
        return Err(count.error);
      }
      if count.value > size - pos {
        return Err(ArrayCount);
      }
      ghost var from := pos;
      var values := [];
      var i := 0;
      while i < count.value
        invariant 0 <= i <= count.value && Valid()
        invariant ParseMany(base, size, from, elem.value, i) == Ok((values, pos))
      {
        var v := ReadMetaValue(elem.value);
        if v.Err? {
          ManyStops(base, size, from, elem.value, i + 1, count.value);
          return Err(v.error);
        }
        values := values + [v.value];
        i := i + 1;
      }
      r := Ok(Array(elem.value, values));
    }
  }

  /** Once an element fails the whole array fails in the same way. */
  lemma {:induction false} ManyStops(file: seq<byte>, size: nat, at: nat, elem: nat, i: nat, n: nat)
    requires at <= size <= |file| && i <= n
    requires ParseMany(file, size, at, elem, i).Err?
    ensures ParseMany(file, size, at, elem, n) == ParseMany(file, size, at, elem, i)
  {
    if i < n {
      ManyStops(file, size, at, elem, i, n - 1);
    }
  }

  // ---- round trip -------------------------------------------------------------------------

  lemma TextRoundTrip(file: seq<byte>, size: nat, at: nat, s: seq<byte>)
    requires at + |TextBytes(s)| <= size <= |file| && size < U64 && Places(file, at, TextBytes(s))
    ensures ParseText(file, size, at) == Ok((s, at + |TextBytes(s)|))
  {
    PlacesBoth(file, at, Put(|s|, 8), s);
    WordSize();
    FieldIs(file, at, |s|, 8);
  }

  lemma ScalarRoundTrip(file: seq<byte>, size: nat, at: nat, v: MetaValue)
    requires ScalarOf(v, TypeOf(v)) && size < U64
    requires at + |MetaBytes(v)| <= size <= |file| && Places(file, at, MetaBytes(v))
    ensures ParseScalar(file, size, at, TypeOf(v)) == Ok((v, at + |MetaBytes(v)|))
  {
    match v {
      case Number(kind, bits) => FieldIs(file, at, bits, Width(kind));
      case Truth(b) =>
        Pow2Values();
        FieldIs(file, at, if b then 1 else 0, 1);
      case Text(s) => TextRoundTrip(file, size, at, s);
    }
  }

  lemma {:induction false} ManyRoundTrip(file: seq<byte>, size: nat, at: nat, elem: nat, values: seq<MetaValue>)
    requires size < U64 && forall i :: 0 <= i < |values| ==> ScalarOf(values[i], elem)
    requires at + |AllBytes(values)| <= size <= |file| && Places(file, at, AllBytes(values))
    ensures ParseMany(file, size, at, elem, |values|) == Ok((values, at + |AllBytes(values)|))
    ensures |values| <= |AllBytes(values)|
  {
    hide Put;
    hide Get;
    hide Pow2;
    if values != [] {
      var n := |values| - 1;
      PlacesBoth(file, at, AllBytes(values[..n]), MetaBytes(values[n]));
      ManyRoundTrip(file, size, at, elem, values[..n]);
      ScalarRoundTrip(file, size, at + |AllBytes(values[..n])|, values[n]);
      assert values == values[..n] + [values[n]];
    }
  }

  lemma ValueRoundTrip(file: seq<byte>, size: nat, at: nat, v: MetaValue)
    requires WellFormed(v) && size < U64
    requires at + |MetaBytes(v)| <= size <= |file| && Places(file, at, MetaBytes(v))
    ensures ParseValue(file, size, at, TypeOf(v)) == Ok((v, at + |MetaBytes(v)|))
  {
    hide Put;
    hide Get;
    hide Pow2;
    match v {
      case Array(elem, values) =>
        PlacesBoth(file, at, Put(elem, 4), Put(|values|, 8) + AllBytes(values));
        PlacesBoth(file, at + 4, Put(|values|, 8), AllBytes(values));
        ManyRoundTrip(file, size, at + 12, elem, values);
        WordSize();
        HalfWordSize();
        FieldIs(file, at, elem, 4);
        FieldIs(file, at + 4, |values|, 8);
      case _ => ScalarRoundTrip(file, size, at, v);
    }
  }

  lemma ScalarIsWellFormed(file: seq<byte>, size: nat, at: nat, ty: nat)
    requires at <= size <= |file| && ty <= LAST_TYPE && ty != ARRAY
    ensures var r := ParseScalar(file, size, at, ty); r.Ok? ==> ScalarOf(r.value.0, ty)
  {
    var r := ParseScalar(file, size, at, ty);
    if r.Ok? && r.value.0.Number? {
      FieldRange(file, at, Width(ty));
    }
  }

  lemma {:induction false} ManyAreWellFormed(file: seq<byte>, size: nat, at: nat, elem: nat, n: nat)
    requires at <= size <= |file| && elem <= LAST_TYPE && elem != ARRAY
    ensures var r := ParseMany(file, size, at, elem, n);
      r.Ok? ==> forall i :: 0 <= i < n ==> ScalarOf(r.value.0[i], elem)
  {
    if n > 0 {
      ManyAreWellFormed(file, size, at, elem, n - 1);
      var r := ParseMany(file, size, at, elem, n - 1);
      if r.Ok? {
        ScalarIsWellFormed(file, size, r.value.1, elem);
      }
    }
  }

  /** Whatever the reader accepts is well formed and of the type it was asked for. */
  lemma ReadIsWellFormed(file: seq<byte>, size: nat, at: nat, ty: nat)
    requires at <= size <= |file| && ty <= LAST_TYPE
    ensures var r := ParseValue(file, size, at, ty); r.Ok? ==> WellFormed(r.value.0) && TypeOf(r.value.0) == ty
  {
    if ty != ARRAY {
      ScalarIsWellFormed(file, size, at, ty);
    } else {
      var r := ParseArray(file, size, at);
      if r.Ok? {
        ManyAreWellFormed(file, size, at + 12, r.value.0.elem, |r.value.0.values|);
      }
    }
  }

  /** A value that was written is read back exactly if it is well formed. */
  lemma ReadBackExactly(file: seq<byte>, size: nat, at: nat, v: MetaValue)
    requires size < U64 && TypeOf(v) <= LAST_TYPE
    requires at + |MetaBytes(v)| <= size <= |file| && Places(file, at, MetaBytes(v))
    ensures ParseValue(file, size, at, TypeOf(v)) == Ok((v, at + |MetaBytes(v)|)) <==> WellFormed(v)
  {
    if WellFormed(v) {
      ValueRoundTrip(file, size, at, v);
    } else {
      ReadIsWellFormed(file, size, at, TypeOf(v));
    }
  }

  /** The codes of the types and the widths of the numbers, one by one. */
  lemma TypesAndWidths(v: MetaValue)
    ensures v.Truth? ==> TypeOf(v) == 7 && MetaBytes(v) == [if v.b then 1 else 0]
    ensures v.Text? ==> TypeOf(v) == 8 && MetaBytes(v) == Put(|v.s|, 8) + v.s
    ensures v.Array? ==> TypeOf(v) == 9 && |MetaBytes(v)| >= 12 && MetaBytes(v)[..12] == Put(v.elem, 4) + Put(|v.values|, 8)
    ensures WellFormed(v) && v.Number? ==> TypeOf(v) == v.kind && v.kind in {0, 1, 2, 3, 4, 5, 6, 10, 11, 12}
    ensures v.Number? && v.kind in {0, 1} ==> MetaBytes(v) == Put(v.bits, 1)
    ensures v.Number? && v.kind in {2, 3} ==> MetaBytes(v) == Put(v.bits, 2)
    ensures v.Number? && v.kind in {4, 5, 6} ==> MetaBytes(v) == Put(v.bits, 4)
    ensures v.Number? && v.kind in {10, 11, 12} ==> MetaBytes(v) == Put(v.bits, 8)
  {
  }

  /** Arrays of unknown element types, arrays of arrays and counts that cannot fit are refused, in this order. */
  lemma ArrayTests(file: seq<byte>, size: nat, at: nat)
    requires at + 12 <= size <= |file|
    ensures ParseValue(file, size, at, 9) == Err(ElementType) <==> Field(file, at, 4) > 12
    ensures ParseValue(file, size, at, 9) == Err(NestedArray) <==> Field(file, at, 4) == 9
    ensures ParseValue(file, size, at, 9) == Err(ArrayCount) <==>
      Field(file, at, 4) <= 12 && Field(file, at, 4) != 9 && at + 12 + Field(file, at + 4, 8) > size
  {
    hide Get;
    if Field(file, at, 4) <= 12 && Field(file, at, 4) != 9 && Field(file, at + 4, 8) <= size - (at + 12) {
      ElementErrors(file, size, at + 12, Field(file, at, 4), Field(file, at + 4, 8));
    }
  }

  lemma {:induction false} ElementErrors(file: seq<byte>, size: nat, at: nat, elem: nat, n: nat)
    requires at <= size <= |file|
    ensures ParseMany(file, size, at, elem, n).Err? ==> ParseMany(file, size, at, elem, n).error == EndOfFile
  {
    hide Get;
    if n > 0 {
      ElementErrors(file, size, at, elem, n - 1);
    }
  }
}
