/** Byte strings inside files, and buffers that are appended to. */
module ByteStreams {
  import opened Arith
  import opened LittleEndian

  type Word = n: int | 0 <= n < U64

  /** `part` stands in `file` at `at`. */
  predicate Places(file: seq<byte>, at: nat, part: seq<byte>) {
    at + |part| <= |file| && file[at..at + |part|] == part
  }

  lemma PlacesBoth(file: seq<byte>, at: nat, a: seq<byte>, b: seq<byte>)
    ensures Places(file, at, a + b) <==> Places(file, at, a) && Places(file, at + |a|, b)
  {
    if at + |a| + |b| <= |file| {
      var ab := file[at..at + |a| + |b|];
      assert ab[..|a|] == file[at..at + |a|];
      assert ab[|a|..] == file[at + |a|..at + |a| + |b|];
      assert ab == ab[..|a|] + ab[|a|..];
      assert (a + b)[..|a|] == a && (a + b)[|a|..] == b;
    }
  }

  /** The number of `k` bytes at `at`. */
  function Field(file: seq<byte>, at: nat, k: nat): nat
    requires at + k <= |file|
  {
    Get(file[at..at + k])
  }

  lemma FieldIs(file: seq<byte>, at: nat, v: nat, k: nat)
    requires Places(file, at, Put(v, k)) && v < Pow2(8 * k)
    ensures Field(file, at, k) == v
  {
    GetPut(v, k);
  }

  lemma {:induction false} GetRange(b: seq<byte>)
    ensures Get(b) < Pow2(8 * |b|)
  {
    if b != [] {
      GetRange(b[1..]);
      Pow2Values();
      Pow2Add(8, 8 * (|b| - 1));
      assert 8 + 8 * (|b| - 1) == 8 * |b|;
    }
  }

  lemma FieldRange(file: seq<byte>, at: nat, k: nat)
    requires at + k <= |file|
    ensures Field(file, at, k) < Pow2(8 * k)
    ensures k == 8 ==> Field(file, at, k) < U64
    ensures k == 4 ==> Field(file, at, k) < 0x1_0000_0000
  {
    GetRange(file[at..at + k]);
    WordSize();
    HalfWordSize();
  }

  lemma HalfWordSize()
    ensures Pow2(32) == 0x1_0000_0000
  {
    Pow2Values();
    Pow2Add(16, 16);
  }

  function Zeros(n: nat): (r: seq<byte>)
    ensures |r| == n
  {
    seq(n, _ => 0)
  }

  function Padded(b: seq<byte>, n: nat): (r: seq<byte>) {
    b + Zeros(Max(0, n - |b|))
  }

  class ByteBuf {
    var data: seq<byte>

    constructor ()
      ensures data == []
    {
      data := [];
    }

    method PutNumber(v: nat, k: nat)
      modifies this
      ensures data == old(data) + Put(v, k)
    {
      data := data + Put(v, k);
    }

    method PutBytes(b: seq<byte>)
      modifies this
      ensures data == old(data) + b
    {
      data := data + b;
    }

    method PadTo(n: nat)
      modifies this
      ensures data == Padded(old(data), n)
    {
      data := data + Zeros(Max(0, n - |data|));
    }
  }
}
