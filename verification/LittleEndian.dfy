/** Numbers of a fixed width as little-endian bytes. */
module LittleEndian {
  import opened Arith

  const U64: nat := 0x1_0000_0000_0000_0000

  function Put(v: nat, k: nat): (r: seq<byte>)
    ensures |r| == k
  {
    if k == 0 then [] else [v % 256] + Put(v / 256, k - 1)
  }

  function Get(b: seq<byte>): nat {
    if b == [] then 0 else b[0] + 256 * Get(b[1..])
  }

  lemma {:induction false} GetPut(v: nat, k: nat)
    requires v < Pow2(8 * k)
    ensures Get(Put(v, k)) == v
  {
    if k > 0 {
      Pow2Add(8, 8 * (k - 1));
      Pow2Values();
      assert 8 + 8 * (k - 1) == 8 * k;
      GetPut(v / 256, k - 1);
      assert Put(v, k)[1..] == Put(v / 256, k - 1);
    }
  }

  lemma WordSize()
    ensures Pow2(64) == U64
  {
    Pow2Values();
    Pow2Add(16, 16);
    Pow2Add(32, 32);
  }

  /** Byte `i` holds the bits from `8 * i` on. */
  lemma {:induction false} PutByte(v: nat, k: nat, i: nat)
    requires i < k
    ensures Put(v, k)[i] == v / Pow2(8 * i) % 256
  {
    Pow2Values();
    if i > 0 {
      PutByte(v / 256, k - 1, i - 1);
      Pow2Add(8, 8 * (i - 1));
      assert 8 + 8 * (i - 1) == 8 * i;
      QuotientOfQuotient(v, Pow2(8 * (i - 1)), Pow2(8 * i));
    }
  }

  lemma QuotientOfQuotient(v: nat, p: nat, q: nat)
    requires p > 0 && q == 256 * p
    ensures v / 256 / p == v / q
  {
    var a, b := v / 256, v / 256 / p;
    assert v == 256 * a + v % 256 && a == p * b + a % p;
    assert q * b == 256 * (p * b);
    assert 0 <= v - q * b < q;
    QuotientIs(v, q, b);
  }

  lemma QuotientIs(v: nat, q: nat, b: nat)
    requires q > 0 && q * b <= v < q * b + q
    ensures v / q == b
  {
    var c := v / q;
    assert v == q * c + v % q;
    MulMonotone(c + 1, b, q);
    MulMonotone(b + 1, c, q);
    NextProduct(c, q);
    NextProduct(b, q);
  }

  /** Any bytes are the bytes of their number. */
  lemma {:induction false} PutGet(b: seq<byte>)
    ensures Put(Get(b), |b|) == b
  {
    if b != [] {
      PutGet(b[1..]);
      assert Get(b) % 256 == b[0] && Get(b) / 256 == Get(b[1..]);
    }
  }
}
