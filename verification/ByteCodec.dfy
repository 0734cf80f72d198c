/** The byte-level codec: every byte has a printable code point of its own. */
module ByteCodec {
  import opened Arith
  import Utf8

  /** Bytes that are printable as they are. */
  predicate IsDirect(b: nat) {
    0x21 <= b <= 0x7E || 0xA1 <= b <= 0xAC || 0xAE <= b <= 0xFF
  }

  /** How many bytes below `b` are not. */
  function OthersBelow(b: nat): nat {
    if b == 0 then 0 else OthersBelow(b - 1) + if IsDirect(b - 1) then 0 else 1
  }

  /** The code point of a byte: itself, or the next unused one from 256 on. */
  function CodePoint(b: byte): nat {
    if IsDirect(b) then b else 256 + OthersBelow(b)
  }

  lemma {:induction false} OthersGrow(a: nat, b: nat)
    requires a < b && !IsDirect(a)
    ensures OthersBelow(a) < OthersBelow(b)
    decreases b
  {
    if a + 1 < b {
      OthersGrow(a, b - 1);
    }
  }

  lemma {:induction false} OthersBounded(b: nat)
    ensures OthersBelow(b) <= b
  {
    if b > 0 {
      OthersBounded(b - 1);
    }
  }

  /** No two bytes share a code point, and all code points are below 512. */
  lemma CodePointsDiffer(a: byte, b: byte)
    ensures CodePoint(a) == CodePoint(b) ==> a == b
    ensures CodePoint(a) < 512
  {
    OthersBounded(a);
    if a < b && !IsDirect(a) {
      OthersGrow(a, b);
    } else if b < a && !IsDirect(b) {
      OthersGrow(b, a);
    }
  }

  /** The whole table: printable ASCII and most of Latin-1 stand for themselves, the 68 others follow 255 in order. */
  lemma CodePointTable(b: byte)
    ensures 33 <= b <= 126 || 161 <= b <= 172 || 174 <= b ==> CodePoint(b) == b
    ensures b <= 32 ==> CodePoint(b) == 256 + b
    ensures 127 <= b <= 160 ==> CodePoint(b) == 256 + 33 + (b - 127)
    ensures b == 173 ==> CodePoint(b) == 323
  {
    OthersAre(b);
  }

  lemma {:induction false} OthersAre(b: nat)
    requires b <= 256
    ensures OthersBelow(b) == if b <= 33 then b else if b <= 127 then 33 else if b <= 161 then 33 + (b - 127) else if b <= 173 then 67 else 68
  {
    if b > 0 {
      OthersAre(b - 1);
    }
  }

  /** The tables of the codec. */
  class Codec {
    const byteToCpt: array<nat>
    const byteToStr: array<Utf8.Bytes>
    var cptToByte: map<nat, byte>

    /** The tables invert each other and hold the specified code points and their bytes. */
    ghost predicate Valid()
      reads this, byteToCpt, byteToStr
    {
      && byteToCpt.Length == 256 && byteToStr.Length == 256
      && (forall b: byte :: byteToCpt[b] == CodePoint(b) && byteToStr[b] == Utf8.Encode(CodePoint(b)))
      && (forall b: byte :: CodePoint(b) in cptToByte && cptToByte[CodePoint(b)] == b)
      && (forall c :: c in cptToByte ==> CodePoint(cptToByte[c]) == c)
    }

    constructor ()
      ensures Valid() && fresh(byteToCpt) && fresh(byteToStr)
    {
      hide Utf8.Encode;
      var direct := DirectBytes();
      var cpts := new nat[256];
      var strs := new Utf8.Bytes[256];
      var back: map<nat, byte> := map[];
      var n := 0;
      hide IsDirect;
      hide CodePoint;
      for b := 0 to 256
        invariant n == OthersBelow(b)
        invariant forall i :: 0 <= i < 256 ==> direct[i] == IsDirect(i)
        invariant forall i: byte :: i < b ==> cpts[i] == CodePoint(i) && strs[i] == Utf8.Encode(CodePoint(i))
        invariant forall i: byte :: i < b ==> CodePoint(i) in back && back[CodePoint(i)] == i
        invariant forall c :: c in back ==> back[c] < b && CodePoint(back[c]) == c
      {
        var cpt;
        CodePointCases(b);
        if direct[b] {
          cpt := b;
        } else {
          cpt := 256 + n;
          n := n + 1;
        }
        cpts[b] := cpt;
        strs[b] := Utf8.Encode(cpt);
        forall i: byte ensures i < b ==> CodePoint(i) != cpt {
          CodePointsDiffer(i, b);
        }
        back := back[cpt := b];
      }
      byteToCpt, byteToStr, cptToByte := cpts, strs, back;
    }
  }

  lemma CodePointCases(b: byte)
    ensures CodePoint(b) == if IsDirect(b) then b else 256 + OthersBelow(b)
    ensures OthersBelow(b + 1) == OthersBelow(b) + if IsDirect(b) then 0 else 1
  {
  }

  method Mark(direct: array<bool>, lo: nat, hi: nat)
    requires lo <= hi < direct.Length
    modifies direct
    ensures forall i :: 0 <= i < direct.Length ==> direct[i] == (old(direct[i]) || lo <= i <= hi)
  {
    for c := lo to hi + 1
      invariant forall i :: 0 <= i < direct.Length ==> direct[i] == (old(direct[i]) || lo <= i < c)
    {
      direct[c] := true;
    }
  }

  method DirectBytes() returns (direct: array<bool>)
    ensures fresh(direct) && direct.Length == 256 && forall i :: 0 <= i < 256 ==> direct[i] == IsDirect(i)
  {
    direct := new bool[256](i => false);
    Mark(direct, 0x21, 0x7E);
    Mark(direct, 0xA1, 0xAC);
    Mark(direct, 0xAE, 0xFF);
  }
}
