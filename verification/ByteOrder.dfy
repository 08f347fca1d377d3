/** Bytes, and numbers in network byte order. */
module ByteOrder {
  type Byte = b: int | 0 <= b < 256
  type Bytes = seq<Byte>

  function Min(a: nat, b: nat): nat { if a <= b then a else b }

  // ---- network byte order ----

  function BigEndian(s: Bytes): nat
  {
    if s == [] then 0 else 256 * BigEndian(s[..|s| - 1]) + s[|s| - 1]
  }

  // The lowest n bytes of v.
  function ToBytes(v: nat, n: nat): (s: Bytes)
    ensures |s| == n
  {
    if n == 0 then [] else ToBytes(v / 256, n - 1) + [v % 256]
  }

  function Pow256(n: nat): nat { if n == 0 then 1 else 256 * Pow256(n - 1) }

  // A number that fits comes back.
  lemma {:induction false} NumberReadsBack(v: nat, n: nat)
    requires v < Pow256(n)
    ensures BigEndian(ToBytes(v, n)) == v
  {
    if n > 0 {
      var s := ToBytes(v, n);
      assert s[..n - 1] == ToBytes(v / 256, n - 1) && s[n - 1] == v % 256;
      NumberReadsBack(v / 256, n - 1);
    }
  }

  // One that does not fit cannot.
  lemma {:induction false} NumberIsBounded(s: Bytes)
    ensures BigEndian(s) < Pow256(|s|)
  {
    if s != [] {
      NumberIsBounded(s[..|s| - 1]);
    }
  }

  lemma Widths()
    ensures Pow256(1) == 0x100 && Pow256(2) == 0x1_0000 && Pow256(4) == 0x1_0000_0000
    ensures Pow256(8) == 0x1_0000_0000_0000_0000
  {
    assert Pow256(3) == 0x100_0000;
    assert Pow256(5) == 0x100_0000_0000;
    assert Pow256(6) == 0x1_0000_0000_0000;
    assert Pow256(7) == 0x100_0000_0000_0000;
  }

  // The first byte weighs most.
  lemma {:induction false} FirstByteWeighsMost(b: Byte, s: Bytes)
    ensures BigEndian([b] + s) == b * Pow256(|s|) + BigEndian(s)
  {
    var t := [b] + s;
    if s == [] {
      assert t[..0] == [];
    } else {
      assert t[..|t| - 1] == [b] + s[..|s| - 1] && t[|t| - 1] == s[|s| - 1];
      FirstByteWeighsMost(b, s[..|s| - 1]);
      assert b * Pow256(|s|) == 256 * (b * Pow256(|s| - 1));
    }
  }
}
