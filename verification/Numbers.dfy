/** Numbers as bytes, and sizes. */
module Numbers {
  import opened Bytes

  const U16 := 0x1_0000
  const U32 := 0x1_0000_0000
  const U64 := 0x1_0000_0000_0000_0000
  const KB64 := 0x1_0000
  const KB128 := 0x2_0000
  const GB := 0x4000_0000

  /** The number that little-endian bytes spell. */
  function ReadLE(p: seq<byte>): nat {
    if p == [] then 0 else var b: nat := p[0]; b + 256 * ReadLE(p[1..])
  }

  /** The number that two big-endian bytes spell. */
  function Read16(p: seq<byte>): (n: nat)
    requires |p| == 2
    ensures n < U16
  {
    var a: nat, b: nat := p[0], p[1];
    256 * a + b
  }

  function Pow256(n: nat): (m: nat)
    ensures m > 0
  {
    if n == 0 then 1 else 256 * Pow256(n - 1)
  }

  lemma PowersOf256()
    ensures Pow256(0) == 1 && Pow256(1) == 0x100 && Pow256(2) == 0x1_0000 && Pow256(3) == 0x100_0000
    ensures Pow256(4) == U32 && Pow256(5) == 0x100 * U32 && Pow256(6) == 0x1_0000 * U32 && Pow256(7) == 0x100_0000 * U32
    ensures Pow256(8) == U64
  {
    assert Pow256(1) == 0x100 && Pow256(2) == 0x1_0000 && Pow256(3) == 0x100_0000;
    assert Pow256(5) == 0x100 * Pow256(4) && Pow256(6) == 0x1_0000 * Pow256(4) && Pow256(7) == 0x100_0000 * Pow256(4);
  }
}
