/** Bytes and the fixed-width integer limits of the modelled code (a 64-bit
    target, so `usize` is 64 bits). */
module Bytes {

  newtype byte = x: int | 0 <= x < 256

  const USIZE_MAX: nat := 0xFFFF_FFFF_FFFF_FFFF
  const ISIZE_MAX: nat := 0x7FFF_FFFF_FFFF_FFFF
  const U32_MAX: nat := 0xFFFF_FFFF

  /** `usize::saturating_mul`. */
  function SaturatingMul(a: nat, b: nat): (r: nat)
    ensures r <= USIZE_MAX
    ensures a * b <= USIZE_MAX ==> r == a * b
    ensures a * b > USIZE_MAX ==> r == USIZE_MAX
  {
    if a * b <= USIZE_MAX then a * b else USIZE_MAX
  }

  /** `n as u32`: keeps the low 32 bits. */
  function AsU32(n: nat): (r: nat)
    ensures r <= U32_MAX
    ensures n <= U32_MAX ==> r == n
  {
    n % (U32_MAX + 1)
  }

  /** Concatenation of a sequence of byte chunks. */
  function Flatten(chunks: seq<seq<byte>>): seq<byte> {
    if |chunks| == 0 then [] else chunks[0] + Flatten(chunks[1..])
  }

  lemma {:induction false} FlattenAppend(a: seq<seq<byte>>, b: seq<seq<byte>>)
    ensures Flatten(a + b) == Flatten(a) + Flatten(b)
  {
    if |a| == 0 {
      assert a + b == b;
    } else {
      assert (a + b)[1..] == a[1..] + b;
      FlattenAppend(a[1..], b);
    }
  }

  /** Concatenation regroups freely. */
  lemma Regroup(a: seq<byte>, b: seq<byte>, c: seq<byte>)
    ensures (a + b) + c == a + (b + c)
  {
  }

  lemma {:induction false} FlattenLength(chunks: seq<seq<byte>>, size: nat)
    requires forall i :: 0 <= i < |chunks| ==> |chunks[i]| == size
    ensures |Flatten(chunks)| == |chunks| * size
  {
    if |chunks| > 0 {
      FlattenLength(chunks[1..], size);
    }
  }
}
