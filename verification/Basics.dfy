/** Notions shared by the other modules. */
module Basics {

  datatype Option<+T> = None | Some(value: T)

  type Byte = x: nat | x < 256

  /** One more than the greatest 32-bit word. */
  const WORD: nat := 0x1_0000_0000

  const HALF: int := 0x8000_0000

  /** Bytes in a page, and pages in 2^32 bytes */
  const PAGESIZE: nat := 4096
  const PAGES: nat := 0x10_0000

  /** The mask of the ASID field of a TLB entry */
  const MAX_ASID: nat := 0xff

  /** Sums in 32 bits */
  lemma WrapAdd(a: nat, b: nat)
    ensures (a % WORD + b) % WORD == (a + b) % WORD
  {
    var q := a / WORD;
    assert a + b == WORD * q + (a % WORD + b);
  }

  lemma NoWrap(x: nat)
    requires x < WORD
    ensures x % WORD == x
  {
  }

  predicate NoDup(q: seq<nat>) {
    forall x, y :: 0 <= x < y < |q| ==> q[x] != q[y]
  }
}
