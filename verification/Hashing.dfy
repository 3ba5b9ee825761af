/** Placement arithmetic of the FakeIP allocator (hash.rs). The two mixing functions are parameters, so every
    result below holds whatever they compute. */
module Hashing {
  import opened MachineInts

  datatype Hashes = Hashes(rapid: Bytes -> bv64, fmix: bv64 -> bv64)

  lemma MulHighBound(h: nat, n: nat)
    requires h < TWO_64
    ensures 0 <= h * n / TWO_64 <= n
    ensures n > 0 ==> h * n / TWO_64 < n
  {
    if n > 0 {
      MulStrict(h, TWO_64, n);
      DivBelow(h * n, TWO_64, n);
    }
  }

  /** The high word of a product. */
  function HighWord(h: nat, n: u32): (r: u32)
    requires h < TWO_64
    ensures n > 0 ==> r < n
  {
    MulHighBound(h, n);
    h * n / TWO_64
  }

  /** Maps a 64-bit hash onto [0, n). */
  function FastRange(h: bv64, n: u32): (r: u32)
    ensures n > 0 ==> r < n
  {
    HighWord(h as int, n)
  }

  /** The high word, said without dividing. */
  lemma HighWordBounds(h: nat, n: u32)
    requires h < TWO_64
    ensures HighWord(h, n) * TWO_64 <= h * n < HighWord(h, n) * TWO_64 + TWO_64
  {
    assert h * n == h * n / TWO_64 * TWO_64 + h * n % TWO_64;
  }

  /** The slots follow the order of the hashes, from the first for 0 to the last for 2^64 - 1. */
  lemma HighWordMonotone(a: nat, b: nat, n: u32)
    requires a <= b < TWO_64
    ensures HighWord(a, n) <= HighWord(b, n)
    ensures n > 0 ==> HighWord(0, n) == 0 && HighWord(TWO_64 - 1, n) == n - 1
  {
    hide HighWord;
    HighWordBounds(a, n);
    HighWordBounds(b, n);
    HighWordBounds(0, n);
    HighWordBounds(TWO_64 - 1, n);
    MulMonotone(a, b, n);
    assert (TWO_64 - 1) * n == n * TWO_64 - n;
  }

  /** And every slot is reached. */
  lemma EverySlotIsReached(n: u32, k: nat) returns (h: nat)
    requires k < n
    ensures h < TWO_64 && HighWord(h, n) == k
  {
    hide HighWord;
    h := (k * TWO_64 + n - 1) / n;
    assert k * TWO_64 + n - 1 == h * n + (k * TWO_64 + n - 1) % n;
    if h >= TWO_64 {
      MulMonotone(TWO_64, h, n);
      assert false;
    }
    HighWordBounds(h, n);
  }

  lemma FastRangeIsHighWord(h: bv64, n: u32)
    ensures FastRange(h, n) * TWO_64 <= (h as int) * n < FastRange(h, n) * TWO_64 + TWO_64
  {
    HighWordBounds(h as int, n);
  }

  const PROBE_SALT: bv64 := 0x9e3779b97f4a7c15

  /** Stride of the double-hash probe. */
  function ProbeStep(hs: Hashes, h: bv64, n: u32): (r: u32)
    ensures n >= 2 ==> 1 <= r < n
  {
    if n <= 1 then 1 else 1 + FastRange(hs.fmix(h ^ PROBE_SALT), n - 1)
  }
}
