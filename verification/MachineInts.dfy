/** Integer types of the modelled program, as subsets of the unbounded integers, and their big-endian encodings. */
module MachineInts {
  const TWO_16: int := 0x1_0000
  const TWO_32: int := 0x1_0000_0000
  const TWO_64: int := 0x1_0000_0000_0000_0000

  type byte = n: int | 0 <= n < 256
  type u16 = n: int | 0 <= n < TWO_16
  type u32 = n: int | 0 <= n < TWO_32
  type u64 = n: int | 0 <= n < TWO_64

  const U32_MAX: u32 := 0xFFFF_FFFF

  type Bytes = seq<byte>

  function Min(a: int, b: int): (m: int)
    ensures m == a || m == b
    ensures m <= a && m <= b
  {
    if a <= b then a else b
  }

  /** `u16::to_be_bytes` */
  function Be16(n: u16): (s: Bytes)
    ensures |s| == 2
  {
    [n / 256, n % 256]
  }

  /** `u16::from_be_bytes` */
  function FromBe16(hi: byte, lo: byte): u16 {
    hi * 256 + lo
  }

  /** `u32::to_be_bytes` */
  function Be32(n: u32): (s: Bytes)
    ensures |s| == 4
  {
    Be16(n / TWO_16) + Be16(n % TWO_16)
  }

  /** `u32::from_be_bytes` */
  function FromBe32(a: byte, b: byte, c: byte, d: byte): u32 {
    FromBe16(a, b) * TWO_16 + FromBe16(c, d)
  }

  lemma Be16RoundTrip(n: u16)
    ensures FromBe16(Be16(n)[0], Be16(n)[1]) == n
  {
  }

  lemma Be32RoundTrip(n: u32)
    ensures FromBe32(Be32(n)[0], Be32(n)[1], Be32(n)[2], Be32(n)[3]) == n
  {
    Be16RoundTrip(n / TWO_16);
    Be16RoundTrip(n % TWO_16);
  }

  lemma DivBelow(x: nat, b: nat, n: nat)
    requires b > 0 && x < n * b
    ensures x / b < n
  {
    assert x == x / b * b + x % b;
    if x / b >= n {
      MulMonotone(n, x / b, b);
    }
  }

  lemma MulMonotone(a: int, b: int, c: nat)
    requires a <= b
    ensures a * c <= b * c
  {
    assert 0 <= (b - a) * c;
  }

  lemma MulStrict(a: int, b: int, c: nat)
    requires a < b && c > 0
    ensures a * c < b * c
  {
    MulMonotone(a + 1, b, c);
  }

  lemma DivUnique(x: int, q: int, b: int, r: int)
    requires b > 0 && x == q * b + r && 0 <= r < b
    ensures x / b == q && x % b == r
  {
    var d := x / b - q;
    assert x == x / b * b + x % b;
    assert d * b == r - x % b;
    if d >= 1 {
      MulMonotone(1, d, b);
    } else if d <= -1 {
      MulMonotone(d, -1, b);
    }
  }

  /** `u8::to_ascii_lowercase` */
  function Lower(b: byte): byte {
    if 65 <= b <= 90 then b + 32 else b
  }

  /** `str::to_ascii_lowercase` on the UTF-8 bytes */
  function LowerAll(s: Bytes): (r: Bytes)
    ensures |r| == |s|
    ensures forall i :: 0 <= i < |s| ==> r[i] == Lower(s[i])
  {
    seq(|s|, i requires 0 <= i < |s| => Lower(s[i]))
  }

  predicate Ascii(s: Bytes) {
    forall i :: 0 <= i < |s| ==> s[i] < 128
  }

  lemma ModAdd(x: nat, y: nat, n: nat)
    requires n > 0
    ensures (x % n + y) % n == (x + y) % n
  {
    var q, r := (x % n + y) / n, (x % n + y) % n;
    assert x == x / n * n + x % n;
    assert x + y == (x / n + q) * n + r;
    DivUnique(x + y, x / n + q, n, r);
  }

  lemma ModStep(x: nat, k: nat, step: nat, n: nat)
    requires n > 0
    ensures 0 <= k * step && 0 <= (k + 1) * step
    ensures (x + (k + 1) * step) % n == ((x + k * step) % n + step) % n
  {
    MulMonotone(0, k, step);
    assert (k + 1) * step == k * step + step;
    ModAdd(x + k * step, step, n);
  }

  lemma DivNonNegative(x: nat, b: nat)
    requires b > 0
    ensures x / b >= 0
  {
  }
}
