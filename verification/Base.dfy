/** Types shared by the components of the kernel model. */
module Base {

  datatype Option<+T> = None | Some(value: T)

  /** Outcome of a kernel operation that may run into `panic` (a failed ASSERT, or memory
      exhaustion in the frame allocator). After `Halted` the machine executes nothing more. */
  datatype Outcome<+T> = Done(value: T) | Halted

  /** Size of a physical frame and of a virtual page, in bytes. */
  const PAGE_SIZE: nat := 4096

  /** One byte, as a number. */
  type byte = b: int | 0 <= b < 256

  /** A 32-bit word, turned into an `int`. */
  function AsInt(k: nat): (r: int)
    ensures -0x8000_0000 <= r < 0x8000_0000 && (k < 0x8000_0000 ==> r == k)
  {
    var m := k % 0x1_0000_0000;
    if m < 0x8000_0000 then m else m - 0x1_0000_0000
  }

  /** Byte `j` of a word, least significant first. */
  function ByteOf(n: nat, j: nat): byte {
    if j == 0 then n % 0x100 else ByteOf(n / 0x100, j - 1)
  }

  /** What a word is without its `j` low bytes. */
  function Above(n: nat, j: nat): nat {
    if j == 0 then n else Above(n / 0x100, j - 1)
  }

  lemma {:induction false} ByteStep(n: nat, j: nat)
    ensures Above(n, j) == ByteOf(n, j) + 0x100 * Above(n, j + 1)
  {
    if j == 0 {
      assert Above(n, 1) == Above(n / 0x100, 0);
    } else {
      ByteStep(n / 0x100, j - 1);
    }
  }

  lemma FourBytes(n: nat)
    requires n < 0x1_0000_0000
    ensures var b0: int, b1: int, b2: int, b3: int := ByteOf(n, 0), ByteOf(n, 1), ByteOf(n, 2), ByteOf(n, 3);
      (b0 + 0x100 * b1) + 0x1_0000 * (b2 + 0x100 * b3) == n
  {
    assert Above(n, 0) == n;
    hide ByteOf, Above;
    ByteStep(n, 0);
    ByteStep(n, 1);
    ByteStep(n, 2);
    ByteStep(n, 3);
  }

  /** `n` as `k` bytes in little-endian order. */
  function Le(n: nat, k: nat): (s: seq<byte>)
    ensures |s| == k
  {
    seq<byte>(k, j requires 0 <= j < k => ByteOf(n, j))
  }
}
