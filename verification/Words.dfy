/** Machine integers of the kernel (32-bit x86): bounded integers with the
    truncations written out. Masks and shifts by constants are stated as the
    division and remainder by the power of two they are. */
module Words {

  type Byte = x: int | 0 <= x < 256
  type U16 = x: int | 0 <= x < 0x1_0000
  type U32 = x: int | 0 <= x < 0x1_0000_0000

  const PAGE_SIZE: int := 4096
  const SECTOR_SIZE: int := 512

  datatype Option<+T> = None | Some(value: T)

  function Add32(a: int, b: int): U32 {
    (a + b) % 0x1_0000_0000
  }

  lemma AddTwice(a: int, b: int, c: int)
    ensures Add32(Add32(a, b), c) == Add32(a, b + c)
  {
  }

  /** The page base at or below `a` (a & ~0xFFF). */
  function PageDown(a: nat): nat {
    a - a % PAGE_SIZE
  }

  /** The 32-bit round-up to a page: wraps to 0 above 0xFFFFF000. */
  function PageAlignUp(a: U32): U32 {
    PageDown(Add32(a, PAGE_SIZE - 1))
  }

  function Le16(lo: Byte, hi: Byte): U16 {
    lo + 256 * hi
  }

  function Le32(b0: Byte, b1: Byte, b2: Byte, b3: Byte): U32 {
    b0 + 256 * b1 + 0x1_0000 * b2 + 0x100_0000 * b3
  }

  function ByteOf(value: U32, k: nat): Byte
    requires k < 4
  {
    if k == 0 then value % 256
    else if k == 1 then value / 256 % 256
    else if k == 2 then value / 256 / 256 % 256
    else value / 256 / 256 / 256 % 256
  }

  lemma Le32OfBytes(value: U32)
    ensures Le32(ByteOf(value, 0), ByteOf(value, 1), ByteOf(value, 2), ByteOf(value, 3)) == value
  {
    var q1 := value / 256;
    var q2 := q1 / 256;
    var q3 := q2 / 256;
    assert value == q1 * 256 + ByteOf(value, 0);
    assert q1 == q2 * 256 + ByteOf(value, 1);
    assert q2 == q3 * 256 + ByteOf(value, 2);
    assert q3 == ByteOf(value, 3);
  }

  /** The number that bytes stand for, lowest byte first. */
  function Number(bytes: seq<Byte>): nat {
    if bytes == [] then 0 else bytes[0] as int + 256 * Number(bytes[1..])
  }

  lemma NumberOfTwo(bytes: seq<Byte>, at: nat)
    requires at + 2 <= |bytes|
    ensures Number(bytes[at..at + 2]) == Le16(bytes[at], bytes[at + 1])
  {
    assert bytes[at..at + 2][1..] == [bytes[at + 1]];
    assert Number([bytes[at + 1]]) == bytes[at + 1];
  }

  lemma NumberOfFour(bytes: seq<Byte>, at: nat)
    requires at + 4 <= |bytes|
    ensures Number(bytes[at..at + 4]) == Le32(bytes[at], bytes[at + 1], bytes[at + 2], bytes[at + 3])
  {
    assert bytes[at..at + 4][1..] == bytes[at + 1..at + 4];
    assert bytes[at + 1..at + 4][1..] == bytes[at + 2..at + 4];
    NumberOfTwo(bytes, at + 2);
  }

  function Zeros(n: nat): (r: seq<Byte>)
    ensures |r| == n && forall i :: 0 <= i < n ==> r[i] == 0
  {
    seq(n, _ => 0)
  }

  /** All elements of a sequence are different. */
  ghost predicate Distinct<T>(s: seq<T>) {
    forall i, j :: 0 <= i < j < |s| ==> s[i] != s[j]
  }

  /** Pigeonhole: distinct numbers below `hi` and not below `lo` are at most hi - lo many. */
  lemma {:induction false} DistinctBounded(s: seq<nat>, lo: nat, hi: nat)
    requires Distinct(s) && lo <= hi
    requires forall i :: 0 <= i < |s| ==> lo <= s[i] < hi
    ensures |s| <= hi - lo
    decreases hi
  {
    if s == [] {
    } else if hi - 1 in s {
      var k :| 0 <= k < |s| && s[k] == hi - 1;
      DistinctBounded(s[..k] + s[k + 1..], lo, hi - 1);
    } else {
      assert lo < hi by { assert lo <= s[0] < hi; }
      DistinctBounded(s, lo, hi - 1);
    }
  }
}
