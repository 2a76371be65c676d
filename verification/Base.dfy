/** Types shared by every component: byte strings, fixed-width integers and cached values. */
module Base {
  type Byte = x: int | 0 <= x < 0x100
  type uint16 = x: int | 0 <= x < 0x1_0000
  type uint32 = x: int | 0 <= x < 0x1_0000_0000
  type int32 = x: int | -0x8000_0000 <= x < 0x8000_0000
  type int64 = x: int | -0x8000_0000_0000_0000 <= x < 0x8000_0000_0000_0000

  /** A Go string is a sequence of bytes. */
  type Key = seq<Byte>

  /** A cached value is an interface value: nil, or some bytes. */
  datatype Value = Nil | Bytes(data: seq<Byte>)

  datatype Option<+T> = None | Some(value: T)

  /** One call of the eviction callback. */
  datatype Report = Report(key: Key, value: Value)

  /** No element occurs twice. */
  predicate Once<T(==)>(s: seq<T>) {
    forall i, j :: 0 <= i < j < |s| ==> s[i] != s[j]
  }

  /** Some element, for sums whose order does not matter. */
  ghost function Pick<T>(s: set<T>): (x: T)
    requires s != {}
    ensures x in s
  {
    var x :| x in s;
    x
  }

  /** Two's-complement wrap-around of a 32-bit result. */
  function Wrap32(x: int): int32 {
    (x + 0x8000_0000) % 0x1_0000_0000 - 0x8000_0000
  }

  /** Two's-complement wrap-around of a 64-bit result. */
  function Wrap64(x: int): int64 {
    (x + 0x8000_0000_0000_0000) % 0x1_0000_0000_0000_0000 - 0x8000_0000_0000_0000
  }

  /** Wrapping changes a result by a multiple of the word size, and so is the one residue that fits. */
  lemma WrapIs(x: int)
    ensures (Wrap32(x) - x) % 0x1_0000_0000 == 0 && (Wrap64(x) - x) % 0x1_0000_0000_0000_0000 == 0
  {
    var y, z := x + 0x8000_0000, x + 0x8000_0000_0000_0000;
    assert y == y / 0x1_0000_0000 * 0x1_0000_0000 + y % 0x1_0000_0000;
    assert z == z / 0x1_0000_0000_0000_0000 * 0x1_0000_0000_0000_0000 + z % 0x1_0000_0000_0000_0000;
  }

  /** Go's integer division truncates toward zero. */
  function TruncDiv(a: int, b: int): int
    requires b != 0
  {
    if (a >= 0) == (b > 0) then (if a >= 0 then a else -a) / (if b > 0 then b else -b)
    else -((if a >= 0 then a else -a) / (if b > 0 then b else -b))
  }
}
