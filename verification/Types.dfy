/**
 Machine integers, the structures shared by the pool and the client table, and
 the two C conversions that the code relies on.
 */
module Types {

  type uint8 = x: int | 0 <= x < 0x100
  type uint16 = x: int | 0 <= x < 0x1_0000
  type uint32 = x: int | 0 <= x < 0x1_0000_0000

  type int32 = x: int | -0x8000_0000 <= x <= 0x7fff_ffff

  const INT_MAX: int := 0x7fff_ffff
  const UINT_MAX: uint32 := 0xffff_ffff
  const TWO_32: int := 0x1_0000_0000
  const ESRCH: int := 3

  /** Conversion to a 32-bit unsigned value. */
  function Unsigned(x: int): (u: uint32) {
    x % 0x1_0000_0000
  }

  /** Conversion to a 32-bit two's complement value. */
  function Signed(x: int): (n: int) {
    if Unsigned(x) <= INT_MAX then Unsigned(x) else Unsigned(x) - TWO_32
  }

  /** The representatives of `x` modulo 2^32 in the ranges of the two C types. */
  lemma ConversionsMeaning(x: int)
    ensures exists q :: Unsigned(x) == x + q * 0x1_0000_0000
    ensures exists q :: Signed(x) == x + q * 0x1_0000_0000
    ensures -0x8000_0000 <= Signed(x) < 0x8000_0000
  {
    var q := -(x / 0x1_0000_0000);
    assert Unsigned(x) == x + q * 0x1_0000_0000;
    var q' := if Unsigned(x) <= INT_MAX then q else q - 1;
    assert Signed(x) == x + q' * 0x1_0000_0000;
  }

  lemma UnsignedSigned(x: uint32)
    ensures Unsigned(Signed(x)) == x
  {
    assert Unsigned(x) == x;
  }

  lemma UnsignedAdd(x: int, y: int)
    ensures Unsigned(Unsigned(x) + Unsigned(y)) == Unsigned(x + y)
  {
  }

  lemma SignedSmall(x: int)
    requires 0 <= x <= INT_MAX
    ensures Signed(x) == x == Unsigned(x)
  {
  }

  lemma SignedDifference(x: int, d: int)
    requires 0 <= x <= INT_MAX && 0 <= d < TWO_32
    ensures Signed(Unsigned(x - d)) == x <==> d == 0
    ensures d == 0 ==> Unsigned(x - d) == x
  {
    var u := if d <= x then x - d else x - d + TWO_32;
    assert Unsigned(x - d) == u == Unsigned(u);
  }

  lemma UnsignedRemainder(x: int, d: int)
    ensures Unsigned(x - d) == Unsigned(x - d % 0x1_0000_0000)
  {
  }

  /** Taking `d` away is not seen when it is a multiple of 2^32. */
  lemma SignedRemainder(x: int, d: int)
    requires 0 <= x <= INT_MAX
    ensures Signed(Unsigned(x - d)) == x <==> d % 0x1_0000_0000 == 0
    ensures d == 0 ==> Unsigned(x - d) == x
    ensures 0 < d < 0x1_0000_0000 ==> d % 0x1_0000_0000 != 0
  {
    UnsignedRemainder(x, d);
    SignedDifference(x, d % 0x1_0000_0000);
  }

  datatype Option<+T> = None | Some(value: T)

  /** An IPv4 transport address. */
  datatype TransportAddr = TransportAddr(l3: uint32, l4: uint16)

  /** A pool entry: one address with an inclusive port range, which may be inverted. */
  datatype Pool4Entry = Pool4Entry(mark: uint32, proto: uint8, addr: uint32, min: uint16, max: uint16)

  /** One (address, port) of an entry, as handed to callbacks. */
  datatype Pool4Mask = Pool4Mask(mark: uint32, proto: uint8, addr: uint32, port: uint16) {
    function Taddr(): (t: TransportAddr) {
      TransportAddr(addr, port)
    }
  }

  /** The block of masks that belongs to a client. */
  datatype MaskDomain = MaskDomain(first: TransportAddr, step: uint32, count: uint32)

  /** An IPv6 address: its four words as stored. Their byte order plays no part here. */
  datatype Addr6 = Addr6(w0: uint32, w1: uint32, w2: uint32, w3: uint32)

  /** The lengths for which `1 << (128 - len)` is a positive C int. */
  type PrefixLen = x: int | 98 <= x <= 128 witness 128

  datatype Prefix6 = Prefix6(address: Addr6, len: PrefixLen)
}
