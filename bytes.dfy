/** Byte-level arithmetic as a Node.js program sees it: Buffer slots, the
    32-bit integer conversion behind `>>` and `&`, and additive checksums. */
module Bytes {
  import opened Wrappers

  /** One slot of a Node.js Buffer (a Uint8Array element). */
  type Byte = b: int | 0 <= b < 256

  const TWO_POW_24: int := 0x100_0000
  const TWO_POW_32: int := 0x1_0000_0000

  /** Storing an integer Number into a Buffer slot keeps it modulo 256;
      this is also what `x & 0xFF` yields for an integer `x`. */
  function ToByte(x: int): (b: Byte)
    ensures 0 <= x < 256 ==> b == x
    ensures (x - b) % 256 == 0
  {
    x % 256
  }

  /** ECMAScript ToInt32, applied to both operands of `>>`. */
  function ToInt32(x: int): (r: int)
    ensures -0x8000_0000 <= r < 0x8000_0000
    ensures (r - x) % TWO_POW_32 == 0
    ensures 0 <= x < 0x8000_0000 ==> r == x
  {
    var m := x % TWO_POW_32;
    if m < 0x8000_0000 then m else m - TWO_POW_32
  }

  /** `x >> 8`: arithmetic shift of the 32-bit value (floor division). */
  function Shr8(x: int): int
  {
    ToInt32(x) / 0x100
  }

  /** `x >> 16`. */
  function Shr16(x: int): int
  {
    ToInt32(x) / 0x1_0000
  }

  /** Additive sum of a byte sequence, before any reduction modulo 256. */
  function Sum(s: seq<Byte>): nat
  {
    if s == [] then 0 else Sum(s[..|s| - 1]) + s[|s| - 1]
  }

  /** The contents of a freshly allocated, zero-filled Buffer. */
  function Zeros(n: nat): (z: seq<Byte>)
    ensures |z| == n && forall k :: 0 <= k < n ==> z[k] == 0
  {
    seq(n, _ => 0)
  }

  lemma {:induction false} SumAppend(a: seq<Byte>, b: seq<Byte>)
    ensures Sum(a + b) == Sum(a) + Sum(b)
    decreases |b|
  {
    if b == [] {
      assert a + b == a;
    } else {
      var b' := b[..|b| - 1];
      assert (a + b)[..|a + b| - 1] == a + b';
      SumAppend(a, b');
    }
  }

  lemma {:induction false} SumZeros(n: nat)
    ensures Sum(Zeros(n)) == 0
  {
    if n > 0 {
      assert Zeros(n)[..n - 1] == Zeros(n - 1);
      SumZeros(n - 1);
    }
  }

  /** The sum of a short sequence is the sum of its elements. */
  lemma SumPair(a: Byte, b: Byte)
    ensures Sum([a, b]) == a + b
  {
    assert [a, b][..1] == [a];
    assert [a][..0] == [];
    assert Sum([a]) == a;
  }

  /** `(s[0] << 16) + (s[1] << 8) + s[2]`. Reading a slot past the end of a
      Buffer gives `undefined`, and the sum is then NaN, which equals no
      number: a read of fewer than three bytes is None. */
  function ReadBE24(s: seq<Byte>): (r: Option<int>)
    ensures r.Some? <==> |s| >= 3
    ensures r.Some? ==> 0 <= r.value < TWO_POW_24
  {
    if |s| < 3 then None else Some((s[0] as int) * 0x1_0000 + (s[1] as int) * 0x100 + s[2])
  }

  /** The three bytes `code >> 16`, `code >> 8`, `code & 0xFF`, each stored
      into a Buffer slot, that prefix every device command. */
  function CodePrefix(code: int): (p: seq<Byte>)
    ensures |p| == 3
  {
    [ToByte(Shr16(code)), ToByte(Shr8(code)), ToByte(code)]
  }

  /** A pairing code that fits in 24 bits is read back from its prefix. */
  lemma CodePrefixRoundTrip(code: int)
    requires 0 <= code < TWO_POW_24
    ensures ReadBE24(CodePrefix(code)) == Some(code)
  {
    var hi, mid := code / 0x1_0000, code / 0x100;
    assert ToInt32(code) == code;
    assert hi < 256;
    assert ToByte(Shr16(code)) == hi;
    assert mid == hi * 0x100 + mid % 0x100;
    assert code == mid * 0x100 + code % 0x100;
  }

  /** Conversely, any three bytes that read as `v` are the prefix of `v`. */
  lemma PrefixOfReadBE24(s: seq<Byte>)
    requires |s| >= 3
    ensures CodePrefix(ReadBE24(s).value) == s[..3]
  {
    var v := (s[0] as int) * 0x1_0000 + (s[1] as int) * 0x100 + s[2];
    assert ToInt32(v) == v;
    assert v / 0x1_0000 == s[0];
    assert v / 0x100 == (s[0] as int) * 0x100 + s[1];
    assert ((s[0] as int) * 0x100 + s[1]) % 0x100 == s[1];
  }

  /** A pairing code outside 0 .. 2^24 - 1 is matched by no inbound prefix. */
  lemma WideCodeNeverMatches(code: int, s: seq<Byte>)
    requires code < 0 || code >= TWO_POW_24
    ensures ReadBE24(s) != Some(code)
  {
  }
}
