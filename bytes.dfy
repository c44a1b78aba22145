/** Little-endian integers over byte strings: the explicit replacement for the
    typed in-place views (`load_struct_inplace`, `to_le_bytes`,
    `from_le_bytes`) that the linker uses on its memory-mapped files. */
module LittleEndian {

  type Byte = b: int | 0 <= b < 256

  function Pow256(n: nat): (r: nat)
    ensures r >= 1
  {
    if n == 0 then 1 else 256 * Pow256(n - 1)
  }

  const TWO_32: nat := 0x1_0000_0000
  const TWO_64: nat := 0x1_0000_0000_0000_0000

  /** `u64` subtraction and addition as a release build performs them. */
  function Wrap64(x: int): (r: nat)
    ensures r < TWO_64
    ensures 0 <= x < TWO_64 ==> r == x
  {
    x % TWO_64
  }

  lemma {:induction false} Pow256Values()
    ensures Pow256(4) == TWO_32 && Pow256(8) == TWO_64
  {
    assert Pow256(1) == 256;
    assert Pow256(2) == 65536;
    assert Pow256(4) == 256 * (256 * Pow256(2));
    assert Pow256(8) == 256 * (256 * (256 * (256 * Pow256(4))));
  }

  /** The low `n` bytes of `v`, least significant first. A negative `v` is
      taken in two's complement, which is what `(v as iN).to_le_bytes()` does. */
  function Encode(v: int, n: nat): (r: seq<Byte>)
    ensures |r| == n
    decreases n
  {
    if n == 0 then [] else [v % 256] + Encode(v / 256, n - 1)
  }

  /** The unsigned value of a little-endian byte string (`uN::from_le_bytes`). */
  function Decode(s: seq<Byte>): (r: nat)
    ensures r < Pow256(|s|)
  {
    if s == [] then 0 else s[0] + 256 * Decode(s[1..])
  }

  /** The two's-complement reading of an `n`-byte unsigned value (`iN::from_le_bytes`). */
  function Signed(u: nat, n: nat): int
    requires n > 0
  {
    if u >= Pow256(n) / 2 then u - Pow256(n) else u
  }

  /** Euclidean division is determined by any decomposition with a remainder in range. */
  lemma {:induction false} DivModUnique(v: int, m: int, a: int, c: int)
    requires m > 0 && v == m * a + c && 0 <= c < m
    ensures v / m == a && v % m == c
  {
    var q, r := v / m, v % m;
    assert v == m * q + r;
    assert m * (a - q) == r - c;
    MulOutsideUnit(m, a - q);
  }

  lemma {:induction false} MulOutsideUnit(m: int, k: int)
    requires m > 0
    ensures k >= 1 ==> m * k >= m
    ensures k <= -1 ==> m * k <= -m
  {
  }

  lemma {:induction false} ModStep(v: int, p: nat)
    requires p >= 1
    ensures v % (256 * p) == v % 256 + 256 * ((v / 256) % p)
  {
    var q, r := v / 256, v % 256;
    var a, b := q / p, q % p;
    assert q == p * a + b;
    assert v == (256 * p) * a + (256 * b + r) by {
      assert v == 256 * q + r;
      assert 256 * q == 256 * (p * a) + 256 * b;
      assert 256 * (p * a) == (256 * p) * a;
    }
    DivModUnique(v, 256 * p, a, 256 * b + r);
  }

  /** Decoding an encoding gives back the value truncated to the encoded width. */
  lemma {:induction false} DecodeEncode(v: int, n: nat)
    ensures Decode(Encode(v, n)) == v % Pow256(n)
    decreases n
  {
    if n == 0 {
    } else {
      DecodeEncode(v / 256, n - 1);
      assert Encode(v, n)[1..] == Encode(v / 256, n - 1);
      ModStep(v, Pow256(n - 1));
    }
  }

  /** Encoding a decoded string gives back the string. */
  lemma {:induction false} EncodeDecode(s: seq<Byte>)
    ensures Encode(Decode(s), |s|) == s
  {
    if s != [] {
      var v := Decode(s);
      DivModUnique(v, 256, Decode(s[1..]), s[0]);
      EncodeDecode(s[1..]);
    }
  }

  /** A value that fits in `n` signed bytes survives the truncating write and
      the signed read: the patched field holds exactly that displacement. */
  lemma {:induction false} SignedRoundTrip(v: int, n: nat)
    requires n > 0
    requires -(Pow256(n) / 2) <= v < Pow256(n) / 2
    ensures Signed(Decode(Encode(v, n)), n) == v
  {
    DecodeEncode(v, n);
    var p := Pow256(n);
    assert p == 256 * Pow256(n - 1);
    if v >= 0 {
      DivModUnique(v, p, 0, v);
    } else {
      DivModUnique(v, p, -1, v + p);
    }
  }

  /** An unsigned value below 256^n survives the write and the unsigned read. */
  lemma {:induction false} UnsignedRoundTrip(v: nat, n: nat)
    requires v < Pow256(n)
    ensures Decode(Encode(v, n)) == v
  {
    DecodeEncode(v, n);
    DivModUnique(v, Pow256(n), 0, v);
  }

  /** `buf` with `bytes` copied in at `pos` (`copy_from_slice`). */
  function Write(buf: seq<Byte>, pos: nat, bytes: seq<Byte>): (r: seq<Byte>)
    requires pos + |bytes| <= |buf|
    ensures |r| == |buf|
    ensures forall i :: pos <= i < pos + |bytes| ==> r[i] == bytes[i - pos]
    ensures forall i :: 0 <= i < |buf| && !(pos <= i < pos + |bytes|) ==> r[i] == buf[i]
  {
    buf[..pos] + bytes + buf[pos + |bytes|..]
  }

  /** One byte of a write. */
  lemma WriteSlice(buf: seq<Byte>, pos: nat, bytes: seq<Byte>)
    requires pos + |bytes| <= |buf|
    ensures Write(buf, pos, bytes)[pos..pos + |bytes|] == bytes
  {
    var r := Write(buf, pos, bytes);
    var w := r[pos..pos + |bytes|];
    assert forall i :: 0 <= i < |bytes| ==> w[i] == bytes[i];
  }

  lemma WriteIndex(buf: seq<Byte>, pos: nat, bytes: seq<Byte>, i: nat)
    requires pos + |bytes| <= |buf| && i < |buf|
    ensures Write(buf, pos, bytes)[i] == if pos <= i < pos + |bytes| then bytes[i - pos] else buf[i]
  {
  }
}
