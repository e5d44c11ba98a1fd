/**
 * Little-endian two's-complement encoding of relocation values.
 *
 * `patch_loc` converts the displacement with `as i8`, `as i16`, `as i32` or `as i64`
 * and writes it with the byteorder crate's little-endian writers. Rust's integer
 * casts keep the low 8*w bits and never fail, so the stored field is the
 * displacement reduced modulo 256^w, least significant byte first.
 */
module LittleEndian {

  /** A byte, as Rust's `u8`. */
  newtype u8 = x: int | 0 <= x < 256

  /** 256^w: the number of distinct values a field of w bytes can hold. */
  function Pow256(w: nat): (p: nat)
    ensures p >= 1
    ensures w > 0 ==> p >= 256
  {
    if w == 0 then 1 else 256 * Pow256(w - 1)
  }

  /** 2^(8w-1): the magnitude of the most negative value of a signed w-byte field. */
  function Half(w: nat): (h: int)
    ensures w > 0 ==> 2 * h == Pow256(w) && h >= 128
  {
    if w == 0 then 0 else 128 * Pow256(w - 1)
  }

  /**
   * What `LittleEndian::write_iN(buf, v as iN)` (or `buf[0] = v as i8 as u8`)
   * stores: the low w bytes of v in two's complement, least significant first.
   * Dafny's `%` and `/` by 256 are Euclidean, so for a negative v they yield
   * exactly the two's-complement low byte and the arithmetic shift of v.
   */
  function EncodeSigned(v: int, w: nat): (s: seq<u8>)
    ensures |s| == w
    decreases w
  {
    if w == 0 then [] else [(v % 256) as u8] + EncodeSigned(v / 256, w - 1)
  }

  /** Unsigned little-endian reading of a byte string. */
  function DecodeUnsigned(s: seq<u8>): (v: nat)
    ensures v < Pow256(|s|)
  {
    if s == [] then 0 else s[0] as nat + 256 * DecodeUnsigned(s[1..])
  }

  /** Signed (two's-complement) little-endian reading of a byte string. */
  function DecodeSigned(s: seq<u8>): int
  {
    var u := DecodeUnsigned(s);
    if |s| > 0 && u >= Half(|s|) then u - Pow256(|s|) else u
  }

  /** v is representable as a signed integer of w bytes. */
  predicate FitsSigned(v: int, w: nat)
  {
    w > 0 && -Half(w) <= v < Half(w)
  }

  /** Euclidean division facts for a positive divisor. */
  lemma DivMod(v: int, d: int)
    requires d > 0
    ensures v == d * (v / d) + v % d && 0 <= v % d < d
  {
  }

  /** A quotient/remainder pair is unique. */
  lemma ModUnique(v: int, d: int, q: int, r: int)
    requires d > 0 && v == d * q + r && 0 <= r < d
    ensures v / d == q && v % d == r
  {
    DivMod(v, d);
    var q' := v / d;
    if q' < q {
      MulMonotone(d, q' + 1, q);
    } else if q' > q {
      MulMonotone(d, q + 1, q');
    }
  }

  lemma MulMonotone(d: int, a: int, b: int)
    requires d > 0 && a <= b
    ensures d * a <= d * b
  {
    assert d * b - d * a == d * (b - a);
  }

  /** Splitting a remainder modulo 256*p into its low byte and the rest. */
  lemma ModSplit(v: int, p: nat)
    requires p > 0
    ensures v % (256 * p) == v % 256 + 256 * ((v / 256) % p)
  {
    var q := v / 256;
    var r := v % 256;
    DivMod(v, 256);
    DivMod(q, p);
    var q2 := q / p;
    var r2 := q % p;
    assert v == 256 * q + r;
    assert q == p * q2 + r2;
    assert v == (256 * p) * q2 + (256 * r2 + r) by {
      assert 256 * q == 256 * (p * q2) + 256 * r2;
      assert 256 * (p * q2) == (256 * p) * q2;
    }
    MulMonotone(256, r2 + 1, p);
    ModUnique(v, 256 * p, q2, 256 * r2 + r);
  }

  /** The bytes written read back, unsigned, as v reduced modulo 256^w: the cast truncates. */
  lemma {:induction false} DecodeEncode(v: int, w: nat)
    ensures DecodeUnsigned(EncodeSigned(v, w)) == v % Pow256(w)
    decreases w
  {
    if w == 0 {
      ModUnique(v, 1, v, 0);
    } else {
      var s := EncodeSigned(v, w);
      assert s[1..] == EncodeSigned(v / 256, w - 1);
      DecodeEncode(v / 256, w - 1);
      ModSplit(v, Pow256(w - 1));
    }
  }

  /** Encoding a decoded byte string gives back the same bytes. */
  lemma {:induction false} EncodeDecode(s: seq<u8>)
    ensures EncodeSigned(DecodeUnsigned(s), |s|) == s
  {
    if s != [] {
      var v := DecodeUnsigned(s);
      ModUnique(v, 256, DecodeUnsigned(s[1..]), s[0] as nat);
      EncodeDecode(s[1..]);
    }
  }

  /** The signed reading of a non-empty byte string fits its width and agrees with the unsigned one modulo 256^|s|. */
  lemma DecodeSignedResidue(s: seq<u8>)
    requires |s| > 0
    ensures FitsSigned(DecodeSigned(s), |s|)
    ensures DecodeSigned(s) % Pow256(|s|) == DecodeUnsigned(s)
  {
    var u, p := DecodeUnsigned(s), Pow256(|s|);
    if u >= Half(|s|) {
      ModUnique(u - p, p, -1, u);
    } else {
      ModUnique(u, p, 0, u);
    }
  }

  /** A w-byte field decodes (signed) to the value written into it, up to truncation modulo 256^w. */
  lemma TruncatedRoundTrip(v: int, w: nat)
    requires w > 0
    ensures FitsSigned(DecodeSigned(EncodeSigned(v, w)), w)
    ensures DecodeSigned(EncodeSigned(v, w)) % Pow256(w) == v % Pow256(w)
  {
    DecodeEncode(v, w);
    DecodeSignedResidue(EncodeSigned(v, w));
  }

  /** A value that fits the field decodes back exactly. */
  lemma SignedRoundTrip(v: int, w: nat)
    requires FitsSigned(v, w)
    ensures DecodeSigned(EncodeSigned(v, w)) == v
  {
    var p := Pow256(w);
    DecodeEncode(v, w);
    if v >= 0 {
      ModUnique(v, p, 0, v);
    } else {
      ModUnique(v, p, -1, v + p);
    }
  }

  /**
   * Three NOPs after a local label, then a 4-byte field and `backward_reloc`: the
   * displacement 0 - 7 = -7 is stored as F9 FF FF FF.
   */
  lemma MinusSevenInFourBytes()
    ensures EncodeSigned(-7, 4) == [0xF9, 0xFF, 0xFF, 0xFF]
    ensures DecodeSigned([0xF9, 0xFF, 0xFF, 0xFF]) == -7
  {
    assert Pow256(4) == 4294967296;
    assert DecodeUnsigned([0xF9, 0xFF, 0xFF, 0xFF]) == 4294967289;
  }

  /** There is no overflow check: 200 in a 1-byte field reads back as -56. */
  lemma DisplacementTruncated()
    ensures EncodeSigned(200, 1) == [0xC8]
    ensures DecodeSigned(EncodeSigned(200, 1)) == -56
  {
    assert Pow256(1) == 256;
    assert DecodeUnsigned([0xC8]) == 200;
  }
}
