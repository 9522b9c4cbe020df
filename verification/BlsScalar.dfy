/** How a version-2 BLS secret scalar is derived and encoded: crypto/blsv2.go and its caller in
    crypto/blswrapper.go. HKDF-SHA256 is left uninterpreted. */
module BlsScalar {
  import opened Bits
  import opened ByteStrings

  const SEED_LEN: nat := 32
  const MIN_SEED_BYTES: nat := 16
  const OKM_LEN: nat := 48

  /** Order of the BLS12-381 group. */
  const CURVE_ORDER: nat := 52435875175126190479447740508185965837690552500527637822603658699938581184513

  /** The order of a BLS12 curve with parameter -x is x^4 - x^2 + 1. */
  lemma CurveOrderIs(x: nat, square: nat)
    requires x == 0xd201_0000_0001_0000 && square == x * x
    ensures CURVE_ORDER == square * square - square + 1
  {
  }

  datatype KeyError = NilSeed | InvalidSeedLen | HkdfFailed | EntropyLimit

  /** Reading at most OKM_LEN bytes of key material for a seed: None is a read error. */
  type Hkdf = Bytes -> Option<Bytes>

  function Pow256(k: nat): (p: nat)
    ensures p > 0
  {
    if k == 0 then 1 else 256 * Pow256(k - 1)
  }

  /** big.Int's Bytes: the shortest big-endian form. */
  function MinimalBytes(n: nat): (b: Bytes)
    ensures BigEndian(b) == n
    ensures n > 0 ==> b != [] && Pow256(|b| - 1) <= n
    ensures n == 0 ==> b == []
  {
    if n == 0 then []
    else
      var high := MinimalBytes(n / 256);
      assert (high + [(n % 256) as byte])[..|high|] == high;
      high + [(n % 256) as byte]
  }

  lemma {:induction false} Pow256Monotone(a: nat, b: nat)
    requires a <= b
    ensures Pow256(a) <= Pow256(b)
    decreases b
  {
    if a < b {
      Pow256Monotone(a, b - 1);
    }
  }

  lemma {:induction false} Pow256IsPow2(k: nat)
    ensures Pow256(k) == Pow2(8 * k)
  {
    if k > 0 {
      Pow256IsPow2(k - 1);
      Pow2Add(8, 8 * (k - 1));
      assert Pow2(8) == 256;
    }
  }

  /** A number below 256^length has at most length bytes. */
  lemma MinimalLength(n: nat, length: nat)
    requires n < Pow256(length)
    ensures |MinimalBytes(n)| <= length
  {
    var size := |MinimalBytes(n)|;
    Pow256Monotone(length, if size > length then size - 1 else length);
  }

  lemma {:induction false} BigEndianBound(b: Bytes)
    ensures BigEndian(b) < Pow256(|b|)
  {
    if b != [] {
      BigEndianBound(b[..|b| - 1]);
    }
  }

  lemma {:induction false} LeftPad(pad: Bytes, b: Bytes)
    requires forall i :: 0 <= i < |pad| ==> pad[i] == 0
    ensures BigEndian(pad + b) == BigEndian(b)
  {
    var all := pad + b;
    if b != [] {
      assert all[..|all| - 1] == pad + b[..|b| - 1];
      LeftPad(pad, b[..|b| - 1]);
    } else if pad != [] {
      assert all[..|all| - 1] == pad[..|pad| - 1] + [];
      LeftPad(pad[..|pad| - 1], b);
    }
  }

  lemma Padded(result: Bytes, at: nat, bytes: Bytes)
    requires |result| == at + |bytes|
    requires forall i :: 0 <= i < at ==> result[i] == 0
    requires forall i :: 0 <= i < |bytes| ==> result[at + i] == bytes[i]
    ensures BigEndian(result) == BigEndian(bytes)
  {
    var pad := result[..at];
    LeftPad(pad, bytes);
    assert result[at..] == bytes;
    assert result == pad + bytes;
  }

  method ToBytes(n: nat, length: nat) returns (result: Bytes)
    requires |MinimalBytes(n)| <= length
    ensures |result| == length && BigEndian(result) == n
  {
    var buffer := new byte[length](_ => 0);
    var bytes := MinimalBytes(n);
    var at := length - |bytes|;
    forall i | 0 <= i < |bytes| {
      buffer[at + i] := bytes[i];
    }
    result := buffer[..];
    Padded(result, at, bytes);
  }

  /** Reverses a string of even length; in one of odd length the middle byte is not copied. */
  method ReverseBytes(a: Bytes) returns (result: Bytes)
    ensures |result| == |a|
    ensures forall i :: 0 <= i < |a| && 2 * i + 1 != |a| ==> result[i] == a[|a| - 1 - i]
    ensures |a| % 2 == 1 ==> result[|a| / 2] == 0
    ensures |a| % 2 == 0 ==> result == Reverse(a)
  {
    var n := |a|;
    var b := new byte[n](_ => 0);
    var i := n / 2 - 1;
    while i >= 0
      invariant -1 <= i < n / 2 || (i == -1 && n == 0)
      invariant forall k :: i < k < n / 2 ==> b[k] == a[n - 1 - k] && b[n - 1 - k] == a[k]
      invariant n % 2 == 1 ==> b[n / 2] == 0
    {
      var opp := n - 1 - i;
      b[i], b[opp] := a[opp], a[i];
      i := i - 1;
    }
    result := b[..];
    forall k | 0 <= k < n && 2 * k + 1 != n
      ensures result[k] == a[n - 1 - k]
    {
      if k >= n / 2 {
        assert b[n - 1 - (n - 1 - k)] == a[n - 1 - k];
      }
    }
  }

  /** The scalar that key material stands for. */
  function Scalar(okm: Bytes): (n: nat)
    ensures n < CURVE_ORDER
  {
    BigEndian(okm) % CURVE_ORDER
  }

  /** The scalar: key material read as a big-endian number, modulo the curve order. */
  method HkdfModR(hkdf: Hkdf, ikm: Bytes) returns (r: Result<nat, KeyError>)
    ensures hkdf(ikm) == None ==> r == Failure(HkdfFailed)
    ensures hkdf(ikm).Some? && |hkdf(ikm).value| != OKM_LEN ==> r == Failure(EntropyLimit)
    ensures hkdf(ikm).Some? && |hkdf(ikm).value| == OKM_LEN ==> r == Success(Scalar(hkdf(ikm).value))
  {
    var okm := hkdf(ikm);
    if okm == None {
      return Failure(HkdfFailed);
    }
    if |okm.value| != OKM_LEN {
      return Failure(EntropyLimit);
    }
    return Success(BigEndian(okm.value) % CURVE_ORDER);
  }

  method DeriveMasterSK(hkdf: Hkdf, seed: Bytes) returns (r: Result<nat, KeyError>)
    ensures r == Failure(InvalidSeedLen) <==> |seed| < 16
    ensures r.Success? <==> |seed| >= 16 && hkdf(seed).Some? && |hkdf(seed).value| == 48
    ensures r.Success? ==> r.value == BigEndian(hkdf(seed).value) % CURVE_ORDER
  {
    if |seed| < MIN_SEED_BYTES {
      return Failure(InvalidSeedLen);
    }
    r := HkdfModR(hkdf, seed);
  }

  lemma Squared(k: nat, p: nat)
    requires Pow2(k) == p
    ensures Pow2(2 * k) == p * p
  {
    Pow2Add(k, k);
  }

  /** 256^32 exceeds the curve order, so a scalar always fits its encoding. */
  lemma ScalarFits(n: nat, length: nat)
    requires n < CURVE_ORDER && length == SEED_LEN
    ensures |MinimalBytes(n)| <= length
  {
    var k: nat, p: nat := 4, 16;
    assert Pow2(4) == 16;
    Squared(k, p);
    Squared(2 * k, 0x100);
    Squared(4 * k, 0x1_0000);
    Squared(8 * k, 0x1_0000_0000);
    Squared(16 * k, 0x1_0000_0000_0000_0000);
    Squared(32 * k, 0x1_0000_0000_0000_0000_0000_0000_0000_0000);
    Pow256IsPow2(length);
    MinimalLength(n, length);
  }

  /** The little-endian form of a number, by reversing its big-endian form. */
  method LittleEndianBytes(n: nat, length: nat) returns (result: Bytes)
    requires |MinimalBytes(n)| <= length && length % 2 == 0
    ensures |result| == length && LittleEndian(result) == n
  {
    var bigEndian := ToBytes(n, length);
    ReverseSwapsEndianness(bigEndian);
    result := ReverseBytes(bigEndian);
  }

  lemma {:induction false} ZeroNumber(b: Bytes)
    ensures LittleEndian(b) == 0 <==> forall i :: 0 <= i < |b| ==> b[i] == 0
  {
    if b != [] {
      ZeroNumber(b[1..]);
      assert forall i :: 0 < i < |b| ==> b[i] == b[1..][i - 1];
    }
  }

  /** The bytes GenerateBLSKeysV2 hands to key generation: the 32-byte little-endian form of the scalar. */
  method SecretKeyBytes(hkdf: Hkdf, seed: Option<Bytes>) returns (r: Result<Bytes, KeyError>)
    ensures seed == None ==> r == Failure(NilSeed)
    ensures seed.Some? ==>
      (r.Success? <==> |seed.value| >= 16 && hkdf(seed.value).Some? && |hkdf(seed.value).value| == 48)
    ensures r.Success? ==>
      |r.value| == 32 && LittleEndian(r.value) == BigEndian(hkdf(seed.value).value) % CURVE_ORDER
    ensures r.Success? ==>
      ((forall i :: 0 <= i < 32 ==> r.value[i] == 0) <==> BigEndian(hkdf(seed.value).value) % CURVE_ORDER == 0)
  {
    if seed == None {
      return Failure(NilSeed);
    }
    var masterKey := DeriveMasterSK(hkdf, seed.value);
    if masterKey.Failure? {
      return Failure(masterKey.error);
    }
    ScalarFits(masterKey.value, SEED_LEN);
    var ski := LittleEndianBytes(masterKey.value, SEED_LEN);
    ZeroNumber(ski);
    return Success(ski);
  }

  // ---------- How evenly the residues are hit ----------

  /** The numbers below total with residue a modulo r. */
  ghost function WithResidue(total: nat, r: nat, a: nat): set<nat>
    requires r > 0
  {
    set x: nat | x < total && x % r == a
  }

  lemma NextDivision(n: nat, r: nat, q: nat, m: nat)
    requires r > 0 && q == n / r && m == n % r
    ensures m == r - 1 ==> (n + 1) / r == q + 1 && (n + 1) % r == 0
    ensures m < r - 1 ==> (n + 1) / r == q && (n + 1) % r == m + 1
  {
    assert n == r * q + m;
    assert r * q == q * r && (q + 1) * r == q * r + r;
    if m == r - 1 {
      ModUnique(n + 1, r, q + 1, 0);
    } else {
      ModUnique(n + 1, r, q, m + 1);
    }
  }

  /** floor(total / r), or once more for the residues the last incomplete round reaches. */
  function Quota(total: nat, r: nat, a: nat): nat
    requires r > 0
  {
    total / r + if a < total % r then 1 else 0
  }

  lemma QuotaStep(n: nat, r: nat, a: nat)
    requires a < r
    ensures Quota(n + 1, r, a) == Quota(n, r, a) + if n % r == a then 1 else 0
  {
    NextDivision(n, r, n / r, n % r);
  }

  lemma WithResidueStep(n: nat, r: nat, a: nat)
    requires r > 0
    ensures WithResidue(n + 1, r, a) == WithResidue(n, r, a) + if n % r == a then {n} else {}
  {
  }

  /** Reducing all numbers below total modulo r hits every residue floor(total / r) times, or once more. */
  lemma {:induction false} ResidueCount(total: nat, r: nat, a: nat)
    requires a < r
    ensures |WithResidue(total, r, a)| == Quota(total, r, a)
  {
    if total == 0 {
      assert WithResidue(0, r, a) == {};
    } else {
      ResidueCount(total - 1, r, a);
      WithResidueStep(total - 1, r, a);
      QuotaStep(total - 1, r, a);
    }
  }

  lemma BigEndianInjective(a: Bytes, b: Bytes)
    requires |a| == |b| && BigEndian(a) == BigEndian(b)
    ensures a == b
  {
    ReverseSwapsEndianness(a);
    ReverseSwapsEndianness(b);
    LittleEndianInjective(Reverse(a), Reverse(b));
    ReverseTwice(a);
    ReverseTwice(b);
  }

  /** The byte string of the given length that denotes a number. */
  function FixedBytes(n: nat, length: nat): (b: Bytes)
    requires n < Pow256(length)
    ensures |b| == length && BigEndian(b) == n
  {
    MinimalLength(n, length);
    var bytes := MinimalBytes(n);
    var pad := seq(length - |bytes|, _ => 0 as byte);
    LeftPad(pad, bytes);
    pad + bytes
  }

  /** The byte strings of one length that denote a number of the set: as many as there are numbers. */
  ghost function Denoting(numbers: set<nat>, length: nat): (strings: set<Bytes>)
    requires forall n :: n in numbers ==> n < Pow256(length)
    ensures forall b :: b in strings <==> |b| == length && BigEndian(b) in numbers
    ensures |strings| == |numbers|
  {
    if numbers == {} then {}
    else
      var n :| n in numbers;
      var others := Denoting(numbers - {n}, length);
      var b := FixedBytes(n, length);
      assert forall x: Bytes :: |x| == length && BigEndian(x) == n ==> x == b by {
        forall x: Bytes | |x| == length && BigEndian(x) == n
          ensures x == b
        {
          BigEndianInjective(x, b);
        }
      }
      others + {b}
  }

  /** The key materials of one scalar. */
  ghost function KeyMaterials(scalar: nat, length: nat): (okms: set<Bytes>)
    ensures forall okm :: okm in okms <==> |okm| == length && Scalar(okm) == scalar
    ensures |okms| == |WithResidue(Pow256(length), CURVE_ORDER, scalar)|
  {
    var numbers := WithResidue(Pow256(length), CURVE_ORDER, scalar);
    var okms := Denoting(numbers, length);
    assert forall okm :: okm in okms <==> |okm| == length && Scalar(okm) == scalar by {
      forall okm: Bytes | |okm| == length
        ensures BigEndian(okm) in numbers <==> Scalar(okm) == scalar
      {
        BigEndianBound(okm);
      }
    }
    okms
  }

  /** How evenly scalars are hit: of all key materials of OKM_LEN bytes, each scalar comes from
      floor(2^384 / CURVE_ORDER) of them, or from one more. */
  lemma ScalarDistribution(scalar: nat, length: nat)
    requires scalar < CURVE_ORDER && length == OKM_LEN
    ensures forall okm :: okm in KeyMaterials(scalar, length) <==> |okm| == length && Scalar(okm) == scalar
    ensures |KeyMaterials(scalar, length)| == Quota(Pow256(length), CURVE_ORDER, scalar) && length == 48
  {
    ResidueCount(Pow256(length), CURVE_ORDER, scalar);
  }

  // ---------- The zero scalar ----------

  /** Nothing keeps the scalar from being zero: all-zero key material is one that makes it so. */
  lemma ZeroScalarHappens(okm: Bytes)
    requires |okm| == OKM_LEN && forall i :: 0 <= i < |okm| ==> okm[i] == 0
    ensures Scalar(okm) == 0
  {
    LeftPad(okm, []);
    assert okm + [] == okm;
  }

  /** How many key materials do: those that denote a multiple of the curve order. */
  lemma ZeroScalars(length: nat)
    requires length == OKM_LEN
    ensures forall okm :: okm in KeyMaterials(0, length) <==> |okm| == length && BigEndian(okm) % CURVE_ORDER == 0
    ensures |KeyMaterials(0, length)| == Quota(Pow256(length), CURVE_ORDER, 0)
  {
    ScalarDistribution(0, length);
  }
}
