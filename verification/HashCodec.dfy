/** The byte-reversed hexadecimal codec of crypto/hash.go. */
module HashCodec {
  import opened ByteStrings

  datatype CodecError = TooLong | InvalidByte | InvalidLength

  /** The value of a hexadecimal digit of either case. */
  function Digit(c: char): Option<nat> {
    if '0' <= c <= '9' then Some(c as nat - '0' as nat)
    else if 'a' <= c <= 'f' then Some(c as nat - 'a' as nat + 10)
    else if 'A' <= c <= 'F' then Some(c as nat - 'A' as nat + 10)
    else None
  }

  function DigitChar(n: nat): (c: char)
    requires n < 16
    ensures Digit(c) == Some(n) && IsLower(c)
  {
    if n < 10 then '0' + n as char else 'a' + (n - 10) as char
  }

  predicate IsLower(c: char) {
    Digit(c).Some? && !('A' <= c <= 'F')
  }

  predicate IsHex(s: string) {
    forall i :: 0 <= i < |s| ==> Digit(s[i]).Some?
  }

  predicate IsLowerHex(s: string) {
    forall i :: 0 <= i < |s| ==> IsLower(s[i])
  }

  /** The number a hexadecimal numeral denotes. */
  function HexValue(s: string): nat
    requires IsHex(s)
  {
    if s == "" then 0 else 16 * HexValue(s[..|s| - 1]) + Digit(s[|s| - 1]).value
  }

  function Lowered(s: string): (t: string)
    requires IsHex(s)
    ensures |t| == |s| && IsLowerHex(t)
  {
    if s == "" then "" else Lowered(s[..|s| - 1]) + [DigitChar(Digit(s[|s| - 1]).value)]
  }

  function Zeros(n: nat): (s: string)
    ensures |s| == n && IsLowerHex(s)
  {
    if n == 0 then "" else Zeros(n - 1) + "0"
  }

  /** What hex.EncodeToString returns. */
  function HexEncode(b: Bytes): (s: string)
    ensures |s| == 2 * |b| && IsLowerHex(s)
  {
    if b == [] then ""
    else
      var last := b[|b| - 1] as nat;
      HexEncode(b[..|b| - 1]) + [DigitChar(last / 16), DigitChar(last % 16)]
  }

  /** What hex.Decode writes for an even number of digits. */
  function HexDecode(s: string): (b: Bytes)
    requires |s| % 2 == 0 && IsHex(s)
    ensures 2 * |b| == |s|
  {
    if s == "" then []
    else
      var n := |s|;
      HexDecode(s[..n - 2]) + [(16 * Digit(s[n - 2]).value + Digit(s[n - 1]).value) as byte]
  }

  /** The printed form of a hash: the digits of its bytes in reverse order. */
  function Printed(hash: Digest): string {
    HexEncode(Reverse(hash))
  }

  function EvenPadded(s: string): (t: string)
    ensures |t| % 2 == 0 && |s| <= |t| && (IsHex(s) <==> IsHex(t))
  {
    if |s| % 2 == 0 then s
    else
      assert ("0" + s)[1..] == s;
      "0" + s
  }

  function ZeroBytes(n: nat): (b: Bytes)
    ensures |b| == n && forall i :: 0 <= i < n ==> b[i] == 0
  {
    if n == 0 then [] else [0] + ZeroBytes(n - 1)
  }

  predicate Decodable(src: string) {
    |src| <= 2 * HASH_SIZE && IsHex(src)
  }

  /** The decoder's temporary: the numeral's bytes, most significant first, padded with zeros on the left. */
  function Reversed(src: string): Digest
    requires Decodable(src)
  {
    var bytes := HexDecode(EvenPadded(src));
    ZeroBytes(HASH_SIZE - |bytes|) + bytes
  }

  /** The hash a string decodes to. */
  function Decoded(src: string): Digest
    requires Decodable(src)
  {
    Reverse(Reversed(src))
  }

  // ---------- The numbers behind the codec ----------

  lemma TwoDigits(s: string, hi: char, lo: char)
    requires IsHex(s) && Digit(hi).Some? && Digit(lo).Some?
    ensures IsHex(s + [hi, lo])
    ensures HexValue(s + [hi, lo]) == 256 * HexValue(s) + 16 * Digit(hi).value + Digit(lo).value
  {
    var t, n := s + [hi, lo], |s|;
    assert t[..n + 1][..n] == s && t[..n + 1][n] == hi;
  }

  lemma {:induction false} EncodeValue(b: Bytes)
    ensures HexValue(HexEncode(b)) == BigEndian(b)
  {
    if b != [] {
      var init, last := b[..|b| - 1], b[|b| - 1] as nat;
      EncodeValue(init);
      TwoDigits(HexEncode(init), DigitChar(last / 16), DigitChar(last % 16));
    }
  }

  lemma {:induction false} DecodeValue(s: string)
    requires |s| % 2 == 0 && IsHex(s)
    ensures BigEndian(HexDecode(s)) == HexValue(s)
  {
    if s != "" {
      var n := |s|;
      DecodeValue(s[..n - 2]);
      var b := HexDecode(s);
      assert b[..|b| - 1] == HexDecode(s[..n - 2]);
      TwoDigits(s[..n - 2], s[n - 2], s[n - 1]);
      assert s == s[..n - 2] + [s[n - 2], s[n - 1]];
    }
  }

  lemma {:induction false} LeadingZeroBytes(n: nat, b: Bytes)
    ensures BigEndian(ZeroBytes(n) + b) == BigEndian(b)
  {
    var all := ZeroBytes(n) + b;
    if b != [] {
      assert all[..|all| - 1] == ZeroBytes(n) + b[..|b| - 1];
      LeadingZeroBytes(n, b[..|b| - 1]);
    } else if n > 0 {
      assert all == ZeroBytes(n) + [];
      assert all[..n - 1] == ZeroBytes(n - 1) + [] by {
        ZeroBytesUnique(all[..n - 1]);
      }
      LeadingZeroBytes(n - 1, b);
    }
  }

  lemma {:induction false} ZeroBytesUnique(b: Bytes)
    requires forall i :: 0 <= i < |b| ==> b[i] == 0
    ensures b == ZeroBytes(|b|)
  {
    if b != [] {
      ZeroBytesUnique(b[1..]);
    }
  }

  lemma {:induction false} LeadingZeros(n: nat, s: string)
    requires IsHex(s)
    ensures HexValue(Zeros(n) + s) == HexValue(s)
  {
    var all := Zeros(n) + s;
    if s != "" {
      assert all[..|all| - 1] == Zeros(n) + s[..|s| - 1];
      LeadingZeros(n, s[..|s| - 1]);
    } else if n > 0 {
      assert all[..n - 1] == Zeros(n - 1) + "";
      LeadingZeros(n - 1, s);
    }
  }

  lemma {:induction false} LoweredValue(s: string)
    requires IsHex(s)
    ensures HexValue(Lowered(s)) == HexValue(s)
  {
    if s != "" {
      LoweredValue(s[..|s| - 1]);
      assert Lowered(s)[..|s| - 1] == Lowered(s[..|s| - 1]);
    }
  }

  lemma LowerDigitInjective(c: char, d: char)
    requires IsLower(c) && IsLower(d) && Digit(c) == Digit(d)
    ensures c == d
  {
  }

  /** Lower-case numerals of one length are determined by their value. */
  lemma {:induction false} HexValueInjective(s: string, t: string)
    requires IsLowerHex(s) && IsLowerHex(t) && |s| == |t| && HexValue(s) == HexValue(t)
    ensures s == t
  {
    if s != "" {
      var n := |s| - 1;
      var s', t' := s[..n], t[..n];
      assert 16 * HexValue(s') + Digit(s[n]).value == 16 * HexValue(t') + Digit(t[n]).value;
      HexValueInjective(s', t');
      LowerDigitInjective(s[n], t[n]);
      assert s == s' + [s[n]] && t == t' + [t[n]];
    }
  }

  // ---------- What the codec promises ----------

  /** The digits of value k are the k-th of either alphabet, and no other characters. */
  lemma DigitsAre(c: char, k: nat)
    requires k < 16
    ensures Digit(c) == Some(k) <==> c == "0123456789abcdef"[k] || c == "0123456789ABCDEF"[k]
    ensures Digit(c) == Some(k) && IsLower(c) <==> c == "0123456789abcdef"[k]
  {
  }

  /** A byte is encoded as its high digit, then its low one. */
  lemma {:induction false} EncodedAt(b: Bytes, i: nat)
    requires i < |b|
    ensures HexEncode(b)[2 * i] == "0123456789abcdef"[b[i] as nat / 16]
    ensures HexEncode(b)[2 * i + 1] == "0123456789abcdef"[b[i] as nat % 16]
  {
    var init, last := b[..|b| - 1], b[|b| - 1] as nat;
    if i < |b| - 1 {
      EncodedAt(init, i);
      assert HexEncode(b)[2 * i] == HexEncode(init)[2 * i] && HexEncode(b)[2 * i + 1] == HexEncode(init)[2 * i + 1];
    } else {
      DigitsAre(DigitChar(last / 16), last / 16);
      DigitsAre(DigitChar(last % 16), last % 16);
    }
  }

  /** The printed form, digit by digit: the last byte's digits come first. */
  lemma PrintedAt(hash: Digest, i: nat)
    requires i < 32
    ensures |Printed(hash)| == 64
    ensures Printed(hash)[2 * i] == "0123456789abcdef"[hash[31 - i] as nat / 16]
    ensures Printed(hash)[2 * i + 1] == "0123456789abcdef"[hash[31 - i] as nat % 16]
  {
    EncodedAt(Reverse(hash), i);
  }

  /** The printed form is the 64-digit numeral of the hash read as a little-endian number. */
  lemma PrintedValue(hash: Digest)
    ensures |Printed(hash)| == 2 * HASH_SIZE && IsLowerHex(Printed(hash))
    ensures HexValue(Printed(hash)) == LittleEndian(hash)
  {
    EncodeValue(Reverse(hash));
    ReverseSwapsEndianness(Reverse(hash));
    ReverseTwice(hash);
  }

  /** The decoded hash, read as a little-endian number, is the number the string denotes. */
  lemma DecodedValue(src: string)
    requires Decodable(src)
    ensures LittleEndian(Decoded(src)) == HexValue(src)
  {
    var padded := EvenPadded(src);
    DecodeValue(padded);
    LeadingZeroBytes(HASH_SIZE - |HexDecode(padded)|, HexDecode(padded));
    ReverseSwapsEndianness(Reversed(src));
    LeadingZeros(1, src);
    assert Zeros(1) == Zeros(0) + "0" == "0";
  }

  /** Decoding the printed form of any hash returns it. */
  lemma DecodeAfterPrint(hash: Digest)
    ensures Decodable(Printed(hash)) && Decoded(Printed(hash)) == hash
  {
    PrintedValue(hash);
    DecodedValue(Printed(hash));
    LittleEndianInjective(Decoded(Printed(hash)), hash);
  }

  /** Printing a decoded string gives it in lower case, padded with zeros to 64 digits. */
  lemma PrintAfterDecode(src: string, pad: nat)
    requires Decodable(src) && |src| + pad == 2 * HASH_SIZE
    ensures Printed(Decoded(src)) == Zeros(pad) + Lowered(src)
  {
    var hash := Decoded(src);
    PrintedValue(hash);
    DecodedValue(src);
    PaddedNumeral(src, Printed(hash), pad);
  }

  /** The only lower-case numeral of that length for the value of src is src itself, lowered and padded. */
  lemma PaddedNumeral(src: string, s: string, pad: nat)
    requires IsHex(src) && IsLowerHex(s) && |src| + pad == |s| && HexValue(s) == HexValue(src)
    ensures s == Zeros(pad) + Lowered(src)
  {
    LoweredValue(src);
    LeadingZeros(pad, Lowered(src));
    HexValueInjective(s, Zeros(pad) + Lowered(src));
  }

  // ---------- The code ----------

  /** The receiver is a copy, so the swaps do not reach the caller's hash. */
  method String(hash: Digest) returns (s: string)
    ensures s == Printed(hash)
  {
    var h := new byte[HASH_SIZE](i requires 0 <= i < HASH_SIZE => hash[i]);
    var i := 0;
    while i < HASH_SIZE / 2
      invariant 0 <= i <= HASH_SIZE / 2
      invariant forall k :: 0 <= k < i || HASH_SIZE - i <= k < HASH_SIZE ==> h[k] == hash[HASH_SIZE - 1 - k]
      invariant forall k :: i <= k < HASH_SIZE - i ==> h[k] == hash[k]
    {
      h[i], h[HASH_SIZE - 1 - i] := h[HASH_SIZE - 1 - i], h[i];
      i := i + 1;
    }
    assert h[..] == Reverse(hash);
    s := HexEncode(h[..]);
  }

  /** The library's hex.Decode on an even number of characters: it fails at the first character that is
      not a digit, having written the bytes before it. */
  method HexDecodeInto(dst: array<byte>, at: nat, src: string) returns (ok: bool)
    requires |src| % 2 == 0 && at + |src| / 2 == dst.Length
    modifies dst
    ensures ok <==> IsHex(src)
    ensures ok ==> dst[..] == old(dst[..at]) + HexDecode(src)
  {
    var j := 0;
    while 2 * j < |src|
      invariant 0 <= 2 * j <= |src| && IsHex(src[..2 * j])
      invariant dst[..at] == old(dst[..at]) && dst[at..at + j] == HexDecode(src[..2 * j])
    {
      var hi, lo := Digit(src[2 * j]), Digit(src[2 * j + 1]);
      if hi == None || lo == None {
        return false;
      }
      assert src[..2 * j + 2][..2 * j] == src[..2 * j];
      dst[at + j] := (16 * hi.value + lo.value) as byte;
      j := j + 1;
    }
    assert src[..2 * j] == src;
    assert dst[..] == dst[..at] + dst[at..at + j];
    return true;
  }

  method Decode(dst: array<byte>, src: string) returns (err: Option<CodecError>)
    requires dst.Length == HASH_SIZE
    modifies dst
    ensures err == Some(TooLong) <==> |src| > 2 * HASH_SIZE
    ensures err == Some(InvalidByte) <==> |src| <= 2 * HASH_SIZE && !IsHex(src)
    ensures err == None <==> Decodable(src)
    ensures if err == None then dst[..] == Decoded(src) else dst[..] == old(dst[..])
  {
    if |src| > 2 * HASH_SIZE {
      return Some(TooLong);
    }
    var srcBytes := if |src| % 2 == 0 then src else "0" + src;
    assert srcBytes == EvenPadded(src);
    var reversedHash := new byte[HASH_SIZE](_ => 0);
    var at := HASH_SIZE - |srcBytes| / 2;
    ZeroBytesUnique(reversedHash[..at]);
    var ok := HexDecodeInto(reversedHash, at, srcBytes);
    if !ok {
      return Some(InvalidByte);
    }
    ReverseCopy(dst, reversedHash);
    return None;
  }

  method ReverseCopy(dst: array<byte>, source: array<byte>)
    requires dst.Length == source.Length && dst.Length % 2 == 0 && dst != source
    modifies dst
    ensures dst[..] == Reverse(source[..])
  {
    var n := dst.Length;
    for i := 0 to n / 2
      invariant source[..] == old(source[..])
      invariant forall k :: 0 <= k < i || n - i <= k < n ==> dst[k] == source[n - 1 - k]
    {
      dst[i], dst[n - 1 - i] := source[n - 1 - i], source[i];
    }
  }

  method NewHashFromStr(hash: string) returns (r: Result<Digest, CodecError>)
    ensures r.Success? <==> Decodable(hash)
    ensures r.Success? ==> r.value == Decoded(hash)
    ensures r.Failure? ==> r.error == if |hash| > 2 * HASH_SIZE then TooLong else InvalidByte
  {
    var ret := new byte[HASH_SIZE](_ => 0);
    var err := Decode(ret, hash);
    if err != None {
      return Failure(err.value);
    }
    return Success(ret[..]);
  }

  method SetBytes(hash: array<byte>, newHash: Bytes) returns (err: Option<CodecError>)
    requires hash.Length == HASH_SIZE
    modifies hash
    ensures err == None <==> |newHash| == HASH_SIZE
    ensures hash[..] == if err == None then newHash else old(hash[..])
  {
    if |newHash| != HASH_SIZE {
      return Some(InvalidLength);
    }
    forall i | 0 <= i < HASH_SIZE {
      hash[i] := newHash[i];
    }
    return None;
  }
}
