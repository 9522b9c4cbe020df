/** Byte strings, digests and the result types shared by the models. */
module ByteStrings {

  newtype byte = x: int | 0 <= x < 256

  type Bytes = seq<byte>

  const HASH_SIZE: nat := 32

  /** A digest: exactly HASH_SIZE bytes. */
  type Digest = b: Bytes | |b| == HASH_SIZE witness seq(HASH_SIZE, _ => 0 as byte)

  datatype Option<+T> = None | Some(value: T)

  datatype Result<+T, +E> = Success(value: T) | Failure(error: E)

  function Reverse<T>(s: seq<T>): (r: seq<T>)
    ensures |r| == |s|
    ensures forall i :: 0 <= i < |s| ==> r[i] == s[|s| - 1 - i]
  {
    if s == [] then [] else Reverse(s[1..]) + [s[0]]
  }

  lemma ReverseTwice<T>(s: seq<T>)
    ensures Reverse(Reverse(s)) == s
  {
  }

  /** The number a byte string denotes with its least significant byte first. */
  function LittleEndian(b: Bytes): nat {
    if b == [] then 0 else b[0] as nat + 256 * LittleEndian(b[1..])
  }

  /** The number a byte string denotes with its most significant byte first. */
  function BigEndian(b: Bytes): nat {
    if b == [] then 0 else 256 * BigEndian(b[..|b| - 1]) + b[|b| - 1] as nat
  }

  /** Which byte counts for more. */
  lemma EndiannessOfTwo(x: byte, y: byte)
    ensures LittleEndian([x, y]) == x as nat + 256 * y as nat
    ensures BigEndian([x, y]) == 256 * x as nat + y as nat
  {
    assert [x, y][1..] == [y] && [y][1..] == [] && [x, y][..1] == [x] && [x][..0] == [];
    assert LittleEndian([]) == 0 && BigEndian([]) == 0;
    assert LittleEndian([y]) == y as nat && BigEndian([x]) == x as nat;
  }

  lemma {:induction false} ReverseSwapsEndianness(b: Bytes)
    ensures LittleEndian(Reverse(b)) == BigEndian(b)
  {
    if b != [] {
      var init := b[..|b| - 1];
      assert Reverse(b) == [b[|b| - 1]] + Reverse(init);
      ReverseSwapsEndianness(init);
    }
  }

  /** Byte strings of one length are determined by the number they denote. */
  lemma {:induction false} LittleEndianInjective(a: Bytes, b: Bytes)
    requires |a| == |b| && LittleEndian(a) == LittleEndian(b)
    ensures a == b
  {
    if a != [] {
      assert a[0] == b[0] && LittleEndian(a[1..]) == LittleEndian(b[1..]);
      LittleEndianInjective(a[1..], b[1..]);
      assert a == [a[0]] + a[1..] && b == [b[0]] + b[1..];
    }
  }
}
