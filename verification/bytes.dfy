/** Bytes, contiguous byte segments and the little-endian numbers stored in them. */
module Bytes {

  newtype Byte = b: int | 0 <= b < 256

  /** A run of bytes written by one reservation and read back as a whole. */
  type Segment = seq<Byte>

  /** The bytes of a list of segments, one after the other. */
  function Flatten(segs: seq<Segment>): Segment {
    if segs == [] then [] else segs[0] + Flatten(segs[1..])
  }

  lemma {:induction false} FlattenAppend(a: seq<Segment>, b: seq<Segment>)
    ensures Flatten(a + b) == Flatten(a) + Flatten(b)
  {
    if a == [] {
      assert a + b == b;
    } else {
      assert (a + b)[1..] == a[1..] + b;
      FlattenAppend(a[1..], b);
    }
  }

  lemma FlattenOne(s: Segment)
    ensures Flatten([s]) == s
  {
  }

  /** The `width` low bytes of `n`, least significant first. */
  function ToLittleEndian(n: nat, width: nat): (r: Segment)
    ensures |r| == width
  {
    if width == 0 then [] else [(n % 256) as Byte] + ToLittleEndian(n / 256, width - 1)
  }

  /** The number stored in `s`, least significant byte first. */
  function FromLittleEndian(s: Segment): nat {
    if s == [] then 0 else s[0] as nat + 256 * FromLittleEndian(s[1..])
  }

  function Pow256(width: nat): nat {
    if width == 0 then 1 else 256 * Pow256(width - 1)
  }

  /** Reading back a number that fits in `width` bytes gives that number. */
  lemma {:induction false} LittleEndianRoundTrip(n: nat, width: nat)
    requires n < Pow256(width)
    ensures FromLittleEndian(ToLittleEndian(n, width)) == n
  {
    if width > 0 {
      LittleEndianRoundTrip(n / 256, width - 1);
      assert ToLittleEndian(n, width)[1..] == ToLittleEndian(n / 256, width - 1);
    }
  }

  /** Writing back the number read from some bytes gives those bytes, so the encoding loses nothing. */
  lemma {:induction false} LittleEndianExact(s: Segment)
    ensures FromLittleEndian(s) < Pow256(|s|)
    ensures ToLittleEndian(FromLittleEndian(s), |s|) == s
  {
    if s != [] {
      LittleEndianExact(s[1..]);
      var high := FromLittleEndian(s[1..]);
      assert (s[0] as nat + 256 * high) % 256 == s[0] as nat;
      assert (s[0] as nat + 256 * high) / 256 == high;
    }
  }

  /** Byte by byte: two and four bytes, least significant first. */
  lemma LittleEndianBytes(s: Segment)
    ensures |s| == 2 ==> FromLittleEndian(s) == s[0] as nat + 256 * s[1] as nat
    ensures |s| == 4 ==>
      FromLittleEndian(s) == s[0] as nat + 256 * s[1] as nat + 65536 * s[2] as nat + 16777216 * s[3] as nat
  {
    if |s| == 2 || |s| == 4 {
      assert FromLittleEndian(s) == s[0] as nat + 256 * FromLittleEndian(s[1..]);
      assert FromLittleEndian(s[1..]) == s[1] as nat + 256 * FromLittleEndian(s[2..]);
      if |s| == 4 {
        assert FromLittleEndian(s[2..]) == s[2] as nat + 256 * FromLittleEndian(s[3..]);
        assert FromLittleEndian(s[3..]) == s[3] as nat + 256 * FromLittleEndian(s[4..]);
      }
    }
  }
}
