/** The nibble codec of nibble.go: splitting bytes into half-bytes, packing
    nibble pairs back into bytes, the hex-prefix path encoding of Appendix C of
    the Ethereum Yellow Paper, and the common-prefix counter that drives every
    split decision of the trie. */
module Nibbles {
  import opened Common

  /** A half-byte. Go's `Nibble` is a byte type; every nibble the trie holds is
      produced by FromByte, so this is the range those values occupy. */
  type Nibble = x: int | 0 <= x < 16

  /** IsNibble as nibble.go writes it: the upper bound admits 16. */
  predicate IsNibbleAsWritten(b: Byte) {
    0 <= b <= 16
  }

  /** The evidently intended test: a nibble is a value below 16. */
  predicate IsNibble(b: Byte) {
    b < 16
  }

  /** The byte 16 has a non-zero high half, yet the test as written accepts it. */
  lemma IsNibbleAdmitsSixteen()
    ensures IsNibbleAsWritten(16) && FromByte(16)[0] != 0
  {
  }

  /** The corrected test accepts exactly the bytes whose high half is zero. */
  lemma IsNibbleExact(b: Byte)
    ensures IsNibble(b) <==> FromByte(b)[0] == 0
  {
  }

  /** The byte whose high half is `hi` and low half is `lo`: Go's
      `byte(hi<<4) + byte(lo)`, which cannot wrap for values below 16. */
  function Pack(hi: Nibble, lo: Nibble): Byte {
    (hi as int) * 16 + lo
  }

  /** The two nibbles of a byte, high half first. */
  function FromByte(b: Byte): (r: seq<Nibble>)
    ensures |r| == 2
    ensures Pack(r[0], r[1]) == b
  {
    [b / 16, b % 16]
  }

  /** The nibbles of a byte string, two per byte, in order. */
  function FromBytes(bs: Bytes): (r: seq<Nibble>)
    ensures |r| == 2 * |bs|
    ensures forall i :: 0 <= i < |bs| ==> Pack(r[2 * i], r[2 * i + 1]) == bs[i]
    ensures forall i :: 0 <= i < |r| ==> IsNibble(r[i])
  {
    if |bs| == 0 then [] else FromByte(bs[0]) + FromBytes(bs[1..])
  }

  /** Packs consecutive nibble pairs into bytes, high nibble first. The Go loop
      reads `ns[i+1]` for every even `i`, so an odd-length input panics. */
  function ToBytes(ns: seq<Nibble>): (r: Bytes)
    requires |ns| % 2 == 0
    ensures |r| == |ns| / 2
    ensures forall i :: 0 <= i < |r| ==> r[i] == Pack(ns[2 * i], ns[2 * i + 1])
  {
    if |ns| == 0 then [] else [Pack(ns[0], ns[1])] + ToBytes(ns[2..])
  }

  /** Unpacking a byte string and packing it again gives the byte string back. */
  lemma BytesRoundTrip(bs: Bytes)
    ensures ToBytes(FromBytes(bs)) == bs
  {
    var r := ToBytes(FromBytes(bs));
    assert |r| == |bs|;
    forall i | 0 <= i < |bs|
      ensures r[i] == bs[i]
    {
    }
  }

  /** Packing an even-length nibble string and unpacking it gives it back. */
  lemma {:induction false} NibblesRoundTrip(ns: seq<Nibble>)
    requires |ns| % 2 == 0
    ensures FromBytes(ToBytes(ns)) == ns
  {
    if |ns| > 0 {
      var bs := ToBytes(ns);
      assert bs[1..] == ToBytes(ns[2..]);
      NibblesRoundTrip(ns[2..]);
      var pair := FromByte(bs[0]);
      SplitUnique(pair[0], pair[1], ns[0], ns[1]);
      assert pair == ns[..2];
      assert ns == ns[..2] + ns[2..];
    }
  }

  /** A byte has exactly one high/low nibble decomposition. */
  lemma SplitUnique(a: Nibble, b: Nibble, c: Nibble, d: Nibble)
    requires Pack(a, b) == Pack(c, d)
    ensures a == c && b == d
  {
  }

  /** Two keys with the same nibbles are the same key. */
  lemma FromBytesInjective(a: Bytes, b: Bytes)
    requires FromBytes(a) == FromBytes(b)
    ensures a == b
  {
    BytesRoundTrip(a);
    BytesRoundTrip(b);
  }

  /** One key's nibbles lead another's only when the key itself is a proper
      prefix of the other key. */
  lemma FromBytesPrefix(a: Bytes, b: Bytes)
    requires FromBytes(a) < FromBytes(b)
    ensures a < b
  {
    var fa, fb := FromBytes(a), FromBytes(b);
    forall i | 0 <= i < |a|
      ensures a[i] == b[i]
    {
      assert fa[2 * i] == fb[2 * i] && fa[2 * i + 1] == fb[2 * i + 1];
    }
    assert a == b[..|a|];
  }

  /** Hex-prefix encoding: a marker making the length even, followed by the
      nibbles unchanged. The marker is `[1]` for an odd input and `[0, 0]` for
      an even one; a leaf adds 2 to its first nibble. */
  function ToPrefixed(ns: seq<Nibble>, isLeaf: bool): (r: seq<Nibble>)
    ensures |r| % 2 == 0
    ensures |ns| % 2 == 1 ==> |r| == |ns| + 1 && r[0] == (if isLeaf then 3 else 1)
    ensures |ns| % 2 == 0 ==> |r| == |ns| + 2 && r[0] == (if isLeaf then 2 else 0) && r[1] == 0
    ensures r[|r| - |ns|..] == ns
  {
    var flag := if isLeaf then 2 else 0;
    if |ns| % 2 == 1 then [flag + 1] + ns else [flag, 0] + ns
  }

  /** The decoding a verifier applies to a hex-prefixed path: the nibbles and
      the leaf flag, or None when the marker is malformed. */
  function FromPrefixed(r: seq<Nibble>): Option<(seq<Nibble>, bool)> {
    if |r| == 0 || r[0] > 3 then None
    else if r[0] % 2 == 1 then Some((r[1..], r[0] >= 2))
    else if |r| < 2 || r[1] != 0 then None
    else Some((r[2..], r[0] >= 2))
  }

  /** Hex-prefix encoding loses nothing: the path and the leaf flag come back. */
  lemma PrefixedRoundTrip(ns: seq<Nibble>, isLeaf: bool)
    ensures FromPrefixed(ToPrefixed(ns, isLeaf)) == Some((ns, isLeaf))
  {
  }

  /** Conversely every well-formed even-length encoding is the encoding of what
      it decodes to, so the encoding is onto its valid range. */
  lemma PrefixedDecodeEncode(r: seq<Nibble>)
    requires |r| % 2 == 0
    requires FromPrefixed(r).Some?
    ensures ToPrefixed(FromPrefixed(r).value.0, FromPrefixed(r).value.1) == r
  {
  }

  /** The case nibble_test.go checks: the leaf encoding of `ff`. */
  lemma ToPrefixedLeafExample()
    ensures FromBytes([0xff]) == [15, 15]
    ensures ToPrefixed([15, 15], true) == [2, 0, 15, 15]
  {
  }

  /** The number of equal leading nibbles of `a` and `b`. */
  function PrefixMatchedLen(a: seq<Nibble>, b: seq<Nibble>): (m: nat)
    ensures m <= |a| && m <= |b|
    ensures a[..m] == b[..m]
    ensures m < |a| && m < |b| ==> a[m] != b[m]
  {
    if |a| == 0 || |b| == 0 || a[0] != b[0] then 0
    else 1 + PrefixMatchedLen(a[1..], b[1..])
  }

  /** The matched length is the whole of `a` exactly when `a` is a prefix of `b`. */
  lemma PrefixMatchedLenFull(a: seq<Nibble>, b: seq<Nibble>)
    ensures PrefixMatchedLen(a, b) == |a| <==> a <= b
  {
  }

  /** The count does not depend on the order of its arguments. */
  lemma {:induction false} PrefixMatchedLenSymmetric(a: seq<Nibble>, b: seq<Nibble>)
    ensures PrefixMatchedLen(a, b) == PrefixMatchedLen(b, a)
  {
    if |a| > 0 && |b| > 0 && a[0] == b[0] {
      PrefixMatchedLenSymmetric(a[1..], b[1..]);
    }
  }

  /** Matching a path against itself matches all of it. */
  lemma PrefixMatchedLenSelf(x: seq<Nibble>)
    ensures PrefixMatchedLen(x, x) == |x|
  {
  }

  /** The case nibble_test.go checks: "aac" and "aa" share four nibbles. */
  lemma PrefixMatchedLenExample()
    ensures PrefixMatchedLen(FromBytes([0x61, 0x61, 0x63]), FromBytes([0x61, 0x61])) == 4
  {
  }
}
