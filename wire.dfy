/**
 * Byte-level building blocks shared by every part of the DNS codec:
 * the fixed-width integer types of dns.h, the limits it declares, the
 * error taxonomy, big-endian 16- and 32-bit fields (the DUMP_SHORT,
 * PARSE_SHORT and PARSE_LONG macros of dns.c, with htons/ntohs/ntohl
 * written out as arithmetic), and the raw copy used in place of memcpy.
 */
module Wire {

  newtype byte = b: int | 0 <= b < 0x100
  newtype uint16 = x: int | 0 <= x < 0x1_0000
  newtype uint32 = x: int | 0 <= x < 0x1_0000_0000
  newtype int32 = x: int | -0x8000_0000 <= x < 0x8000_0000

  /** Longest dotted name the encoder accepts, in characters. */
  const QNAME_MAXLEN: nat := 254
  /** Longest single label, in bytes (RFC 1035 section 2.3.4). */
  const QNAME_LABELMAXLEN: nat := 63
  /** Size of the qname buffer a question owns: QNAME_MAXLEN + 1 bytes. */
  const QNAME_BUFLEN: nat := QNAME_MAXLEN + 1
  /** Size of the fixed message header. */
  const HEADER_LEN: nat := 12

  datatype Error =
    | Truncated     // the buffer ends before a required field
    | NameTooLong   // a name does not fit the qname buffer

  datatype Result<T> = Ok(value: T) | Err(error: Error)

  datatype Option<T> = None | Some(value: T)

  /** What a parser produced, and the offset just past the bytes it consumed. */
  datatype Parsed<T> = Parsed(item: T, next: nat)

  // ---------------------------------------------------------------------
  // Big-endian fields

  /** The two bytes htons puts on the wire, high byte first. */
  function U16Bytes(v: uint16): (r: seq<byte>)
    ensures |r| == 2
  {
    [(v / 0x100) as byte, (v % 0x100) as byte]
  }

  /** The 16-bit value ntohs reads from s[i], s[i+1]. */
  function U16At(s: seq<byte>, i: nat): uint16
    requires i + 2 <= |s|
  {
    (s[i] as int * 0x100 + s[i + 1] as int) as uint16
  }

  /** The four bytes of a 32-bit value, most significant first: its high half, then its low half. */
  function U32Bytes(v: uint32): (r: seq<byte>)
    ensures |r| == 4
  {
    U16Bytes((v / 0x1_0000) as uint16) + U16Bytes((v % 0x1_0000) as uint16)
  }

  /** The 32-bit value ntohl reads from s[i..i+4]. */
  function U32At(s: seq<byte>, i: nat): uint32
    requires i + 4 <= |s|
  {
    (U16At(s, i) as int * 0x1_0000 + U16At(s, i + 2) as int) as uint32
  }

  /** Storing a uint32_t into an int32_t field: two's-complement reinterpretation. */
  function AsInt32(u: uint32): int32
  {
    if u < 0x8000_0000 then u as int as int32 else (u as int - 0x1_0000_0000) as int32
  }

  /** The bit pattern of an int32_t, as the uint32_t that holds the same bits. */
  function AsUint32(x: int32): uint32
  {
    if x >= 0 then x as int as uint32 else (x as int + 0x1_0000_0000) as uint32
  }

  lemma U16RoundTrip(s: seq<byte>, i: nat, v: uint16)
    requires i + 2 <= |s| && s[i..i + 2] == U16Bytes(v)
    ensures U16At(s, i) == v
  {
    assert s[i] == U16Bytes(v)[0] && s[i + 1] == U16Bytes(v)[1];
  }

  /** Writing back the 16-bit value read at i reproduces the two bytes there. */
  lemma U16BytesAt(s: seq<byte>, i: nat)
    requires i + 2 <= |s|
    ensures U16Bytes(U16At(s, i)) == s[i..i + 2]
  {
    var v := U16At(s, i) as int;
    assert v / 0x100 == s[i] as int && v % 0x100 == s[i + 1] as int;
  }

  /** Writing back the 32-bit value read at i reproduces the four bytes there. */
  lemma U32BytesAt(s: seq<byte>, i: nat)
    requires i + 4 <= |s|
    ensures U32Bytes(U32At(s, i)) == s[i..i + 4]
  {
    var v := U32At(s, i);
    assert (v / 0x1_0000) as uint16 == U16At(s, i);
    assert (v % 0x1_0000) as uint16 == U16At(s, i + 2);
    U16BytesAt(s, i);
    U16BytesAt(s, i + 2);
    assert s[i..i + 4] == s[i..i + 2] + s[i + 2..i + 4];
  }

  /** Reading back the four bytes of a 32-bit value, wherever they sit, gives the value. */
  lemma U32RoundTrip(s: seq<byte>, i: nat, v: uint32)
    requires i + 4 <= |s| && s[i..i + 4] == U32Bytes(v)
    ensures U32At(s, i) == v
  {
    var hi, lo := (v / 0x1_0000) as uint16, (v % 0x1_0000) as uint16;
    assert s[i..i + 2] == U16Bytes(hi) && s[i + 2..i + 4] == U16Bytes(lo) by {
      assert s[i..i + 2] == s[i..i + 4][..2];
      assert s[i + 2..i + 4] == s[i..i + 4][2..];
    }
    U16RoundTrip(s, i, hi);
    U16RoundTrip(s, i + 2, lo);
  }

  /** The int32_t/uint32_t reinterpretation is a bijection: neither direction loses a bit. */
  lemma Int32RoundTrip(x: int32, u: uint32)
    ensures AsInt32(AsUint32(x)) == x
    ensures AsUint32(AsInt32(u)) == u
  {
  }

  /** The bytes w are stored in s from offset a on. */
  predicate StoredAt(s: seq<byte>, a: nat, w: seq<byte>)
  {
    a + |w| <= |s| && s[a..a + |w|] == w
  }

  /** A part of bytes w stored at offset a is found at the matching offsets. */
  lemma Within(s: seq<byte>, a: nat, w: seq<byte>, i: nat, j: nat)
    requires a + |w| <= |s| && s[a..a + |w|] == w && i <= j <= |w|
    ensures s[a + i..a + j] == w[i..j]
  {
    forall k | 0 <= k < j - i ensures s[a + i..a + j][k] == w[i..j][k] {
      assert s[a + i + k] == s[a..a + |w|][i + k];
    }
  }

  /** The two halves of bytes written at off, each where it belongs. */
  lemma Split(s: seq<byte>, off: nat, a: seq<byte>, b: seq<byte>)
    requires StoredAt(s, off, a + b)
    ensures StoredAt(s, off, a) && StoredAt(s, off + |a|, b)
  {
    Within(s, off, a + b, 0, |a|);
    Within(s, off, a + b, |a|, |a + b|);
    assert (a + b)[..|a|] == a && (a + b)[|a|..] == b;
  }

  /** The three parts of a concatenation are found where they were put. */
  lemma Parts(a: seq<byte>, b: seq<byte>, c: seq<byte>)
    ensures var s := a + b + c;
            s[0..|a|] == a && s[|a|..|a| + |b|] == b && s[|a| + |b|..|a| + |b| + |c|] == c
  {
    var s := a + b + c;
    assert s[0..|a|] == a;
    assert s[|a|..|a| + |b|] == b;
    assert s[|a| + |b|..|a| + |b| + |c|] == c;
  }

  /** The three parts of a + b + c, each stored where the one before ends. */
  lemma ThreeParts(s: seq<byte>, a: seq<byte>, b: seq<byte>, c: seq<byte>)
    requires s == a + b + c
    ensures StoredAt(s, 0, a) && StoredAt(s, |a|, b) && StoredAt(s, |a| + |b|, c)
    ensures |s| == |a| + |b| + |c|
  {
    Parts(a, b, c);
  }

  /** Concatenation is associative; stated once so that proofs need not rediscover it. */
  lemma AppendAssoc<T>(a: seq<T>, b: seq<T>, c: seq<T>)
    ensures a + (b + c) == a + b + c
  {
  }

  // ---------------------------------------------------------------------
  // Buffer writes

  /** s with the bytes w written over it starting at index at. */
  function Splice(s: seq<byte>, at: nat, w: seq<byte>): (r: seq<byte>)
    requires at + |w| <= |s|
    ensures |r| == |s|
    ensures r[at..at + |w|] == w
  {
    s[..at] + w + s[at + |w|..]
  }

  /** Outside the bytes written, a splice leaves s as it was. */
  lemma SpliceOutside(s: seq<byte>, at: nat, w: seq<byte>)
    requires at + |w| <= |s|
    ensures forall k :: 0 <= k < |s| && !(at <= k < at + |w|) ==> Splice(s, at, w)[k] == s[k]
  {
    var r := Splice(s, at, w);
    forall k | 0 <= k < |s| && !(at <= k < at + |w|) ensures r[k] == s[k] {
      if k < at {
        assert r[k] == s[..at][k];
      } else {
        assert r[k] == s[at + |w|..][k - at - |w|];
      }
    }
  }

  /** Writing two byte runs back to back is writing their concatenation. */
  lemma SpliceSplice(s: seq<byte>, at: nat, w1: seq<byte>, w2: seq<byte>)
    requires at + |w1| + |w2| <= |s|
    ensures Splice(Splice(s, at, w1), at + |w1|, w2) == Splice(s, at, w1 + w2)
  {
    var a := Splice(Splice(s, at, w1), at + |w1|, w2);
    var b := Splice(s, at, w1 + w2);
    SpliceOutside(s, at, w1);
    SpliceOutside(Splice(s, at, w1), at + |w1|, w2);
    SpliceOutside(s, at, w1 + w2);
    forall k | 0 <= k < |s| ensures a[k] == b[k] {
      if at <= k < at + |w1| {
        assert a[k] == w1[k - at];
        assert b[k] == (w1 + w2)[k - at];
      } else if at + |w1| <= k < at + |w1| + |w2| {
        assert a[k] == w2[k - at - |w1|];
        assert b[k] == (w1 + w2)[k - at];
      }
    }
  }

  /** memcpy of the bytes src into dst at index at. */
  method Copy(dst: array<byte>, at: nat, src: seq<byte>)
    requires at + |src| <= dst.Length
    modifies dst
    ensures dst[..] == Splice(old(dst[..]), at, src)
  {
    var i := 0;
    while i < |src|
      invariant 0 <= i <= |src|
      invariant forall k :: 0 <= k < dst.Length ==>
                  dst[k] == if at <= k < at + i then src[k - at] else old(dst[k])
    {
      dst[at + i] := src[i];
      i := i + 1;
    }
    assert dst[..] == Splice(old(dst[..]), at, src) by {
      var w := Splice(old(dst[..]), at, src);
      forall k | 0 <= k < dst.Length ensures dst[..][k] == w[k] {
        if at <= k < at + |src| {
          assert w[at..at + |src|][k - at] == src[k - at];
        }
      }
    }
  }

  /** A single byte store dst[at] := b. */
  method PutByte(dst: array<byte>, at: nat, b: byte)
    requires at < dst.Length
    modifies dst
    ensures dst[..] == Splice(old(dst[..]), at, [b])
  {
    dst[at] := b;
    assert dst[..] == Splice(old(dst[..]), at, [b]) by {
      var w := Splice(old(dst[..]), at, [b]);
      forall k | 0 <= k < dst.Length ensures dst[..][k] == w[k] {
        if k == at {
          assert w[at..at + 1][0] == b;
        }
      }
    }
  }

  /** DUMP_SHORT: the field, big-endian, at offset; the offset moves by 2. */
  method DumpShort(buf: array<byte>, offset: nat, v: uint16) returns (next: nat)
    requires offset + 2 <= buf.Length
    modifies buf
    ensures next == offset + 2
    ensures buf[..] == Splice(old(buf[..]), offset, U16Bytes(v))
  {
    Copy(buf, offset, U16Bytes(v));
    next := offset + 2;
  }

  /** PARSE_SHORT: the big-endian 16-bit field at offset; the offset moves by 2. */
  method ParseShort(buf: array<byte>, offset: nat) returns (v: uint16, next: nat)
    requires offset + 2 <= buf.Length
    ensures v == U16At(buf[..], offset) && next == offset + 2
  {
    v := (buf[offset] as int * 0x100 + buf[offset + 1] as int) as uint16;
    next := offset + 2;
  }

  /** PARSE_LONG: the big-endian 32-bit field at offset; the offset moves by 4. */
  method ParseLong(buf: array<byte>, offset: nat) returns (v: uint32, next: nat)
    requires offset + 4 <= buf.Length
    ensures v == U32At(buf[..], offset) && next == offset + 4
  {
    var x := buf[offset] as int;
    x := x * 0x100 + buf[offset + 1] as int;
    x := x * 0x100 + buf[offset + 2] as int;
    x := x * 0x100 + buf[offset + 3] as int;
    v := x as uint32;
    next := offset + 4;
  }
}
