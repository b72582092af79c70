/**
 * The fixed twelve-byte message header of RFC 1035 section 4.1.1:
 * dns_dumpheader writes it and dns_parseheader reads it, six big-endian
 * 16-bit fields in the order of the Header struct of dns.h.
 */
module Headers {
  import opened Wire

  /** The Header struct of dns.h. */
  datatype Header = Header(id: uint16, flags: uint16, qdcount: uint16,
                           ancount: uint16, nscount: uint16, arcount: uint16)

  /** Flag bits of the second header field, as dns.h defines them. */
  const HEADER_QR_RESPONSE: uint16 := 0x8000
  const HEADER_OPCODE_STATUS: uint16 := 0x1000
  const HEADER_OPCODE_IQUERY: uint16 := 0x0800
  const HEADER_OPCODE_QUERY: uint16 := 0
  const HEADER_AA: uint16 := 0x0400
  const HEADER_TC: uint16 := 0x0200
  const HEADER_RD: uint16 := 0x0100
  const HEADER_RA: uint16 := 0x0080

  /** The twelve bytes of a header on the wire: the six fields, high byte first. */
  function HeaderBytes(h: Header): (r: seq<byte>)
    ensures |r| == HEADER_LEN
  {
    U16Bytes(h.id) + U16Bytes(h.flags) + U16Bytes(h.qdcount)
    + U16Bytes(h.ancount) + U16Bytes(h.nscount) + U16Bytes(h.arcount)
  }

  /**
   * The header dns_parseheader reads at offset off, and the offset just
   * past it. The source reads twelve bytes unconditionally; here fewer
   * than twelve remaining bytes is Truncated.
   */
  function HeaderAt(s: seq<byte>, off: nat): (r: Result<Parsed<Header>>)
    ensures r.Err? <==> off + HEADER_LEN > |s|
    ensures r.Err? ==> r.error == Truncated
    ensures r.Ok? ==> r.value.next == off + HEADER_LEN
  {
    if off + HEADER_LEN > |s| then Err(Truncated)
    else
      Ok(Parsed(Header(U16At(s, off), U16At(s, off + 2), U16At(s, off + 4),
                       U16At(s, off + 6), U16At(s, off + 8), U16At(s, off + 10)),
                off + HEADER_LEN))
  }

  /** The k-th 16-bit field of the header, k in 0..5, in struct order. */
  function Field(h: Header, k: nat): uint16
    requires k < 6
  {
    match k
    case 0 => h.id
    case 1 => h.flags
    case 2 => h.qdcount
    case 3 => h.ancount
    case 4 => h.nscount
    case _ => h.arcount
  }

  /** The header's bytes are its six fields in struct order, each big-endian. */
  lemma HeaderLayout(h: Header)
    ensures forall k :: 0 <= k < 6 ==> HeaderBytes(h)[2 * k..2 * k + 2] == U16Bytes(Field(h, k))
  {
    var b := HeaderBytes(h);
    forall k | 0 <= k < 6 ensures b[2 * k..2 * k + 2] == U16Bytes(Field(h, k)) {
      assert b[2 * k] == U16Bytes(Field(h, k))[0];
      assert b[2 * k + 1] == U16Bytes(Field(h, k))[1];
    }
  }

  /** Parsing the bytes of a header, wherever they sit, gives it back and consumes exactly twelve bytes. */
  lemma HeaderRoundTrip(s: seq<byte>, off: nat, h: Header)
    requires off + HEADER_LEN <= |s| && s[off..off + HEADER_LEN] == HeaderBytes(h)
    ensures HeaderAt(s, off) == Ok(Parsed(h, off + HEADER_LEN))
  {
    HeaderLayout(h);
    forall k | 0 <= k < 6 ensures U16At(s, off + 2 * k) == Field(h, k) {
      assert s[off + 2 * k..off + 2 * k + 2] == HeaderBytes(h)[2 * k..2 * k + 2] by {
        assert s[off + 2 * k] == s[off..off + HEADER_LEN][2 * k];
        assert s[off + 2 * k + 1] == s[off..off + HEADER_LEN][2 * k + 1];
      }
      U16RoundTrip(s, off + 2 * k, Field(h, k));
    }
    assert U16At(s, off) == Field(h, 0);
    assert U16At(s, off + 2) == Field(h, 1);
    assert U16At(s, off + 4) == Field(h, 2);
    assert U16At(s, off + 6) == Field(h, 3);
    assert U16At(s, off + 8) == Field(h, 4);
    assert U16At(s, off + 10) == Field(h, 5);
  }

  /** The other direction: the header parsed from twelve bytes writes back those very bytes. */
  lemma HeaderBytesOfParsed(s: seq<byte>, off: nat)
    requires off + HEADER_LEN <= |s|
    ensures HeaderAt(s, off).Ok?
    ensures HeaderBytes(HeaderAt(s, off).value.item) == s[off..off + HEADER_LEN]
  {
    var w := HeaderBytes(HeaderAt(s, off).value.item);
    forall k | 0 <= k < 6 ensures w[2 * k..2 * k + 2] == s[off + 2 * k..off + 2 * k + 2] {
      HeaderLayout(HeaderAt(s, off).value.item);
      U16BytesAt(s, off + 2 * k);
    }
    forall j | 0 <= j < HEADER_LEN ensures w[j] == s[off + j] {
      var k := j / 2;
      assert w[j] == w[2 * k..2 * k + 2][j - 2 * k];
      assert s[off + j] == s[off + 2 * k..off + 2 * k + 2][j - 2 * k];
    }
  }

  /** A recursion-desired query for one question, with id 0x1234. */
  lemma QueryHeaderBytes()
    ensures HeaderBytes(Header(0x1234, HEADER_OPCODE_QUERY + HEADER_RD, 1, 0, 0, 0))
            == [0x12, 0x34, 0x01, 0x00, 0x00, 0x01, 0x00, 0x00, 0x00, 0x00, 0x00, 0x00]
  {
  }

  /**
   * dns_dumpheader, writing at offset of buf rather than at a moved
   * pointer: the six fields through DUMP_SHORT, and the count of bytes
   * written, always twelve.
   */
  method DumpHeader(h: Header, buf: array<byte>, offset: nat) returns (n: nat)
    requires offset + HEADER_LEN <= buf.Length
    modifies buf
    ensures n == HEADER_LEN
    ensures buf[..] == Splice(old(buf[..]), offset, HeaderBytes(h))
  {
    ghost var start := buf[..];
    var at := offset;
    at := DumpShort(buf, at, h.id);
    at := DumpShort(buf, at, h.flags);
    SpliceSplice(start, offset, U16Bytes(h.id), U16Bytes(h.flags));
    at := DumpShort(buf, at, h.qdcount);
    SpliceSplice(start, offset, U16Bytes(h.id) + U16Bytes(h.flags), U16Bytes(h.qdcount));
    at := DumpShort(buf, at, h.ancount);
    SpliceSplice(start, offset, U16Bytes(h.id) + U16Bytes(h.flags) + U16Bytes(h.qdcount),
                 U16Bytes(h.ancount));
    at := DumpShort(buf, at, h.nscount);
    SpliceSplice(start, offset, U16Bytes(h.id) + U16Bytes(h.flags) + U16Bytes(h.qdcount)
                 + U16Bytes(h.ancount), U16Bytes(h.nscount));
    at := DumpShort(buf, at, h.arcount);
    SpliceSplice(start, offset, U16Bytes(h.id) + U16Bytes(h.flags) + U16Bytes(h.qdcount)
                 + U16Bytes(h.ancount) + U16Bytes(h.nscount), U16Bytes(h.arcount));
    n := at - offset;
  }

  /** dns_parseheader: the header at offset of buf through PARSE_SHORT, and the advanced offset. */
  method ParseHeader(buf: array<byte>, offset: nat) returns (r: Result<Parsed<Header>>)
    ensures r == HeaderAt(buf[..], offset)
  {
    if offset + HEADER_LEN > buf.Length {
      return Err(Truncated);
    }
    var at := offset;
    var id, flags, qdcount, ancount, nscount, arcount;
    id, at := ParseShort(buf, at);
    flags, at := ParseShort(buf, at);
    qdcount, at := ParseShort(buf, at);
    ancount, at := ParseShort(buf, at);
    nscount, at := ParseShort(buf, at);
    arcount, at := ParseShort(buf, at);
    r := Ok(Parsed(Header(id, flags, qdcount, ancount, nscount, arcount), at));
  }
}
