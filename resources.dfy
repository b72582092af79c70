/**
 * Resource records of RFC 1035 section 4.1.3, as dns_parseresource reads
 * them: an owner name, inline or as a single compression pointer (section
 * 4.1.4), then type, class, ttl and rdlength, and rdata left in place.
 */
module Resources {
  import opened Wire
  import opened Names

  /**
   * The Resource struct of dns.h. rdata is the source's pointer into the
   * message buffer, given here as the offset it points at: the record's
   * data are bytes rdata .. rdata + rdlength of the same buffer, not a copy.
   */
  datatype Resource = Resource(name: seq<byte>, rtype: uint16, rclass: uint16,
                               ttl: int32, rdlength: uint16, rdata: nat)

  /** Bytes of the fixed part after the name: type, class, ttl, rdlength. */
  const FIXED_LEN: nat := 10

  /**
   * A compression pointer starts with both top bits set (RFC 1035 section
   * 4.1.4). Divergence from dns.c:180, which tests byte & 0xC0 for being
   * non-zero and so also takes the reserved prefixes 01 and 10 for pointers.
   */
  predicate IsPointer(b: byte)
  {
    b >= 0xC0
  }

  /**
   * The offset a pointer refers to: its low 14 bits (RFC 1035 section
   * 4.1.4). Divergence from dns.c:182, which masks with 0x3F and keeps
   * only the low 6 bits.
   */
  function PointerTarget(v: uint16): (t: nat)
    ensures t < 0x4000
    ensures v >= 0xC000 ==> t == v as int - 0xC000
  {
    v as int % 0x4000
  }

  /**
   * The owner name at offset off, and where the record's fixed part
   * starts. A pointer is followed one level: the name is copied through
   * its zero byte from the target, and the cursor moves past the two
   * pointer bytes only. An inline name is copied through its zero byte and
   * the cursor moves past it. Missing bytes are Truncated.
   */
  function NameAt(s: seq<byte>, off: nat): (r: Result<Parsed<seq<byte>>>)
    ensures r.Err? ==> r.error == Truncated
    ensures r.Ok? ==> off < |s| && Terminated(r.value.item)
    ensures r.Ok? && IsPointer(s[off]) ==>
              r.value.next == off + 2 <= |s|
              && CopyRawAt(s, PointerTarget(U16At(s, off))) == Ok(Parsed(r.value.item,
                   PointerTarget(U16At(s, off)) + |r.value.item|))
    ensures r.Ok? && !IsPointer(s[off]) ==>
              r.value.next == off + |r.value.item| <= |s| && s[off..r.value.next] == r.value.item
  {
    if off >= |s| then Err(Truncated)
    else if IsPointer(s[off]) then
      if off + 2 > |s| then Err(Truncated)
      else
        var copy := CopyRawAt(s, PointerTarget(U16At(s, off)));
        if copy.Err? then Err(copy.error) else Ok(Parsed(copy.value.item, off + 2))
    else CopyRawAt(s, off)
  }

  /**
   * The fixed part at offset at, for owner name name. The cursor ends past
   * rdata: divergence from dns.c:198, which leaves it at the start of
   * rdata, so that a following record would be read from this one's data.
   */
  function FixedAt(s: seq<byte>, at: nat, name: seq<byte>): (r: Result<Parsed<Resource>>)
    ensures r.Err? <==> at + FIXED_LEN > |s| || at + FIXED_LEN + U16At(s, at + 8) as int > |s|
    ensures r.Err? ==> r.error == Truncated
    ensures r.Ok? ==> r.value.item.name == name && r.value.item.rdata == at + FIXED_LEN
                      && r.value.next == r.value.item.rdata + r.value.item.rdlength as int <= |s|
  {
    if at + FIXED_LEN > |s| then Err(Truncated)
    else
      var rdlength := U16At(s, at + 8);
      if at + FIXED_LEN + rdlength as int > |s| then Err(Truncated)
      else
        Ok(Parsed(Resource(name, U16At(s, at), U16At(s, at + 2), AsInt32(U32At(s, at + 4)),
                           rdlength, at + FIXED_LEN),
                  at + FIXED_LEN + rdlength as int))
  }

  /** The record dns_parseresource reads at offset off, and the offset just past its rdata. */
  function ResourceAt(s: seq<byte>, off: nat): (r: Result<Parsed<Resource>>)
    ensures r.Err? ==> r.error == Truncated
    ensures r.Ok? ==> NameAt(s, off).Ok? && r.value.item.name == NameAt(s, off).value.item
                      && r.value.item.rdata == NameAt(s, off).value.next + FIXED_LEN
    ensures r.Ok? ==> off < r.value.item.rdata <= r.value.next <= |s|
                      && r.value.next == r.value.item.rdata + r.value.item.rdlength as int
  {
    var name := NameAt(s, off);
    if name.Err? then Err(name.error) else FixedAt(s, name.value.next, name.value.item)
  }

  // ---------------------------------------------------------------------
  // A reference encoder for records

  /** What follows the owner name of a record, with its data as bytes. */
  datatype Record = Record(rtype: uint16, rclass: uint16, ttl: int32, data: seq<byte>)

  /** The fixed part and the data of a record, as a name server sends them. */
  function RecordBytes(rec: Record): (r: seq<byte>)
    requires |rec.data| < 0x1_0000
    ensures |r| == FIXED_LEN + |rec.data|
  {
    U16Bytes(rec.rtype) + U16Bytes(rec.rclass) + U32Bytes(AsUint32(rec.ttl))
    + U16Bytes(|rec.data| as uint16) + rec.data
  }

  /** The two bytes of a pointer to target. */
  function PointerBytes(target: nat): (r: seq<byte>)
    requires target < 0x4000
    ensures |r| == 2 && IsPointer(r[0])
  {
    U16Bytes((0xC000 + target) as uint16)
  }

  /** The fixed part parsed back: all four fields, and rdata pointing at the data. */
  lemma FixedRoundTrip(s: seq<byte>, at: nat, name: seq<byte>, rec: Record)
    requires |rec.data| < 0x1_0000
    requires at + |RecordBytes(rec)| <= |s| && s[at..at + |RecordBytes(rec)|] == RecordBytes(rec)
    ensures FixedAt(s, at, name)
            == Ok(Parsed(Resource(name, rec.rtype, rec.rclass, rec.ttl, |rec.data| as uint16,
                                  at + FIXED_LEN),
                         at + FIXED_LEN + |rec.data|))
    ensures s[at + FIXED_LEN..at + FIXED_LEN + |rec.data|] == rec.data
  {
    var w := RecordBytes(rec);
    Within(s, at, w, 0, 2);
    Within(s, at, w, 2, 4);
    Within(s, at, w, 4, 8);
    Within(s, at, w, 8, 10);
    Within(s, at, w, FIXED_LEN, |w|);
    assert w[FIXED_LEN..] == rec.data;
    U16RoundTrip(s, at, rec.rtype);
    U16RoundTrip(s, at + 2, rec.rclass);
    U32RoundTrip(s, at + 4, AsUint32(rec.ttl));
    U16RoundTrip(s, at + 8, |rec.data| as uint16);
    Int32RoundTrip(rec.ttl, 0);
  }

  /**
   * A record with its owner name inline parses back whole; the cursor
   * moves past the name, the ten fixed bytes and the data.
   */
  lemma InlineRoundTrip(s: seq<byte>, off: nat, name: seq<byte>, rec: Record)
    requires Terminated(name) && !IsPointer(name[0]) && |rec.data| < 0x1_0000
    requires StoredAt(s, off, name) && StoredAt(s, off + |name|, RecordBytes(rec))
    ensures ResourceAt(s, off)
            == Ok(Parsed(Resource(name, rec.rtype, rec.rclass, rec.ttl, |rec.data| as uint16,
                                  off + |name| + FIXED_LEN),
                         off + |name| + FIXED_LEN + |rec.data|))
    ensures StoredAt(s, off + |name| + FIXED_LEN, rec.data)
  {
    InlineNameAt(s, off, name);
    FixedRoundTrip(s, off + |name|, name, rec);
    ResourceOfName(s, off, Parsed(name, off + |name|));
  }

  /**
   * A record whose owner name is a pointer to a name stored at target
   * parses back with that name; the cursor moves past the two pointer
   * bytes, the ten fixed bytes and the data.
   */
  lemma CompressedRoundTrip(s: seq<byte>, off: nat, target: nat, name: seq<byte>, rec: Record)
    requires target < 0x4000 && Terminated(name) && |rec.data| < 0x1_0000
    requires StoredAt(s, target, name)
    requires StoredAt(s, off, PointerBytes(target)) && StoredAt(s, off + 2, RecordBytes(rec))
    ensures ResourceAt(s, off)
            == Ok(Parsed(Resource(name, rec.rtype, rec.rclass, rec.ttl, |rec.data| as uint16,
                                  off + 2 + FIXED_LEN),
                         off + 2 + FIXED_LEN + |rec.data|))
    ensures StoredAt(s, off + 2 + FIXED_LEN, rec.data)
  {
    PointerNameAt(s, off, target, name);
    FixedRoundTrip(s, off + 2, name, rec);
    ResourceOfName(s, off, Parsed(name, off + 2));
  }

  /** An owner name stored inline at off reads back whole and moves the cursor past its zero byte. */
  lemma InlineNameAt(s: seq<byte>, off: nat, name: seq<byte>)
    requires Terminated(name) && !IsPointer(name[0]) && StoredAt(s, off, name)
    ensures NameAt(s, off) == Ok(Parsed(name, off + |name|))
  {
    assert s[off] == name[0];
    CopyRawRoundTrip(s, off, name);
  }

  /** Once the owner name is read, the record is its fixed part read from where the name ends. */
  lemma ResourceOfName(s: seq<byte>, off: nat, n: Parsed<seq<byte>>)
    requires NameAt(s, off) == Ok(n)
    ensures ResourceAt(s, off) == FixedAt(s, n.next, n.item)
  {
  }

  /** A pointer to a name stored at target reads that name and moves the cursor by two. */
  lemma PointerNameAt(s: seq<byte>, off: nat, target: nat, name: seq<byte>)
    requires target < 0x4000 && Terminated(name)
    requires target + |name| <= |s| && s[target..target + |name|] == name
    requires off + 2 <= |s| && s[off..off + 2] == PointerBytes(target)
    ensures NameAt(s, off) == Ok(Parsed(name, off + 2))
  {
    assert s[off] == PointerBytes(target)[0];
    U16RoundTrip(s, off, (0xC000 + target) as uint16);
    CopyRawRoundTrip(s, target, name);
  }

  /**
   * The other direction: the bytes a record was parsed from are its name
   * (inline) or a pointer, then the record's fixed part and data written
   * back from the parsed fields.
   */
  lemma RecordBytesOfParsed(s: seq<byte>, off: nat)
    requires ResourceAt(s, off).Ok?
    ensures var p := ResourceAt(s, off).value;
            var r := p.item;
            var at := r.rdata - FIXED_LEN;
            off <= at && p.next - r.rdata < 0x1_0000
            && s[at..p.next] == RecordBytes(Record(r.rtype, r.rclass, r.ttl, s[r.rdata..p.next]))
            && (IsPointer(s[off]) ==> at == off + 2)
            && (!IsPointer(s[off]) ==> s[off..at] == r.name)
  {
    var n := NameAt(s, off).value;
    FixedBytesOfParsed(s, n.next, n.item);
  }

  /** The fixed part and data written back from the fields FixedAt parsed. */
  lemma FixedBytesOfParsed(s: seq<byte>, at: nat, name: seq<byte>)
    requires FixedAt(s, at, name).Ok?
    ensures var p := FixedAt(s, at, name).value;
            var r := p.item;
            p.next - r.rdata < 0x1_0000
            && s[at..p.next] == RecordBytes(Record(r.rtype, r.rclass, r.ttl, s[r.rdata..p.next]))
  {
    var p := FixedAt(s, at, name).value;
    var r := p.item;
    var rec := Record(r.rtype, r.rclass, r.ttl, s[r.rdata..p.next]);
    U16BytesAt(s, at);
    U16BytesAt(s, at + 2);
    U32BytesAt(s, at + 4);
    U16BytesAt(s, at + 8);
    Int32RoundTrip(0, U32At(s, at + 4));
    assert |rec.data| as uint16 == r.rdlength;
    assert s[at..p.next] == s[at..at + 2] + s[at + 2..at + 4] + s[at + 4..at + 8]
                            + s[at + 8..at + 10] + s[r.rdata..p.next];
  }

  // ---------------------------------------------------------------------
  // dns_parseresource

  /** The owner-name half of dns_parseresource. */
  method ParseName(buf: array<byte>, offset: nat) returns (r: Result<Parsed<seq<byte>>>)
    ensures r == NameAt(buf[..], offset)
  {
    if offset >= buf.Length {
      return Err(Truncated);
    }
    if IsPointer(buf[offset]) {
      if offset + 2 > buf.Length {
        return Err(Truncated);
      }
      var p, next := ParseShort(buf, offset);
      var target := PointerTarget(p);
      var name := CopyRaw(buf, target);
      if name.Err? {
        return Err(name.error);
      }
      r := Ok(Parsed(name.value.item, next));
    } else {
      r := CopyRaw(buf, offset);
    }
  }

  /**
   * dns_parseresource: the owner name, then type, class, ttl (the
   * uint32_t PARSE_LONG reads, stored as int32_t) and rdlength; rdata
   * refers to the bytes that follow, and the cursor moves past them.
   */
  method ParseResource(buf: array<byte>, offset: nat) returns (r: Result<Parsed<Resource>>)
    ensures r == ResourceAt(buf[..], offset)
  {
    var name := ParseName(buf, offset);
    if name.Err? {
      return Err(name.error);
    }
    var at := name.value.next;
    if at + FIXED_LEN > buf.Length {
      return Err(Truncated);
    }
    var rtype, rclass, ttl, rdlength;
    rtype, at := ParseShort(buf, at);
    rclass, at := ParseShort(buf, at);
    ttl, at := ParseLong(buf, at);
    rdlength, at := ParseShort(buf, at);
    if at + rdlength as int > buf.Length {
      return Err(Truncated);
    }
    r := Ok(Parsed(Resource(name.value.item, rtype, rclass, AsInt32(ttl), rdlength, at),
                   at + rdlength as int));
  }

  // ---------------------------------------------------------------------
  // The pointer handling and the cursor as written in dns.c:180-198

  /** dns.c:180: any of the two top bits set is taken for a pointer. */
  predicate IsPointerAsWritten(b: byte)
  {
    b >= 0x40
  }

  /** dns.c:182: the 16-bit pointer masked with 0x3F. */
  function PointerTargetAsWritten(v: uint16): (t: nat)
    ensures t < 0x40
  {
    v as int % 0x40
  }

  /** The owner name as dns.c:180-191 reads it (with the model's Truncated guards). */
  function NameAtAsWritten(s: seq<byte>, off: nat): Result<Parsed<seq<byte>>>
  {
    if off >= |s| then Err(Truncated)
    else if IsPointerAsWritten(s[off]) then
      if off + 2 > |s| then Err(Truncated)
      else
        var copy := CopyRawAt(s, PointerTargetAsWritten(U16At(s, off)));
        if copy.Err? then Err(copy.error) else Ok(Parsed(copy.value.item, off + 2))
    else CopyRawAt(s, off)
  }

  /** dns_parseresource as written: the cursor is left at the start of rdata. */
  function ResourceAtAsWritten(s: seq<byte>, off: nat): Result<Parsed<Resource>>
  {
    var name := NameAtAsWritten(s, off);
    if name.Err? then Err(name.error)
    else
      var fixed := FixedAt(s, name.value.next, name.value.item);
      if fixed.Err? then Err(fixed.error) else Ok(Parsed(fixed.value.item, fixed.value.item.rdata))
  }

  /**
   * Finding: a pointer to offset 64 (bytes C0 40) is followed to offset 0
   * as written, so the name is copied from the wrong place whenever the
   * names at 0 and at 64 differ; the model follows it to 64.
   */
  lemma PointerMaskAsWritten(s: seq<byte>, off: nat)
    requires off + 2 <= |s| && s[off] == 0xC0 && s[off + 1] == 0x40
    ensures PointerTargetAsWritten(U16At(s, off)) == 0
    ensures PointerTarget(U16At(s, off)) == 64
    ensures CopyRawAt(s, 0).Ok? && CopyRawAt(s, 64).Ok?
            && CopyRawAt(s, 0).value.item != CopyRawAt(s, 64).value.item
            ==> NameAtAsWritten(s, off) != NameAt(s, off)
  {
  }

  /**
   * Finding: for a record with an inline name, the as-written cursor stops
   * rdlength bytes short of the end of the record, at its data, where the
   * next record of the answer section would then be read from.
   */
  lemma CursorAsWritten(s: seq<byte>, off: nat)
    requires off < |s| && s[off] < 0x40 && ResourceAt(s, off).Ok?
    ensures var p := ResourceAt(s, off).value;
            ResourceAtAsWritten(s, off) == Ok(Parsed(p.item, p.item.rdata))
            && p.next == p.item.rdata + p.item.rdlength as int
  {
  }
}
