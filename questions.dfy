/**
 * The question section of RFC 1035 section 4.1.2: a qname in label form,
 * then qtype and qclass, big-endian. dns_dumpquestion writes it and
 * dns_parsequestion reads it.
 */
module Questions {
  import opened Wire
  import opened Names

  /**
   * The Question struct of dns.h. qname holds the bytes of the qname
   * buffer; as the source does, the codec treats them as a C string and
   * looks only at the bytes through the first zero.
   */
  datatype Question = Question(qname: seq<byte>, qtype: uint16, qclass: uint16)

  /** QTYPE and QCLASS values used by the client, as dns.h defines them. */
  const QTYPE_A: uint16 := 1
  const QTYPE_NS: uint16 := 2
  const QTYPE_CNAME: uint16 := 5
  const QTYPE_MX: uint16 := 15
  const QTYPE_AAAA: uint16 := 28
  const QCLASS_IN: uint16 := 1
  const QCLASS_ANY: uint16 := 255

  /** The bytes of a question on the wire: the qname through its zero byte, qtype, qclass. */
  function QuestionBytes(q: Question): (r: seq<byte>)
    requires HasTerminator(q.qname)
    ensures |r| == |CString(q.qname)| + 4
  {
    CString(q.qname) + U16Bytes(q.qtype) + U16Bytes(q.qclass)
  }

  /**
   * The question dns_parsequestion reads at offset off, and the offset
   * just past it. The name is copied through its zero byte. Truncated
   * when there is no zero byte or fewer than four bytes follow it;
   * NameTooLong when the copy would not fit the QNAME_BUFLEN-byte qname
   * buffer (the source copies it regardless).
   */
  function QuestionAt(s: seq<byte>, off: nat): (r: Result<Parsed<Question>>)
    ensures r.Err? ==> r.error == Truncated || r.error == NameTooLong
    ensures r.Ok? ==>
              var n := r.value.item.qname;
              Terminated(n) && |n| <= QNAME_BUFLEN
              && r.value.next == off + |n| + 4 <= |s| && s[off..off + |n|] == n
  {
    var copy := CopyRawAt(s, off);
    if copy.Err? then Err(copy.error)
    else
      var name, next := copy.value.item, copy.value.next;
      if |name| > QNAME_BUFLEN then Err(NameTooLong)
      else if next + 4 > |s| then Err(Truncated)
      else Ok(Parsed(Question(name, U16At(s, next), U16At(s, next + 2)), next + 4))
  }

  /**
   * Parsing the bytes of a question gives back its qname (as a C string),
   * qtype and qclass, and consumes exactly strlen(qname) + 1 + 4 bytes.
   */
  lemma QuestionRoundTrip(s: seq<byte>, off: nat, q: Question)
    requires HasTerminator(q.qname) && |CString(q.qname)| <= QNAME_BUFLEN
    requires off + |QuestionBytes(q)| <= |s| && s[off..off + |QuestionBytes(q)|] == QuestionBytes(q)
    ensures QuestionAt(s, off)
            == Ok(Parsed(Question(CString(q.qname), q.qtype, q.qclass), off + |QuestionBytes(q)|))
  {
    var n := CString(q.qname);
    var t, c := U16Bytes(q.qtype), U16Bytes(q.qclass);
    Split(s, off, n + t, c);
    Split(s, off, n, t);
    CopyRawRoundTrip(s, off, n);
    U16RoundTrip(s, off + |n|, q.qtype);
    U16RoundTrip(s, off + |n| + 2, q.qclass);
  }

  /** A question whose qname is already a C string parses back as itself. */
  lemma StoredQuestionRoundTrip(s: seq<byte>, off: nat, q: Question)
    requires Terminated(q.qname) && |q.qname| <= QNAME_BUFLEN
    requires HasTerminator(q.qname) && StoredAt(s, off, QuestionBytes(q))
    ensures QuestionAt(s, off) == Ok(Parsed(q, off + |q.qname| + 4))
  {
    CStringOfTerminated(q.qname);
    QuestionRoundTrip(s, off, q);
    assert Question(CString(q.qname), q.qtype, q.qclass) == q;
  }

  /** The other direction: a parsed question writes back the very bytes it was read from. */
  lemma QuestionBytesOfParsed(s: seq<byte>, off: nat)
    requires QuestionAt(s, off).Ok?
    ensures var p := QuestionAt(s, off).value;
            HasTerminator(p.item.qname) && QuestionBytes(p.item) == s[off..p.next]
  {
    var p := QuestionAt(s, off).value;
    var next := off + |p.item.qname|;
    assert p.item.qtype == U16At(s, next) && p.item.qclass == U16At(s, next + 2);
    QuestionBytesOfFields(s, off, p.item);
  }

  /** A question whose name lies at off and whose fields were read after it writes back those bytes. */
  lemma QuestionBytesOfFields(s: seq<byte>, off: nat, q: Question)
    requires Terminated(q.qname) && StoredAt(s, off, q.qname) && off + |q.qname| + 4 <= |s|
    requires q.qtype == U16At(s, off + |q.qname|) && q.qclass == U16At(s, off + |q.qname| + 2)
    ensures HasTerminator(q.qname) && QuestionBytes(q) == s[off..off + |q.qname| + 4]
  {
    var n := q.qname;
    CStringOfTerminated(n);
    var next := off + |n|;
    U16BytesAt(s, next);
    U16BytesAt(s, next + 2);
    assert s[off..next + 4] == s[off..next] + s[next..next + 2] + s[next + 2..next + 4];
  }

  /**
   * The qname buffer that dns_setqname fills with the label form of a name
   * without zero bytes and empty segments holds that label form as its C
   * string, so the question written from it carries the whole name.
   */
  lemma SetQNameCString(qname: seq<byte>, name: seq<byte>)
    requires 0 !in name && LabelsFit(name) && NoEmptyLabel(name)
    requires |name| + 2 <= |qname|
    ensures HasTerminator(Splice(qname, 0, LabelForm(name)))
    ensures CString(Splice(qname, 0, LabelForm(name))) == LabelForm(name)
  {
    var w := LabelForm(name);
    LabelFormTerminated(name);
    CStringOfPrefix(Splice(qname, 0, w), w);
  }

  /** The question for "example.com", type A, class IN. */
  lemma ExampleComQuestionBytes(qname: seq<byte>)
    requires qname == [7] + EXAMPLE + [3] + COM + [0]
    ensures HasTerminator(qname)
    ensures QuestionBytes(Question(qname, QTYPE_A, QCLASS_IN)) == qname + [0, 1, 0, 1]
  {
    TerminatedIff(qname);
    assert qname[..|qname| - 1] == [7] + EXAMPLE + [3] + COM;
    CStringOfTerminated(qname);
  }

  // ---------------------------------------------------------------------
  // The qname copy as written in dns.c:162-163

  /** dns_parsequestion as written: the name is copied whatever its length. */
  function QuestionAtAsWritten(s: seq<byte>, off: nat): Result<Parsed<Question>>
  {
    var copy := CopyRawAt(s, off);
    if copy.Err? then Err(copy.error)
    else
      var name, next := copy.value.item, copy.value.next;
      if next + 4 > |s| then Err(Truncated)
      else Ok(Parsed(Question(name, U16At(s, next), U16At(s, next + 2)), next + 4))
  }

  /**
   * Finding: as written, a qname of more than QNAME_BUFLEN bytes through
   * its zero byte is copied whole into the QNAME_BUFLEN-byte qname buffer,
   * while QuestionAt refuses it.
   */
  lemma LongQNameOverflowsAsWritten(s: seq<byte>, off: nat)
    requires CopyRawAt(s, off).Ok? && |CopyRawAt(s, off).value.item| > QNAME_BUFLEN
    requires CopyRawAt(s, off).value.next + 4 <= |s|
    ensures QuestionAtAsWritten(s, off).Ok?
    ensures |QuestionAtAsWritten(s, off).value.item.qname| > QNAME_BUFLEN
    ensures QuestionAt(s, off) == Err(NameTooLong)
  {
  }

  /** A question whose qname is 255 letters and the zero byte: 256 bytes copied as written. */
  lemma LongQNameExample()
    ensures var s := Letters(255) + [0, 0, 1, 0, 1];
            QuestionAtAsWritten(s, 0).Ok? && |QuestionAtAsWritten(s, 0).value.item.qname| == QNAME_BUFLEN + 1
            && QuestionAt(s, 0) == Err(NameTooLong)
  {
    var w := Letters(255) + [0];
    var s := Letters(255) + [0, 0, 1, 0, 1];
    assert w[..|w| - 1] == Letters(255);
    TerminatedIff(w);
    assert s[0..|w|] == w;
    CopyRawRoundTrip(s, 0, w);
  }

  /**
   * dns_dumpquestion, writing at offset of buf: the qname through its zero
   * byte with memcpy, then qtype and qclass with DUMP_SHORT, and the count
   * of bytes written, strlen(qname) + 1 + 4.
   */
  method DumpQuestion(q: Question, buf: array<byte>, offset: nat) returns (n: nat)
    requires HasTerminator(q.qname)
    requires offset + |CString(q.qname)| + 4 <= buf.Length
    modifies buf
    ensures n == |CString(q.qname)| + 4
    ensures buf[..] == Splice(old(buf[..]), offset, QuestionBytes(q))
  {
    ghost var start := buf[..];
    var z := FindTerminator(q.qname, 0);
    var len := z.value + 1;
    assert q.qname[..len] == CString(q.qname);
    Copy(buf, offset, q.qname[..len]);
    var at := offset + len;
    at := DumpShort(buf, at, q.qtype);
    SpliceSplice(start, offset, CString(q.qname), U16Bytes(q.qtype));
    at := DumpShort(buf, at, q.qclass);
    SpliceSplice(start, offset, CString(q.qname) + U16Bytes(q.qtype), U16Bytes(q.qclass));
    n := at - offset;
  }

  /** dns_parsequestion: the question at offset of buf, and the advanced offset. */
  method ParseQuestion(buf: array<byte>, offset: nat) returns (r: Result<Parsed<Question>>)
    ensures r == QuestionAt(buf[..], offset)
  {
    var name := CopyRaw(buf, offset);
    if name.Err? {
      return Err(name.error);
    }
    var qname := name.value.item;
    var at := name.value.next;
    // The source copies len bytes into the QNAME_BUFLEN-byte buffer
    // whatever len is; here a longer name is refused.
    if |qname| > QNAME_BUFLEN {
      return Err(NameTooLong);
    }
    if at + 4 > buf.Length {
      return Err(Truncated);
    }
    var qtype, qclass;
    qtype, at := ParseShort(buf, at);
    qclass, at := ParseShort(buf, at);
    r := Ok(Parsed(Question(qname, qtype, qclass), at));
  }
}
