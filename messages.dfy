/**
 * Whole messages (RFC 1035 section 4.1): dns_dumpmessage writes the header
 * and the question, and dns_parsemessage reads the header, the question
 * and as many answer records as the header's ancount says, all with one
 * cursor that only moves forward.
 */
module Messages {
  import opened Wire
  import opened Names
  import opened Headers
  import opened Questions
  import opened Resources

  /**
   * The Message struct of dns.h. The source parses neither the authority
   * nor the additional section and leaves both empty.
   */
  datatype Message = Message(header: Header, question: Question, answer: seq<Resource>,
                             authority: seq<Resource>, additional: seq<Resource>)

  /** What dns_dumpmessage writes: the header, then the question, and no record sections. */
  function MessageBytes(m: Message): (r: seq<byte>)
    requires HasTerminator(m.question.qname)
    ensures |r| == HEADER_LEN + |CString(m.question.qname)| + 4
  {
    HeaderBytes(m.header) + QuestionBytes(m.question)
  }

  /**
   * The count items parse reads from offset off one after the other, each
   * starting where the one before it ends, and the offset past the last
   * one; the first item that cannot be read fails the whole section with
   * its error.
   */
  function SectionAt<T>(parse: (seq<byte>, nat) -> Result<Parsed<T>>, s: seq<byte>, off: nat, count: nat)
      : (r: Result<Parsed<seq<T>>>)
    ensures r.Ok? ==> |r.value.item| == count
    decreases count
  {
    if count == 0 then Ok(Parsed([], off))
    else
      var first := parse(s, off);
      if first.Err? then Err(first.error)
      else
        var rest := SectionAt(parse, s, first.value.next, count - 1);
        if rest.Err? then Err(rest.error)
        else Ok(Parsed([first.value.item] + rest.value.item, rest.value.next))
  }

  /**
   * The count records PARSE_RESOURCES reads from offset off with
   * dns_parseresource, and the offset past the last one.
   */
  function AnswersAt(s: seq<byte>, off: nat, count: nat): (r: Result<Parsed<seq<Resource>>>)
    ensures r.Err? ==> r.error == Truncated
    ensures r.Ok? ==> |r.value.item| == count && off <= r.value.next
    ensures r.Ok? && count > 0 ==> r.value.next <= |s|
  {
    assert forall o :: Steps(ResourceAt(s, o), o, |s|, true);
    SectionAdvance(ResourceAt, s, off, count);
    SectionAt(ResourceAt, s, off, count)
  }

  /**
   * What reading from off gives when it fails only for want of bytes and
   * never moves the cursor back, nor past the end of len bytes once it has
   * read anything.
   */
  predicate Steps<T>(r: Result<Parsed<T>>, off: nat, len: nat, some: bool)
  {
    (r.Err? ==> r.error == Truncated)
    && (r.Ok? ==> off <= r.value.next && (some ==> off < r.value.next <= len))
  }

  /** A section read with a parse that steps forward steps forward too. */
  lemma {:induction false} SectionAdvance<T>(parse: (seq<byte>, nat) -> Result<Parsed<T>>, s: seq<byte>,
                                            off: nat, count: nat)
    requires forall o :: Steps(parse(s, o), o, |s|, true)
    ensures Steps(SectionAt(parse, s, off, count), off, |s|, count > 0)
    decreases count
  {
    if count > 0 && parse(s, off).Ok? {
      SectionAdvance(parse, s, parse(s, off).value.next, count - 1);
    }
  }

  /**
   * Each record read lies between the start of the section and its end,
   * with its data wholly inside: the cursor never goes back.
   */
  lemma {:induction false} AnswersBounds(s: seq<byte>, off: nat, count: nat)
    requires AnswersAt(s, off, count).Ok?
    ensures var p := AnswersAt(s, off, count).value;
            forall k :: 0 <= k < count ==>
              off < p.item[k].rdata && p.item[k].rdata + p.item[k].rdlength as int <= p.next
    decreases count
  {
    if count > 0 {
      var first := ResourceAt(s, off).value;
      AnswersBounds(s, first.next, count - 1);
      AnswersCons(s, off, count);
    }
  }

  /**
   * The message dns_parsemessage reads from the start of s: the header at
   * 0, the question after it, then header.ancount answer records; the
   * offset returned is the one past the last record.
   */
  function MessageAt(s: seq<byte>): (r: Result<Parsed<Message>>)
    ensures r.Ok? ==>
              var m := r.value.item;
              |m.answer| == m.header.ancount as int && m.authority == [] && m.additional == []
              && HeaderAt(s, 0) == Ok(Parsed(m.header, HEADER_LEN))
              && QuestionAt(s, HEADER_LEN).Ok? && QuestionAt(s, HEADER_LEN).value.item == m.question
              && HEADER_LEN + |m.question.qname| + 4 <= r.value.next <= |s|
  {
    var header := HeaderAt(s, 0);
    if header.Err? then Err(header.error)
    else
      var question := QuestionAt(s, header.value.next);
      if question.Err? then Err(question.error)
      else
        var answer := AnswersAt(s, question.value.next, header.value.item.ancount as nat);
        if answer.Err? then Err(answer.error)
        else
          Ok(Parsed(Message(header.value.item, question.value.item, answer.value.item, [], []),
                    answer.value.next))
  }

  // ---------------------------------------------------------------------
  // Round trips

  /**
   * A query written by dns_dumpmessage, with ancount 0, is read back by
   * dns_parsemessage: the same header, the question with its qname as a C
   * string, no records, and exactly the bytes written consumed.
   */
  lemma QueryRoundTrip(s: seq<byte>, m: Message)
    requires HasTerminator(m.question.qname) && |CString(m.question.qname)| <= QNAME_BUFLEN
    requires m.header.ancount == 0
    requires |MessageBytes(m)| <= |s| && s[..|MessageBytes(m)|] == MessageBytes(m)
    ensures MessageAt(s)
            == Ok(Parsed(Message(m.header,
                                 Question(CString(m.question.qname), m.question.qtype, m.question.qclass),
                                 [], [], []),
                         |MessageBytes(m)|))
  {
    var w := MessageBytes(m);
    Within(s, 0, w, 0, HEADER_LEN);
    Within(s, 0, w, HEADER_LEN, |w|);
    assert w[..HEADER_LEN] == HeaderBytes(m.header) && w[HEADER_LEN..] == QuestionBytes(m.question);
    HeaderRoundTrip(s, 0, m.header);
    QuestionRoundTrip(s, HEADER_LEN, m.question);
  }

  /**
   * The owner name of an answer record as a name server sends it: inline,
   * or a compression pointer to the same name stored at target.
   */
  datatype Owner = Inline(name: seq<byte>) | Compressed(target: nat, name: seq<byte>)

  /** An answer record as a name server sends it. */
  datatype Answer = Answer(owner: Owner, record: Record)

  /**
   * An answer the reference encoder can write: a terminated owner name, an
   * inline one not starting like a pointer, a pointer target below 0x4000,
   * and at most 65535 data bytes.
   */
  predicate Encodable(a: Answer)
  {
    Terminated(a.owner.name) && |a.record.data| < 0x1_0000
    && (a.owner.Inline? ==> !IsPointer(a.owner.name[0]))
    && (a.owner.Compressed? ==> a.owner.target < 0x4000)
  }

  /** Every answer of the list is encodable. */
  predicate AllEncodable(answers: seq<Answer>)
    decreases |answers|
  {
    answers == [] || (Encodable(answers[0]) && AllEncodable(answers[1..]))
  }

  /** The bytes standing for the owner name: the name itself, or the two pointer bytes. */
  function OwnerBytes(o: Owner): (r: seq<byte>)
    requires o.Compressed? ==> o.target < 0x4000
    ensures o.Inline? ==> r == o.name
    ensures o.Compressed? ==> |r| == 2 && IsPointer(r[0])
  {
    match o
    case Inline(name) => name
    case Compressed(target, _) => PointerBytes(target)
  }

  /** A compressed owner's name is stored in s at its target. */
  predicate TargetStored(s: seq<byte>, a: Answer)
  {
    a.owner.Compressed? ==> StoredAt(s, a.owner.target, a.owner.name)
  }

  /** Every compressed owner of the list points at its name in s. */
  predicate AllTargetsStored(s: seq<byte>, answers: seq<Answer>)
    decreases |answers|
  {
    answers == [] || (TargetStored(s, answers[0]) && AllTargetsStored(s, answers[1..]))
  }

  /** A reference encoder for an answer section: each record's owner bytes, then its fixed part and data. */
  function AnswerBytes(answers: seq<Answer>): (r: seq<byte>)
    requires AllEncodable(answers)
    decreases |answers|
  {
    if answers == [] then []
    else OwnerBytes(answers[0].owner) + RecordBytes(answers[0].record) + AnswerBytes(answers[1..])
  }

  /** The parsed record agrees with the answer it was written from, data included. */
  predicate Matches(s: seq<byte>, r: Resource, a: Answer)
  {
    r.name == a.owner.name && r.rtype == a.record.rtype && r.rclass == a.record.rclass
    && r.ttl == a.record.ttl && r.rdlength as int == |a.record.data|
    && StoredAt(s, r.rdata, a.record.data)
  }

  /** Each parsed record agrees with the answer at the same position. */
  predicate AllMatch(s: seq<byte>, rs: seq<Resource>, answers: seq<Answer>)
  {
    |rs| == |answers| && forall k :: 0 <= k < |answers| ==> Matches(s, rs[k], answers[k])
  }

  /**
   * Records written one after the other are all read back, each with its
   * name, fields and data, and the cursor ends right after the last one:
   * the cursor moving past each record's data is what lets the next one
   * be found.
   */
  lemma {:induction false} AnswersRoundTrip(s: seq<byte>, off: nat, answers: seq<Answer>)
    requires AllEncodable(answers) && AllTargetsStored(s, answers)
    requires StoredAt(s, off, AnswerBytes(answers))
    ensures AnswersAt(s, off, |answers|).Ok?
    ensures AnswersAt(s, off, |answers|).value.next == off + |AnswerBytes(answers)|
    ensures AllMatch(s, AnswersAt(s, off, |answers|).value.item, answers)
    decreases |answers|
  {
    if answers != [] {
      var next := AnswersFirst(s, off, answers);
      AnswersRoundTrip(s, next, answers[1..]);
      AnswersConsMatch(s, off, answers, off + |AnswerBytes(answers)|);
    }
  }

  /**
   * The first of the records written at off is read back matching; the
   * rest are written where it ends.
   */
  lemma AnswersFirst(s: seq<byte>, off: nat, answers: seq<Answer>) returns (next: nat)
    requires answers != [] && AllEncodable(answers) && AllTargetsStored(s, answers)
    requires StoredAt(s, off, AnswerBytes(answers))
    ensures ResourceAt(s, off).Ok? && ResourceAt(s, off).value.next == next
    ensures Matches(s, ResourceAt(s, off).value.item, answers[0])
    ensures AllEncodable(answers[1..]) && AllTargetsStored(s, answers[1..])
    ensures StoredAt(s, next, AnswerBytes(answers[1..]))
    ensures next + |AnswerBytes(answers[1..])| == off + |AnswerBytes(answers)|
  {
    next := HeadMatches(s, off, answers[0], AnswerBytes(answers[1..]));
  }

  /** A record written at off, whatever follows it, is read back matching. */
  lemma HeadMatches(s: seq<byte>, off: nat, a: Answer, rest: seq<byte>) returns (next: nat)
    requires Encodable(a) && TargetStored(s, a)
    requires StoredAt(s, off, OwnerBytes(a.owner) + RecordBytes(a.record) + rest)
    ensures ResourceAt(s, off).Ok? && ResourceAt(s, off).value.next == next
    ensures Matches(s, ResourceAt(s, off).value.item, a)
    ensures StoredAt(s, next, rest) && next + |rest| == off + |OwnerBytes(a.owner) + RecordBytes(a.record) + rest|
  {
    var head := OwnerBytes(a.owner) + RecordBytes(a.record);
    Split(s, off, head, rest);
    OwnerMatches(s, off, a);
    next := off + |head|;
  }

  /** The first record read and matching, then the rest read and matching: all read and matching. */
  lemma AnswersConsMatch(s: seq<byte>, off: nat, answers: seq<Answer>, end: nat)
    requires answers != [] && ResourceAt(s, off).Ok?
    requires Matches(s, ResourceAt(s, off).value.item, answers[0])
    requires var next := ResourceAt(s, off).value.next;
             AnswersAt(s, next, |answers| - 1).Ok?
             && AnswersAt(s, next, |answers| - 1).value.next == end
             && AllMatch(s, AnswersAt(s, next, |answers| - 1).value.item, answers[1..])
    ensures AnswersAt(s, off, |answers|).Ok? && AnswersAt(s, off, |answers|).value.next == end
    ensures AllMatch(s, AnswersAt(s, off, |answers|).value.item, answers)
  {
    var first := ResourceAt(s, off).value;
    var tail := AnswersAt(s, first.next, |answers| - 1).value.item;
    AnswersCons(s, off, |answers|);
    AllMatchCons(s, first.item, tail, answers);
  }

  /** A record matching the first answer, before records matching the rest, match them all. */
  lemma AllMatchCons(s: seq<byte>, r: Resource, tail: seq<Resource>, answers: seq<Answer>)
    requires answers != [] && Matches(s, r, answers[0]) && AllMatch(s, tail, answers[1..])
    ensures AllMatch(s, [r] + tail, answers)
  {
    var rs := [r] + tail;
    forall k | 1 <= k < |answers| ensures Matches(s, rs[k], answers[k]) {
      assert rs[k] == tail[k - 1] && answers[k] == answers[1..][k - 1];
    }
  }

  /** A record written at off is read back matching, and ends where it was written to end. */
  lemma OwnerMatches(s: seq<byte>, off: nat, a: Answer)
    requires Encodable(a) && TargetStored(s, a)
    requires StoredAt(s, off, OwnerBytes(a.owner) + RecordBytes(a.record))
    ensures ResourceAt(s, off).Ok?
    ensures ResourceAt(s, off).value.next == off + |OwnerBytes(a.owner)| + |RecordBytes(a.record)|
    ensures Matches(s, ResourceAt(s, off).value.item, a)
  {
    Split(s, off, OwnerBytes(a.owner), RecordBytes(a.record));
    if a.owner.Inline? {
      InlineMatches(s, off, a);
    } else {
      CompressedMatches(s, off, a);
    }
  }

  /** An inline-named record written at off is read back matching. */
  lemma InlineMatches(s: seq<byte>, off: nat, a: Answer)
    requires Encodable(a) && a.owner.Inline?
    requires StoredAt(s, off, a.owner.name) && StoredAt(s, off + |a.owner.name|, RecordBytes(a.record))
    ensures ResourceAt(s, off).Ok?
    ensures ResourceAt(s, off).value.next == off + |a.owner.name| + |RecordBytes(a.record)|
    ensures Matches(s, ResourceAt(s, off).value.item, a)
  {
    InlineRoundTrip(s, off, a.owner.name, a.record);
  }

  /** A record written at off with a pointer to its owner name is read back matching. */
  lemma CompressedMatches(s: seq<byte>, off: nat, a: Answer)
    requires Encodable(a) && a.owner.Compressed? && StoredAt(s, a.owner.target, a.owner.name)
    requires StoredAt(s, off, PointerBytes(a.owner.target)) && StoredAt(s, off + 2, RecordBytes(a.record))
    ensures ResourceAt(s, off).Ok?
    ensures ResourceAt(s, off).value.next == off + 2 + |RecordBytes(a.record)|
    ensures Matches(s, ResourceAt(s, off).value.item, a)
  {
    CompressedRoundTrip(s, off, a.owner.target, a.owner.name, a.record);
  }

  /** Records read one after another: the first, then the rest from where it ends. */
  lemma AnswersCons(s: seq<byte>, off: nat, count: nat)
    requires count > 0 && ResourceAt(s, off).Ok?
    requires AnswersAt(s, ResourceAt(s, off).value.next, count - 1).Ok?
    ensures var p := ResourceAt(s, off).value;
            var rest := AnswersAt(s, p.next, count - 1).value;
            AnswersAt(s, off, count) == Ok(Parsed([p.item] + rest.item, rest.next))
  {
  }

  /**
   * A response laid out as a header whose ancount is the number of
   * records, a question and the records is parsed back whole.
   */
  lemma ResponseRoundTrip(s: seq<byte>, h: Header, q: Question, answers: seq<Answer>)
    requires Terminated(q.qname) && |q.qname| <= QNAME_BUFLEN
    requires AllEncodable(answers) && h.ancount as int == |answers|
    requires s == HeaderBytes(h) + QuestionBytes(q) + AnswerBytes(answers)
    requires AllTargetsStored(s, answers)
    ensures MessageAt(s).Ok? && MessageAt(s).value.next == |s|
    ensures var m := MessageAt(s).value.item;
            m.header == h && m.question == q && AllMatch(s, m.answer, answers)
  {
    var start := ResponseLayout(s, h, q, AnswerBytes(answers));
    AnswersRoundTrip(s, start, answers);
    MessageOfParts(s, start, |answers|);
  }

  /** The header and the question of a response are read back; the records start at the offset returned. */
  lemma ResponseLayout(s: seq<byte>, h: Header, q: Question, rest: seq<byte>) returns (start: nat)
    requires Terminated(q.qname) && |q.qname| <= QNAME_BUFLEN
    requires s == HeaderBytes(h) + QuestionBytes(q) + rest
    ensures HeaderAt(s, 0) == Ok(Parsed(h, HEADER_LEN))
    ensures QuestionAt(s, HEADER_LEN) == Ok(Parsed(q, start))
    ensures StoredAt(s, start, rest) && |s| == start + |rest|
  {
    CStringOfTerminated(q.qname);
    var hb, qb := HeaderBytes(h), QuestionBytes(q);
    ThreeParts(s, hb, qb, rest);
    start := |hb| + |qb|;
    HeaderRoundTrip(s, 0, h);
    StoredQuestionRoundTrip(s, HEADER_LEN, q);
  }

  /** The message is its header, its question and its records, each read where the one before ends. */
  lemma MessageOfParts(s: seq<byte>, start: nat, count: nat)
    requires HeaderAt(s, 0).Ok? && HeaderAt(s, 0).value.item.ancount as int == count
    requires QuestionAt(s, HEADER_LEN).Ok? && QuestionAt(s, HEADER_LEN).value.next == start
    requires AnswersAt(s, start, count).Ok?
    ensures MessageAt(s) == Ok(Parsed(Message(HeaderAt(s, 0).value.item, QuestionAt(s, HEADER_LEN).value.item,
                                              AnswersAt(s, start, count).value.item, [], []),
                                      AnswersAt(s, start, count).value.next))
  {
  }

  /** Answers whose owners all point at a name stored at target have their targets stored. */
  lemma {:induction false} AllPointTo(s: seq<byte>, answers: seq<Answer>, target: nat, name: seq<byte>)
    requires StoredAt(s, target, name)
    requires forall k :: 0 <= k < |answers| ==> answers[k].owner == Compressed(target, name)
    ensures AllTargetsStored(s, answers)
    decreases |answers|
  {
    if answers != [] {
      assert answers[0].owner == Compressed(target, name);
      assert forall k :: 0 <= k < |answers[1..]| ==> answers[1..][k] == answers[k + 1];
      AllPointTo(s, answers[1..], target, name);
    }
  }

  /**
   * The usual response: every answer's owner is a pointer to the question's
   * name at offset 12 (the bytes C0 0C). It is parsed back whole, each
   * record with the question's name, fields and data.
   */
  lemma PointerResponseRoundTrip(s: seq<byte>, h: Header, q: Question, answers: seq<Answer>)
    requires Terminated(q.qname) && |q.qname| <= QNAME_BUFLEN
    requires AllEncodable(answers) && h.ancount as int == |answers|
    requires forall k :: 0 <= k < |answers| ==> answers[k].owner == Compressed(HEADER_LEN, q.qname)
    requires s == HeaderBytes(h) + QuestionBytes(q) + AnswerBytes(answers)
    ensures MessageAt(s).Ok? && MessageAt(s).value.next == |s|
    ensures var m := MessageAt(s).value.item;
            m.header == h && m.question == q && AllMatch(s, m.answer, answers)
            && forall k :: 0 <= k < |m.answer| ==> m.answer[k].name == q.qname
  {
    QuestionNameStored(s, h, q, AnswerBytes(answers));
    AllPointTo(s, answers, HEADER_LEN, q.qname);
    ResponseRoundTrip(s, h, q, answers);
    var m := MessageAt(s).value.item;
    forall k | 0 <= k < |m.answer| ensures m.answer[k].name == q.qname {
      assert Matches(s, m.answer[k], answers[k]);
    }
  }

  /** In a response, the question's name is stored at offset 12, where a pointer C0 0C leads. */
  lemma QuestionNameStored(s: seq<byte>, h: Header, q: Question, rest: seq<byte>)
    requires Terminated(q.qname) && |q.qname| <= QNAME_BUFLEN
    requires s == HeaderBytes(h) + QuestionBytes(q) + rest
    ensures StoredAt(s, HEADER_LEN, q.qname)
  {
    var start := ResponseLayout(s, h, q, rest);
  }

  // ---------------------------------------------------------------------
  // The methods

  /**
   * dns_dumpmessage: the header at 0 and the question right after it, and
   * the count of bytes written; the record sections are not written.
   */
  method DumpMessage(m: Message, buf: array<byte>) returns (n: nat)
    requires HasTerminator(m.question.qname)
    requires HEADER_LEN + |CString(m.question.qname)| + 4 <= buf.Length
    modifies buf
    ensures n == |MessageBytes(m)|
    ensures buf[..] == Splice(old(buf[..]), 0, MessageBytes(m))
  {
    ghost var start := buf[..];
    var offset := DumpHeader(m.header, buf, 0);
    var len := DumpQuestion(m.question, buf, offset);
    SpliceSplice(start, 0, HeaderBytes(m.header), QuestionBytes(m.question));
    n := offset + len;
  }

  /**
   * Reading one item more extends the section by the item found where the
   * items before it end.
   */
  lemma {:induction false} SectionSnoc<T>(parse: (seq<byte>, nat) -> Result<Parsed<T>>, s: seq<byte>,
                                         off: nat, i: nat, items: seq<T>, cursor: nat, item: T, next: nat)
    requires SectionAt(parse, s, off, i) == Ok(Parsed(items, cursor))
    requires parse(s, cursor) == Ok(Parsed(item, next))
    ensures SectionAt(parse, s, off, i + 1) == Ok(Parsed(items + [item], next))
    decreases i
  {
    if i == 0 {
      assert SectionAt(parse, s, next, 0) == Ok(Parsed([], next));
      assert [item] + [] == items + [item];
    } else {
      var first := parse(s, off).value;
      var tail := SectionAt(parse, s, first.next, i - 1).value.item;
      SectionSnoc(parse, s, first.next, i - 1, tail, cursor, item, next);
      AppendAssoc([first.item], tail, [item]);
    }
  }

  /**
   * An item that cannot be read where the items before it end makes the
   * whole section fail, with that item's error.
   */
  lemma {:induction false} SectionSnocErr<T>(parse: (seq<byte>, nat) -> Result<Parsed<T>>, s: seq<byte>,
                                            off: nat, i: nat, items: seq<T>, cursor: nat, count: nat)
    requires SectionAt(parse, s, off, i) == Ok(Parsed(items, cursor)) && i < count
    requires parse(s, cursor).Err?
    ensures SectionAt(parse, s, off, count) == Err(parse(s, cursor).error)
    decreases i
  {
    if i > 0 {
      var first := parse(s, off).value;
      var tail := SectionAt(parse, s, first.next, i - 1).value.item;
      SectionSnocErr(parse, s, first.next, i - 1, tail, cursor, count - 1);
    }
  }

  /**
   * PARSE_RESOURCES: count records from offset of buf, each parsed where
   * the previous one ended, collected in order.
   */
  method ParseResources(buf: array<byte>, count: uint16, offset: nat)
      returns (r: Result<Parsed<seq<Resource>>>)
    ensures r == AnswersAt(buf[..], offset, count as nat)
  {
    ghost var s := buf[..];
    var records: seq<Resource> := [];
    var cursor := offset;
    var i := 0;
    while i < count as nat
      invariant i <= count as nat && s == buf[..]
      invariant AnswersAt(s, offset, i) == Ok(Parsed(records, cursor))
    {
      var record := ParseResource(buf, cursor);
      if record.Err? {
        SectionSnocErr(ResourceAt, s, offset, i, records, cursor, count as nat);
        return Err(record.error);
      }
      SectionSnoc(ResourceAt, s, offset, i, records, cursor, record.value.item, record.value.next);
      records := records + [record.value.item];
      cursor := record.value.next;
      i := i + 1;
    }
    r := Ok(Parsed(records, cursor));
  }

  /**
   * dns_parsemessage: the header, the question and header.ancount answer
   * records, threading one offset through them.
   */
  method ParseMessage(buf: array<byte>) returns (r: Result<Parsed<Message>>)
    ensures r == MessageAt(buf[..])
  {
    var header := ParseHeader(buf, 0);
    if header.Err? {
      return Err(header.error);
    }
    var question := ParseQuestion(buf, header.value.next);
    if question.Err? {
      return Err(question.error);
    }
    var answer := ParseResources(buf, header.value.item.ancount, question.value.next);
    if answer.Err? {
      return Err(answer.error);
    }
    r := Ok(Parsed(Message(header.value.item, question.value.item, answer.value.item, [], []),
                   answer.value.next));
  }
}
