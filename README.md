# DNS wire-format codec of dnsclient-c, in Dafny

This project models the DNS message codec of `dns.c`, with the types and limits that `dns.h` declares. The codec implements the message layout of RFC 1035:

- **Header.** Twelve bytes holding six big-endian 16-bit fields (RFC 1035 section 4.1.1). `dns_dumpheader` writes it and `dns_parseheader` reads it.
- **Question.** A qname in label form, then qtype and qclass (RFC 1035 section 4.1.2). `dns_dumpquestion` writes it and `dns_parsequestion` reads it.
- **Answer records.** `dns_parseresource` reads them (RFC 1035 section 4.1.3). An owner name is either inline or a single compression pointer (RFC 1035 section 4.1.4). The fixed part holds type, class, a 32-bit ttl and rdlength, and rdata stays in the message buffer.
- **`dns_setqname`.** Encodes a dotted name into the length-prefixed label form of RFC 1035 section 3.1, with the limits of RFC 1035 section 2.3.4: 63 bytes per label and `QNAME_MAXLEN` for the name.
- **`dns_dumpmessage` and `dns_parsemessage`.** They thread one offset through the header, the question and `ancount` answer records.

Each source routine becomes a Dafny `method` over `array<byte>` with a cursor, and keeps the loops of the source: the label loop of `dns_setqname`, the record loop of `PARSE_RESOURCES`, and the byte loops behind `memcpy` and `strlen`. Each method is proved against a pure function on `buf[..]`:

- parsers return `Result<Parsed<T>>`, the item read and the offset just past it;
- writers state the new buffer as `Splice(old(buf[..]), at, bytes)`.

Lemmas about those functions state the round trips, the bytes consumed, the monotone cursor, and the link between the label form and a reference split into segments.

The modules follow the layers of the codec:

- `Wire` (`wire.dfy`): integer widths, error kinds, big-endian fields (`DUMP_SHORT`, `PARSE_SHORT`, `PARSE_LONG`), and the `memcpy` model.
- `Names` (`names.dfy`): copying a name through its zero byte (strlen + memcpy), and `dns_setqname`.
- `Headers` (`headers.dfy`), `Questions` (`questions.dfy`) and `Resources` (`resources.dfy`): the three sections.
- `Messages` (`messages.dfy`): `PARSE_RESOURCES`, `dns_dumpmessage` and `dns_parsemessage`.

## Divergences from the source, each commented where it is modelled

- **Guarded reads.** The source never bounds-checks its buffer. Every read in the model is guarded, and reading past the end yields `Truncated`.
- **Pointer test (dns.c:180).** A compression pointer is a byte with both top bits set, `>= 0xC0` (`Resources.IsPointer`). The source takes any byte with either top bit set.
- **Pointer target (dns.c:182).** The target is the low 14 bits (`Resources.PointerTarget`). The source masks with `0x3F`.
- **Cursor after a record (dns.c:198).** The cursor moves past rdata (`Resources.FixedAt`). The source leaves it at the start of rdata.
- **qname terminator (dns.c:245-255).** `dns_setqname` writes the terminating zero byte explicitly. The source's `strcat` leaves it in the right place only because `calloc` zeroed the buffer (dns.c:228).
- **Name guard (dns.c:238).** `Names.SetQName` accepts a name only if its label form, `|name| + 2` bytes, fits the `QNAME_MAXLEN + 1` byte buffer. The source's `strlen(name) > QNAME_MAXLEN` guard lets a 254-character name through. See Findings.
- **Empty segments.** `strsep` returns empty segments for a leading, trailing or doubled dot, and for the empty name. The code writes a zero length byte for each of them, so the model does too. `Names.LabelFormIsWireName` states that a name without empty segments encodes to a well-formed name.

## Model

| member | source | states |
|---|---|---|
| Wire.U16At | dns.c:27 | defines the value ntohs gives for two bytes, high byte first; U16RoundTrip and U16BytesAt pin it down as the inverse of U16Bytes |
| Wire.U32At | dns.c:34 | defines the value ntohl gives for four bytes, most significant first; U32RoundTrip and U32BytesAt pin it down as the inverse of U32Bytes |
| Wire.AsInt32 | dns.c:195 | defines the two's-complement store of the uint32_t ttl into the int32_t field; Int32RoundTrip pins it down as a bijection with AsUint32 as its inverse |
| Wire.DumpShort | dns.c:8-13 | writes the field big-endian at the offset, changes no other byte, and advances the offset by 2 |
| Wire.ParseShort | dns.c:23-28 | returns the big-endian 16-bit value at the offset and advances it by 2 |
| Wire.ParseLong | dns.c:30-35 | returns the big-endian 32-bit value at the offset and advances it by 4 |
| Wire.U16RoundTrip | dns.c:23-28 | reading back the two bytes DUMP_SHORT writes gives the original value, wherever they sit |
| Wire.U16BytesAt | dns.c:8-13 | writing back a value PARSE_SHORT read reproduces the two bytes it came from |
| Wire.U32RoundTrip | dns.c:30-35 | reading back the four big-endian bytes of a 32-bit value gives the value |
| Wire.U32BytesAt | dns.c:30-35 | writing back a value PARSE_LONG read reproduces the four bytes |
| Wire.Int32RoundTrip | dns.c:195 | storing the uint32_t ttl into the int32_t field is a bijection, and neither direction loses a bit |
| Wire.Copy | dns.c:120 | memcpy: the buffer afterwards is the old one with exactly the source bytes written at the offset |
| Wire.PutByte | dns.c:252 | one byte store, and nothing else changes |
| Wire.SpliceSplice | dns.c:121-124 | writing two runs back to back equals writing their concatenation, which is how the advancing offset composes writes |
| Names.FindZero | dns.c:162 | a found index is at or after the start and holds a zero byte |
| Names.FindZeroFirst | dns.c:162 | the zero byte found is the first one, and none is found only if none exists |
| Names.FindTerminator | dns.c:162 | strlen at an offset, with a loop: the result is FindZero's |
| Names.TerminatedIff | dns.c:162-163 | a copied name ends in a zero byte and has no zero byte before it, and conversely |
| Names.CopyRawAt | dns.c:162-164 | the bytes copied are those of the buffer from the offset through the first zero byte, and the cursor lands right after them; no zero byte means Truncated |
| Names.CopyRawRoundTrip | dns.c:162-164 | a terminated name stored at an offset is copied back whole, and the cursor ends right after it |
| Names.CopyRaw | dns.c:162-164 | the copy the parsers make equals CopyRawAt on the buffer's contents |
| Names.CString | dns.c:119 | the C string of a buffer is terminated, is a prefix of it, and is what the raw copy reads from offset 0 |
| Names.CStringOfPrefix | dns.c:119-120 | a buffer starting with a terminated name has that name as its C string |
| Names.CStringOfTerminated | dns.c:119-120 | a terminated name is its own C string |
| Names.DotIndex | dns.c:245-246 | the first segment strsep cuts off ends at a dot or at the end of the name |
| Names.DotFree | dns.c:245-246 | that segment contains no dot |
| Names.LabelsFit | dns.c:245-251 | defines the loop's label check: every segment strsep returns is at most 63 bytes; LabelsFitSegments pins it down against the reference segments |
| Names.Emitted | dns.c:245-255 | defines what the loop writes before its zero byte: each segment's length byte and bytes, up to the first over-long segment; EmittedIsLabels pins it down against the reference encoding of the segments, and EmittedLength bounds it |
| Names.EmittedLength | dns.c:252-254 | the loop writes at most one byte more than the name has, and exactly one more when all labels fit |
| Names.LabelForm | dns.c:245-255 | the label form is always two bytes longer than the dotted name |
| Names.EmittedStop | dns.c:247-251 | a first segment longer than 63 bytes writes nothing more and makes the name fail |
| Names.EmittedLast | dns.c:252-254 | a last segment of at most 63 bytes is written as its length byte and its bytes |
| Names.EmittedNext | dns.c:252-254 | a segment of at most 63 bytes with more after it is written as a label, and the remaining labels follow |
| Names.LabelsFitNext | dns.c:247 | after a short first segment, the name's labels fit exactly when those of the rest do |
| Names.SetQNameAdvance | dns.c:245-255 | a loop turn over a short non-final segment keeps the loop invariant: written bytes followed by what the rest emits are the whole output |
| Names.SetQNameLast | dns.c:245-255 | the turn over the last short segment completes the output, and every label fits |
| Names.SetQNameStop | dns.c:247-251 | the turn over an over-long segment ends with exactly the earlier labels written, and the name fails |
| Names.PutLabel | dns.c:252-253 | writes a label's length byte and then its bytes at the offset, and nothing else |
| Names.SetQName | dns.c:237-258 | a name too long for the buffer gives -1 and writes nothing; an over-long label gives -1 after writing the earlier labels; otherwise gives 1 and writes the label form with its terminator |
| Names.SegmentsJoin | dns.c:245 | the segments strsep returns contain no dot, and joined with dots they give back the name |
| Names.JoinSegments | dns.c:245 | dot-free segments joined with dots split back into the same segments |
| Names.LabelsFitSegments | dns.c:245-251 | the loop's label check succeeds exactly when every segment strsep returns is at most 63 bytes |
| Names.EmittedIsLabels | dns.c:245-255 | the label form is, for each segment in order, its length byte then its bytes, then one zero byte |
| Names.WireNameTerminated | dns.c:119 | a well-formed label-form name has its terminator as its only zero byte, so strlen + 1 spans it exactly |
| Names.LabelFormIsWireName | dns.c:245-255 | a name with no zero byte, no empty segment and short labels encodes to a well-formed label-form name |
| Names.LabelFormTerminated | dns.c:245-255 | the label form of such a name is a C string ending at its terminator |
| Names.LabelsFitCons | dns.c:245-254 | a short dot-free label in front of a name that fits keeps it fitting, and is written first |
| Names.LabelsFitOne | dns.c:245-254 | a short dot-free name is a single label |
| Names.ExampleComLabelForm | dns.c:237-258 | "example.com" encodes to 07 'example' 03 'com' 00 |
| Names.SetQNameAsWritten | dns.c:238-255 | defines dns_setqname's outcome under the guard as written, strlen(name) > QNAME_MAXLEN; GuardsDifferOnlyAtMaximum and LongNameOverflowsAsWritten pin it down |
| Names.GuardsDifferOnlyAtMaximum | dns.c:238-241 | on every name other than those of exactly 254 characters, the guard as written accepts exactly the names SetQName accepts, and gives the same label form |
| Names.LongNameOverflowsAsWritten | dns.c:238 | a 254-character name passes the guard as written, but its label form is 256 bytes, one more than the qname buffer; SetQName's guard rejects it |
| Names.LongNameFits | dns.c:238 | the 254-character example name has no zero byte and four labels that each fit |
| Headers.HeaderBytes | dns.c:86-98 | a header is always twelve bytes on the wire |
| Headers.HeaderAt | dns.c:145-156 | parsing fails, with Truncated, exactly when fewer than twelve bytes remain, and otherwise advances the offset by exactly 12 |
| Headers.HeaderLayout | dns.c:90-95 | the k-th field of the struct occupies bytes 2k and 2k+1, high byte first |
| Headers.HeaderRoundTrip | dns.c:145-156 | parsing the bytes of a header recovers all six fields and advances the offset by 12 |
| Headers.HeaderBytesOfParsed | dns.c:145-156 | writing back any twelve parsed bytes reproduces them |
| Headers.QueryHeaderBytes | dns.c:86-98 | a recursion-desired query with one question has the expected twelve bytes |
| Headers.DumpHeader | dns.c:86-98 | writes the six fields big-endian, in struct order, at the offset, and returns 12 |
| Headers.ParseHeader | dns.c:145-156 | the header read from the buffer, and the advanced offset, are HeaderAt's |
| Questions.QuestionBytes | dns.c:114-127 | a question takes strlen(qname) + 1 + 4 bytes |
| Questions.QuestionAt | dns.c:159-171 | the name read is the buffer's bytes through the first zero byte, and the offset advances by its length plus 4; errors are Truncated, or NameTooLong when the name does not fit the qname buffer |
| Questions.QuestionRoundTrip | dns.c:159-171 | parsing the bytes of a question recovers its qname as a C string, qtype and qclass, and consumes exactly the bytes written |
| Questions.StoredQuestionRoundTrip | dns.c:159-171 | a question whose qname is already a terminated name parses back as itself |
| Questions.QuestionAtAsWritten | dns.c:159-171 | defines dns_parsequestion as written, which copies the name whatever its length; LongQNameOverflowsAsWritten and LongQNameExample pin it down |
| Questions.LongQNameOverflowsAsWritten | dns.c:162-163 | whenever the raw copy at the offset is longer than the 255-byte qname buffer and the two fields follow, the parse as written succeeds with that over-long name, while QuestionAt refuses it with NameTooLong |
| Questions.LongQNameExample | dns.c:162-163 | 255 letters, a zero byte and qtype and qclass 1 parse as written to a 256-byte qname, one more than the buffer holds; QuestionAt gives NameTooLong |
| Questions.QuestionBytesOfParsed | dns.c:114-127 | writing back a parsed question reproduces the very bytes it was read from |
| Questions.QuestionBytesOfFields | dns.c:114-127 | a name found at an offset, with the two fields read after it, writes back as those bytes |
| Questions.SetQNameCString | dns.c:119-120 | the buffer dns_setqname fills holds the whole label form as its C string, so that dns_dumpquestion writes the whole name |
| Questions.ExampleComQuestionBytes | dns.c:114-127 | the question for "example.com", type A, class IN, is its label form followed by 00 01 00 01 |
| Questions.DumpQuestion | dns.c:114-127 | writes the qname through its zero byte, then qtype and qclass big-endian, and returns strlen(qname) + 1 + 4 |
| Questions.ParseQuestion | dns.c:159-171 | the question read from the buffer, and the advanced offset, are QuestionAt's |
| Resources.IsPointer | dns.c:180 | defines the pointer test of RFC 1035 section 4.1.4, both top bits set; PointerNameAt and CompressedRoundTrip use it for the pointer branch, InlineNameAt and InlineRoundTrip for the inline one |
| Resources.PointerTarget | dns.c:181-182 | a pointer's target is below 0x4000, and is the pointer value without its two top bits |
| Resources.NameAt | dns.c:180-191 | a pointer copies the name from its target and advances the cursor by 2; an inline name is copied through its zero byte and the cursor moves past it; errors are Truncated |
| Resources.FixedAt | dns.c:193-198 | the fixed part is ten bytes, rdata points just past them, and the cursor ends rdlength bytes later, within the buffer; Truncated exactly when those bytes are missing |
| Resources.ResourceAt | dns.c:174-201 | a record read keeps the owner name NameAt gives, its rdata starts ten bytes after the name, and the record lies within the buffer |
| Resources.FixedRoundTrip | dns.c:193-198 | reading back a fixed part recovers type, class, ttl and rdlength, and rdata points at the data |
| Resources.InlineNameAt | dns.c:186-190 | an inline owner name stored at the offset reads back whole, and the cursor moves past its zero byte |
| Resources.PointerNameAt | dns.c:180-185 | a pointer to a stored name reads that name, and the cursor moves by 2 |
| Resources.ResourceOfName | dns.c:193-198 | once the owner name is read, the record is its fixed part read from where the name ends |
| Resources.InlineRoundTrip | dns.c:186-198 | a record with an inline name parses back whole, and the cursor ends past its data |
| Resources.CompressedRoundTrip | dns.c:180-198 | a record whose name is a pointer parses back with the target's name, and the cursor moves past the pointer, the fixed part and the data |
| Resources.RecordBytesOfParsed | dns.c:174-201 | the bytes a record was parsed from are its inline name or a pointer, followed by the fixed part and data written back from the parsed fields |
| Resources.FixedBytesOfParsed | dns.c:193-196 | writing back a parsed fixed part and its data reproduces the bytes |
| Resources.ParseName | dns.c:180-191 | the owner name read from the buffer, and the advanced offset, are NameAt's |
| Resources.ParseResource | dns.c:174-201 | the record read from the buffer, and the advanced offset, are ResourceAt's |
| Resources.IsPointerAsWritten | dns.c:180 | defines the test as written, either top bit set; PointerMaskAsWritten runs it on the byte C0 |
| Resources.NameAtAsWritten | dns.c:180-191 | defines the owner name read as written, with the 0x3F mask; PointerMaskAsWritten pins it down on the pointer C0 40 |
| Resources.ResourceAtAsWritten | dns.c:174-201 | defines dns_parseresource as written, with the cursor left at rdata; CursorAsWritten pins it down |
| Resources.PointerTargetAsWritten | dns.c:182 | the mask as written keeps fewer than 64 target offsets |
| Resources.PointerMaskAsWritten | dns.c:182 | the pointer C0 40 leads to offset 0 as written and to offset 64 in the model, so the name read differs whenever the names there differ |
| Resources.CursorAsWritten | dns.c:198 | as written, the cursor after an inline-named record stops at its rdata, rdlength bytes short of the record's end |
| Messages.MessageBytes | dns.c:54-63 | a message dump is twelve header bytes plus the question's strlen(qname) + 1 + 4 |
| Messages.SectionAt | dns.c:15-21 | a section read succeeds with exactly count items |
| Messages.SectionAdvance | dns.c:18-20 | when each item read only fails for want of bytes and moves forward, so does the section read |
| Messages.AnswersAt | dns.c:15-21 | the answer section fails only with Truncated; on success it holds exactly count records, and the cursor does not move back or past the buffer |
| Messages.AnswersBounds | dns.c:15-21 | every record of the section, data included, lies between the section's start and the final cursor |
| Messages.SectionSnoc | dns.c:18-20 | reading one more item extends the section by the item found where the earlier ones end |
| Messages.SectionSnocErr | dns.c:18-20 | an item that cannot be read fails the whole section with its error |
| Messages.AnswersCons | dns.c:18-20 | the section is its first record followed by the rest, read from where the first ends |
| Messages.MessageAt | dns.c:130-142 | a parsed message has exactly ancount answers and empty authority and additional sections; its header and question are those read at 0 and 12, and the cursor ends beyond them and within the buffer |
| Messages.QueryRoundTrip | dns.c:130-142 | a query with ancount 0 from dns_dumpmessage parses back to the same header and question, with no records, consuming exactly the bytes written |
| Messages.OwnerBytes | dns.c:180-191 | an inline owner is written as its name, a compressed one as two bytes that start like a pointer |
| Messages.AnswersRoundTrip | dns.c:18-20 | records written one after another, each owner inline or a pointer to where its name is stored, all parse back with their names, fields and data, and the cursor ends right after the last |
| Messages.AnswersFirst | dns.c:19 | the first of the written records parses back and matches; the rest start where it ends |
| Messages.HeadMatches | dns.c:19 | a record written at an offset parses back matching whatever follows it, and the cursor ends where the following bytes start |
| Messages.OwnerMatches | dns.c:174-198 | a record with either kind of owner parses back matching its answer, and the cursor moves past the owner bytes, the fixed part and the data |
| Messages.AnswersConsMatch | dns.c:18-20 | a matching first record followed by matching rest gives a matching section |
| Messages.InlineMatches | dns.c:186-198 | an inline-named record reads back matching its answer and ends where it was written to end |
| Messages.CompressedMatches | dns.c:180-198 | a record whose owner is a pointer to its stored name reads back matching, and the cursor moves past the two pointer bytes, the fixed part and the data |
| Messages.ResponseLayout | dns.c:133-134 | in a response, the header and the question parse back, and the records start right after them |
| Messages.MessageOfParts | dns.c:130-142 | the message is the header, the question and the answer section, each read where the one before ends |
| Messages.ResponseRoundTrip | dns.c:130-142 | a response laid out as header, question and ancount records, inline or pointing at names stored in the message, parses back whole, matching every record, and consumes all its bytes |
| Messages.QuestionNameStored | dns.c:133-134 | in a response, the question's name is stored at offset 12, where a pointer C0 0C refers |
| Messages.AllPointTo | dns.c:180-185 | records whose owners all point to one stored name have all their targets stored |
| Messages.PointerResponseRoundTrip | dns.c:130-142 | a response whose records all point at the question name parses back whole, and every record's owner name is the question's name |
| Messages.DumpMessage | dns.c:54-63 | writes the header at 0 and the question right after it, and returns their combined length |
| Messages.ParseResources | dns.c:15-21 | PARSE_RESOURCES with a loop: the records read from the buffer, and the final cursor, are AnswersAt's |
| Messages.ParseMessage | dns.c:130-142 | the message read from the buffer is MessageAt's |

## Left out

- **`udp.c` and `dnsclient.c`.** The socket plumbing, `getnameserver`'s reading of `/etc/resolv.conf`, and `main`'s random ids and rdata printing are I/O and presentation, not codec.
- **Heap management (dns.c:203-266).** The `dns_create*` and `dns_destroy*` functions are `calloc`/`free` wrappers, and headers, questions, records and messages are Dafny values. The `calloc` of the answer array in `PARSE_RESOURCES` becomes a growing sequence.
- **Diagnostics.** The `fprintf(stderr, ...)` messages (dns.c:239, dns.c:248) carry no logic and are left out.
- **Byte order.** `htons`, `ntohs` and `ntohl` are written out as big-endian arithmetic instead of calls.
- **Authority and additional sections.** The source never dumps or parses them (dns.c:60, dns.c:139). `Messages.Message` keeps them empty, and `nscount` and `arcount` are read but not used.
- **Records on dump.** `dns_dumpmessage` writes no record section, and neither does the model. `Messages.AnswerBytes` is only a reference encoder for stating round trips.
- **Multi-hop compression.** A pointer is followed one level, as in the source. A pointer inside the target name is copied as plain bytes.
- **Pointer direction.** `Resources.NameAt` follows a pointer to any target, forward and self pointers included, as dns.c:180-185 does. No error is produced for a target at or after the pointer itself.
- **Reads past the end.** Where the source reads beyond the buffer (strlen without a zero byte, fixed fields, rdata), the model returns `Truncated` instead of modelling undefined behaviour. This covers the rdlength bytes of rdata, which the source never checks.
- **Questions.ParseQuestion overflow.** A qname longer than the `QNAME_MAXLEN + 1` byte buffer is refused with `NameTooLong`. The source copies it regardless and overruns the buffer; see Findings.
- **Buffers and offsets.** Buffers have no fixed size: the 512-byte `MESSAGE_MAXLEN` of dns.h is not imposed. Offsets are unbounded `nat`s rather than C `int`s, which cannot overflow for a 512-byte message. Writers take an offset into the buffer instead of a moved pointer (`buffer + offset`).
- **Values instead of pointers.** A question's qname is a byte sequence standing for the `qname` buffer. On the dump side it is any sequence that holds a zero byte, such as the whole 255-byte buffer `dns_setqname` fills (`Questions.SetQNameCString`), and `Questions.DumpQuestion` writes its C string. On the parse side it is the copied C string, through its zero byte, and `Questions.QuestionAt` refuses one longer than the buffer. `Question`, `Header` and `Message` are passed as values, not pointers.
- **Names.SetQName's input.** The name is given by its characters, without the terminator. `strdup` and the strsep cursor's memory are not modelled; a cursor index stands for `addr`. A zero byte inside the name cannot occur in a C string and gets no special treatment.
- **The strcat detail.** The model writes the zero terminator directly after the last label. It does not model `strcat` searching for a zero byte in a buffer that was not zeroed.
- **Resources.IsPointer.** Bytes 0x40 to 0xBF, reserved in RFC 1035, are read as inline label lengths rather than as pointers as in dns.c:180.

## Findings

| source | as written | input that shows it | evidently intended | confidence | as-written member | corrected member |
|---|---|---|---|---|---|---|
| dns.c:238 | `strlen(name) > QNAME_MAXLEN` rejects only names over 254 characters | four labels of 63, 63, 63 and 62 letters: a 254-character name whose label form and terminator take 256 bytes of the 255-byte qname buffer (dns.c:228) | reject every name whose label form does not fit the buffer, that is, names over 253 characters | not executed | Names.LongNameOverflowsAsWritten | Names.SetQName |
| dns.c:182 | `p &= 0x3F` keeps 6 bits of the 14-bit pointer offset | the pointer bytes C0 40, which RFC 1035 section 4.1.4 reads as offset 64, lead to offset 0 | mask with 0x3FFF | not executed | Resources.PointerMaskAsWritten | Resources.CompressedRoundTrip |
| dns.c:198 | the cursor is left at the start of rdata | any answer section with two records, the first with rdlength > 0: the second is read from the first one's data | advance the cursor past the rdlength data bytes | not executed | Resources.CursorAsWritten | Messages.AnswersRoundTrip |
| dns.c:162-163 | `strlen + 1` bytes of the received name are copied into the qname buffer of `QNAME_MAXLEN + 1` bytes (dns.c:228), whatever their number | 255 letters, a zero byte, then qtype and qclass: 256 bytes are copied into the 255-byte buffer | refuse a name longer than the buffer | not executed | Questions.LongQNameOverflowsAsWritten | Questions.QuestionAt |
