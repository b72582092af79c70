/**
 * Wire-Names: the length-prefixed label form of RFC 1035 section 3.1.
 *
 * Two operations of dns.c work on them.
 * - The raw copy used by the parsers (strlen followed by memcpy at an
 *   offset) takes the bytes up to and including the first zero byte.
 * - dns_setqname turns a dotted C string into the label form.
 */
module Names {
  import opened Wire

  // ---------------------------------------------------------------------
  // Raw copy: strlen + memcpy at an offset of a buffer

  /** Index of the first zero byte at or after i, if there is one. */
  function FindZero(s: seq<byte>, i: nat): (r: Option<nat>)
    decreases |s| - i
    ensures r.Some? ==> i <= r.value < |s| && s[r.value] == 0
  {
    if i >= |s| then None
    else if s[i] == 0 then Some(i)
    else FindZero(s, i + 1)
  }

  /** The zero byte found is the first at or after i, and none is found only when there is none. */
  lemma {:induction false} FindZeroFirst(s: seq<byte>, i: nat)
    ensures FindZero(s, i).Some? ==> forall j :: i <= j < FindZero(s, i).value ==> s[j] != 0
    ensures FindZero(s, i).None? ==> forall j :: i <= j < |s| ==> s[j] != 0
    decreases |s| - i
  {
    if i < |s| && s[i] != 0 {
      FindZeroFirst(s, i + 1);
    }
  }

  /** w ends in its only zero byte: a C string with its terminator, its first zero byte its last. */
  predicate Terminated(w: seq<byte>)
  {
    |w| >= 1 && FindZero(w, 0) == Some(|w| - 1)
  }

  /** Terminated spelled out: the last byte is zero and none before it is. */
  lemma TerminatedIff(w: seq<byte>)
    ensures Terminated(w) <==> |w| >= 1 && w[|w| - 1] == 0 && 0 !in w[..|w| - 1]
  {
    FindZeroFirst(w, 0);
    if |w| >= 1 && w[|w| - 1] == 0 && 0 !in w[..|w| - 1] {
      forall j | 0 <= j < |w| - 1 ensures w[j] != 0 {
        assert w[j] == w[..|w| - 1][j];
      }
      FindZeroIs(w, 0, |w| - 1);
    }
  }

  /** The bytes from off through the first zero byte at or after it form a terminated name. */
  lemma CopyTerminated(s: seq<byte>, off: nat, z: nat)
    requires FindZero(s, off) == Some(z)
    ensures Terminated(s[off..z + 1])
  {
    FindZeroFirst(s, off);
    var w := s[off..z + 1];
    forall j | 0 <= j < z - off ensures w[j] != 0 {
      assert w[j] == s[off + j];
    }
    FindZeroIs(w, 0, z - off);
  }

  /**
   * The name bytes at offset off, copied verbatim through the first zero
   * byte, and the offset just past them. The source's strlen runs past the
   * end of the buffer when there is no zero byte; here that is Truncated.
   */
  function CopyRawAt(s: seq<byte>, off: nat): (r: Result<Parsed<seq<byte>>>)
    ensures r.Err? ==> r.error == Truncated
    ensures r.Ok? ==> off < r.value.next <= |s| && r.value.item == s[off..r.value.next]
                      && Terminated(r.value.item)
  {
    var z := FindZero(s, off);
    if z.None? then Err(Truncated)
    else
      CopyTerminated(s, off, z.value);
      Ok(Parsed(s[off..z.value + 1], z.value + 1))
  }

  /** A terminated name stored at off is copied back whole, and the copy ends right after it. */
  lemma CopyRawRoundTrip(s: seq<byte>, off: nat, w: seq<byte>)
    requires Terminated(w) && off + |w| <= |s| && s[off..off + |w|] == w
    ensures CopyRawAt(s, off) == Ok(Parsed(w, off + |w|))
  {
    var z := off + |w| - 1;
    FindZeroFirst(w, 0);
    assert s[z] == w[|w| - 1];
    forall j | off <= j < z ensures s[j] != 0 {
      assert s[j] == w[j - off];
    }
    FindZeroIs(s, off, z);
  }

  lemma {:induction false} FindZeroIs(s: seq<byte>, i: nat, z: nat)
    requires i <= z < |s| && s[z] == 0
    requires forall j :: i <= j < z ==> s[j] != 0
    ensures FindZero(s, i) == Some(z)
    decreases z - i
  {
    if i < z {
      FindZeroIs(s, i + 1, z);
    }
  }

  /** s holds a C string: a zero byte somewhere. */
  predicate HasTerminator(s: seq<byte>)
  {
    0 in s
  }

  /** The C string s holds: its bytes through the first zero byte, what strlen + 1 spans. */
  function CString(s: seq<byte>): (r: seq<byte>)
    requires HasTerminator(s)
    ensures Terminated(r) && 1 <= |r| <= |s| && r == s[..|r|]
    ensures CopyRawAt(s, 0) == Ok(Parsed(r, |r|))
  {
    FindZeroFirst(s, 0);
    CopyRawAt(s, 0).value.item
  }

  /** A buffer that starts with a terminated name holds that name as its C string. */
  lemma CStringOfPrefix(s: seq<byte>, w: seq<byte>)
    requires Terminated(w) && StoredAt(s, 0, w)
    ensures HasTerminator(s) && CString(s) == w
  {
    CopyRawRoundTrip(s, 0, w);
    assert s[|w| - 1] == w[|w| - 1];
  }

  /** A terminated sequence is its own C string. */
  lemma CStringOfTerminated(w: seq<byte>)
    requires Terminated(w)
    ensures HasTerminator(w) && CString(w) == w
  {
    CopyRawRoundTrip(w, 0, w);
    assert w[0..|w|] == w;
  }

  /** strlen at an offset: the index of the first zero byte at or after from. */
  method FindTerminator(s: seq<byte>, from: nat) returns (r: Option<nat>)
    ensures r == FindZero(s, from)
  {
    var i := from;
    while i < |s| && s[i] != 0
      invariant from <= i
      invariant FindZero(s, from) == FindZero(s, i)
      decreases |s| - i
    {
      i := i + 1;
    }
    r := if i < |s| then Some(i) else None;
  }

  /** The copy the parsers make of a name at offset of buf, and the offset past it. */
  method CopyRaw(buf: array<byte>, offset: nat) returns (r: Result<Parsed<seq<byte>>>)
    ensures r == CopyRawAt(buf[..], offset)
  {
    var z := FindTerminator(buf[..], offset);
    match z
    case None =>
      r := Err(Truncated);
    case Some(i) =>
      r := Ok(Parsed(buf[offset..i + 1], i + 1));
  }

  // ---------------------------------------------------------------------
  // The label form of a dotted name (dns_setqname)

  /** The label separator '.'. */
  const DOT: byte := 0x2E

  /** Length of the first dot-separated segment of s: what strsep cuts off and strlen measures. */
  function DotIndex(s: seq<byte>): (i: nat)
    ensures i <= |s| && (i < |s| ==> s[i] == DOT)
  {
    if s == [] then 0
    else if s[0] == DOT then 0
    else 1 + DotIndex(s[1..])
  }

  /** The first segment holds no dot. */
  lemma {:induction false} DotFree(s: seq<byte>)
    ensures DOT !in s[..DotIndex(s)]
    decreases |s|
  {
    if s != [] && s[0] != DOT {
      DotFree(s[1..]);
      assert s[..DotIndex(s)] == [s[0]] + s[1..][..DotIndex(s[1..])];
    }
  }

  /** Every segment of name (all those strsep returns, empty ones included) is at most 63 bytes. */
  predicate LabelsFit(name: seq<byte>)
    decreases |name|
  {
    var i := DotIndex(name);
    i <= QNAME_LABELMAXLEN && (i < |name| ==> LabelsFit(name[i + 1..]))
  }

  /**
   * What the dns_setqname loop writes: for each segment in order, its
   * length byte and its bytes, stopping before the first segment longer
   * than 63 bytes (the source returns -1 there, leaving earlier labels
   * written).
   */
  function Emitted(name: seq<byte>): (r: seq<byte>)
    decreases |name|
  {
    var i := DotIndex(name);
    if i > QNAME_LABELMAXLEN then []
    else [i as byte] + name[..i] + (if i == |name| then [] else Emitted(name[i + 1..]))
  }

  lemma {:induction false} EmittedLength(name: seq<byte>)
    ensures |Emitted(name)| <= |name| + 1
    ensures LabelsFit(name) ==> |Emitted(name)| == |name| + 1
    decreases |name|
  {
    var i := DotIndex(name);
    if i <= QNAME_LABELMAXLEN && i < |name| {
      EmittedLength(name[i + 1..]);
    }
  }

  /**
   * The label form dns_setqname produces for name: the labels, then the
   * zero-length label. Its size is always two more than the dotted
   * name's: one leading length byte and the terminator, each dot having
   * become a length byte.
   */
  function LabelForm(name: seq<byte>): (r: seq<byte>)
    requires LabelsFit(name)
    ensures |r| == |name| + 2
  {
    EmittedLength(name);
    Emitted(name) + [0]
  }

  /**
   * The guard this model uses: the label form, |name| + 2 bytes, must fit
   * the QNAME_BUFLEN-byte qname buffer.
   */
  predicate NameFits(name: seq<byte>)
  {
    |name| + 2 <= QNAME_BUFLEN
  }

  /** A first segment longer than 63 bytes: nothing is emitted and the labels do not fit. */
  lemma EmittedStop(s: seq<byte>)
    requires DotIndex(s) > QNAME_LABELMAXLEN
    ensures Emitted(s) == [] && !LabelsFit(s)
  {
  }

  /** A last segment of at most 63 bytes is emitted with its length byte, and the labels fit. */
  lemma EmittedLast(s: seq<byte>)
    requires DotIndex(s) <= QNAME_LABELMAXLEN && DotIndex(s) == |s|
    ensures Emitted(s) == [DotIndex(s) as byte] + s[..DotIndex(s)] && LabelsFit(s)
  {
    assert [DotIndex(s) as byte] + s[..DotIndex(s)] + [] == [DotIndex(s) as byte] + s[..DotIndex(s)];
  }

  /** A first segment of at most 63 bytes is emitted with its length byte, and the rest follows. */
  lemma EmittedNext(s: seq<byte>)
    requires DotIndex(s) <= QNAME_LABELMAXLEN && DotIndex(s) < |s|
    ensures Emitted(s) == [DotIndex(s) as byte] + s[..DotIndex(s)] + Emitted(s[DotIndex(s) + 1..])
  {
  }

  /** After a first segment of at most 63 bytes, the labels fit exactly when those of the rest do. */
  lemma LabelsFitNext(s: seq<byte>)
    requires DotIndex(s) <= QNAME_LABELMAXLEN && DotIndex(s) < |s|
    ensures LabelsFit(s) <==> LabelsFit(s[DotIndex(s) + 1..])
  {
  }

  /**
   * The dns_setqname loop invariant while segments remain in rest, for a
   * name that emits emitted and whose labels fit exactly when fits holds:
   * what is written, followed by what rest emits, is emitted, and the
   * labels fit exactly when rest's do.
   */
  predicate Progress(rest: seq<byte>, written: seq<byte>, emitted: seq<byte>, fits: bool)
  {
    emitted == written + Emitted(rest) && (fits <==> LabelsFit(rest))
  }

  /**
   * A turn of the dns_setqname loop that copies a segment of at most 63
   * bytes, with another segment after it, keeps the loop invariant.
   */
  lemma SetQNameAdvance(rest: seq<byte>, len: nat, written: seq<byte>, emitted: seq<byte>, fits: bool)
    requires Progress(rest, written, emitted, fits)
    requires len == DotIndex(rest) && len <= QNAME_LABELMAXLEN && len < |rest|
    ensures Progress(rest[len + 1..], written + ([len as byte] + rest[..len]), emitted, fits)
  {
    EmittedNext(rest);
    LabelsFitNext(rest);
    AppendAssoc(written, [len as byte] + rest[..len], Emitted(rest[len + 1..]));
  }

  /**
   * The turn that copies the last segment, of at most 63 bytes: what is
   * written is then all the name emits, and all its labels fit.
   */
  lemma SetQNameLast(rest: seq<byte>, len: nat, written: seq<byte>, emitted: seq<byte>, fits: bool)
    requires Progress(rest, written, emitted, fits)
    requires len == DotIndex(rest) && len <= QNAME_LABELMAXLEN && len == |rest|
    ensures emitted == written + ([len as byte] + rest[..len]) && fits
  {
    EmittedLast(rest);
  }

  /** The turn that meets a segment longer than 63 bytes: nothing more is emitted. */
  lemma SetQNameStop(rest: seq<byte>, len: nat, written: seq<byte>, emitted: seq<byte>, fits: bool)
    requires Progress(rest, written, emitted, fits)
    requires len == DotIndex(rest) && len > QNAME_LABELMAXLEN
    ensures emitted == written && !fits
  {
    EmittedStop(rest);
    assert written + [] == written;
  }

  /** The first len bytes of the suffix at addr, and what follows them and one more byte. */
  lemma SuffixParts(name: seq<byte>, addr: nat, len: nat)
    requires addr + len <= |name|
    ensures name[addr..][..len] == name[addr..addr + len]
    ensures addr + len < |name| ==> name[addr..][len + 1..] == name[addr + len + 1..]
  {
  }

  /** Writes one label at offset at: the segment's length byte, then the segment. */
  method PutLabel(qname: array<byte>, at: nat, segment: seq<byte>)
    requires |segment| <= QNAME_LABELMAXLEN && at + 1 + |segment| <= qname.Length
    modifies qname
    ensures qname[..] == Splice(old(qname[..]), at, [|segment| as byte] + segment)
  {
    PutByte(qname, at, |segment| as byte);
    Copy(qname, at + 1, segment);
    SpliceSplice(old(qname[..]), at, [|segment| as byte], segment);
  }

  /**
   * dns_setqname. Fails with -1 without writing when the name is too long
   * and with -1 after the labels before the offending one when a segment is
   * longer than 63 bytes; otherwise writes the label form and returns 1.
   *
   * Divergences from dns.c:237-258:
   * - the name guard is NameFits (|name| <= 253), not strlen(name) > 254,
   *   which lets a 254-byte name through to overflow the 255-byte buffer;
   * - the terminating zero is written explicitly after the last label. In
   *   the source, strcat writes it, but only lands in the right place
   *   because calloc zeroed the buffer.
   */
  method SetQName(qname: array<byte>, name: seq<byte>) returns (status: int)
    requires qname.Length == QNAME_BUFLEN
    modifies qname
    ensures !NameFits(name) ==> status == -1 && qname[..] == old(qname[..])
    ensures NameFits(name) && LabelsFit(name) ==>
              status == 1 && qname[..] == Splice(old(qname[..]), 0, LabelForm(name))
    ensures NameFits(name) && !LabelsFit(name) ==>
              status == -1 && |Emitted(name)| <= |name| + 1
              && qname[..] == Splice(old(qname[..]), 0, Emitted(name))
  {
    if !NameFits(name) {
      return -1;
    }
    EmittedLength(name);
    // addr is strsep's cursor into name; |name| + 1 stands for the NULL it
    // becomes after the last segment. total is always equal to addr: each
    // segment and its dot turn into a length byte and the segment.
    var addr: nat := 0;
    var total: nat := 0;
    ghost var written: seq<byte> := [];
    ghost var rest := name;
    ghost var emitted, fits := Emitted(name), LabelsFit(name);
    while addr <= |name|
      invariant addr <= |name| + 1 && total == addr && |written| == total
      invariant qname[..] == Splice(old(qname[..]), 0, written)
      invariant addr <= |name| ==> rest == name[addr..] && Progress(rest, written, emitted, fits)
      invariant addr == |name| + 1 ==> written == emitted && fits
      decreases |name| + 1 - addr
    {
      var len := DotIndex(name[addr..]);
      if len > QNAME_LABELMAXLEN {
        SetQNameStop(rest, len, written, emitted, fits);
        return -1;
      }
      var segment := name[addr..addr + len];
      PutLabel(qname, total, segment);
      SuffixParts(name, addr, len);
      SpliceSplice(old(qname[..]), 0, written, [len as byte] + segment);
      if addr + len < |name| {
        SetQNameAdvance(rest, len, written, emitted, fits);
        rest := rest[len + 1..];
      } else {
        SetQNameLast(rest, len, written, emitted, fits);
      }
      written := written + ([len as byte] + segment);
      total := total + 1 + len;
      addr := addr + len + 1;
    }
    PutByte(qname, total, 0);
    SpliceSplice(old(qname[..]), 0, written, [0]);
    status := 1;
  }

  // ---------------------------------------------------------------------
  // Reference definitions for the label form

  /** The segments strsep(&addr, ".") returns one by one, empty ones included. */
  function Segments(s: seq<byte>): (r: seq<seq<byte>>)
    ensures |r| >= 1
    decreases |s|
  {
    var i := DotIndex(s);
    if i == |s| then [s] else [s[..i]] + Segments(s[i + 1..])
  }

  /** The segments with a dot between each two. */
  function Join(segs: seq<seq<byte>>): seq<byte>
  {
    if segs == [] then []
    else if |segs| == 1 then segs[0]
    else segs[0] + [DOT] + Join(segs[1..])
  }

  /** For each segment in order: its length byte, then its bytes. */
  function Labels(segs: seq<seq<byte>>): seq<byte>
    requires forall k :: 0 <= k < |segs| ==> |segs[k]| <= QNAME_LABELMAXLEN
  {
    if segs == [] then [] else [|segs[0]| as byte] + segs[0] + Labels(segs[1..])
  }

  /** Splitting at the dots loses nothing: the segments are dot-free and join back to s. */
  lemma {:induction false} SegmentsJoin(s: seq<byte>)
    ensures Join(Segments(s)) == s
    ensures forall k :: 0 <= k < |Segments(s)| ==> DOT !in Segments(s)[k]
    decreases |s|
  {
    var i := DotIndex(s);
    DotFree(s);
    if i < |s| {
      var rest := Segments(s[i + 1..]);
      SegmentsJoin(s[i + 1..]);
      JoinCons(s[..i], rest);
      DotFreeCons(s[..i], rest);
      assert s == s[..i] + [DOT] + s[i + 1..];
    } else {
      assert s[..i] == s;
    }
  }

  /** A segment joined in front of at least one more. */
  lemma JoinCons(x: seq<byte>, rest: seq<seq<byte>>)
    requires |rest| >= 1
    ensures Join([x] + rest) == x + [DOT] + Join(rest)
  {
    assert ([x] + rest)[1..] == rest;
  }

  /** A dot-free segment in front of dot-free segments. */
  lemma DotFreeCons(x: seq<byte>, rest: seq<seq<byte>>)
    requires DOT !in x && forall k :: 0 <= k < |rest| ==> DOT !in rest[k]
    ensures forall k :: 0 <= k < |[x] + rest| ==> DOT !in ([x] + rest)[k]
  {
    forall k | 1 <= k < |[x] + rest| ensures DOT !in ([x] + rest)[k] {
      assert ([x] + rest)[k] == rest[k - 1];
    }
  }

  /** The first segment of x followed by anything starting with a dot is x. */
  lemma {:induction false} DotIndexOf(x: seq<byte>, rest: seq<byte>)
    requires DOT !in x
    requires rest == [] || rest[0] == DOT
    ensures DotIndex(x + rest) == |x|
    decreases |x|
  {
    if x != [] {
      assert x[0] in x;
      assert DOT !in x[1..] by {
        assert forall b :: b in x[1..] ==> b in x;
      }
      DotIndexOf(x[1..], rest);
      assert (x + rest)[1..] == x[1..] + rest;
    }
  }

  /** Dot-free segments joined by dots split back into the same segments. */
  lemma {:induction false} JoinSegments(segs: seq<seq<byte>>)
    requires |segs| >= 1
    requires forall k :: 0 <= k < |segs| ==> DOT !in segs[k]
    ensures Segments(Join(segs)) == segs
    decreases |segs|
  {
    var s := Join(segs);
    var x := segs[0];
    if |segs| == 1 {
      DotIndexOf(x, []);
      assert x + [] == x;
    } else {
      var rest := Join(segs[1..]);
      assert s == x + ([DOT] + rest);
      DotIndexOf(x, [DOT] + rest);
      assert s[..|x|] == x;
      assert s[|x| + 1..] == rest;
      JoinSegments(segs[1..]);
      assert segs == [x] + segs[1..];
    }
  }

  /** Every segment strsep returns fits in a label exactly when LabelsFit holds. */
  predicate AllSegmentsFit(name: seq<byte>)
  {
    forall k :: 0 <= k < |Segments(name)| ==> |Segments(name)[k]| <= QNAME_LABELMAXLEN
  }

  /** LabelsFit says that every segment strsep returns fits in a label. */
  lemma {:induction false} LabelsFitSegments(name: seq<byte>)
    ensures LabelsFit(name) <==> AllSegmentsFit(name)
    decreases |name|
  {
    var i := DotIndex(name);
    var segs := Segments(name);
    if i == |name| {
      assert segs == [name];
    } else {
      var rest := Segments(name[i + 1..]);
      LabelsFitSegments(name[i + 1..]);
      assert segs == [name[..i]] + rest;
      assert |segs[0]| == i;
      assert forall k :: 1 <= k < |segs| ==> segs[k] == rest[k - 1];
      if AllSegmentsFit(name) {
        forall k | 0 <= k < |rest| ensures |rest[k]| <= QNAME_LABELMAXLEN {
          assert rest[k] == segs[k + 1];
        }
      }
    }
  }

  /**
   * The label form is, for each segment of the name in order, a length
   * byte followed by the segment's bytes, then one zero byte.
   */
  lemma {:induction false} EmittedIsLabels(name: seq<byte>)
    requires LabelsFit(name)
    ensures AllSegmentsFit(name)
    ensures Emitted(name) == Labels(Segments(name))
    ensures LabelForm(name) == Labels(Segments(name)) + [0]
    decreases |name|
  {
    LabelsFitSegments(name);
    var i := DotIndex(name);
    var segs := Segments(name);
    if i < |name| {
      var rest := name[i + 1..];
      EmittedIsLabels(rest);
      assert segs == [name[..i]] + Segments(rest);
      assert segs[1..] == Segments(rest);
    } else {
      assert segs == [name];
      assert name[..i] == name;
    }
  }

  // ---------------------------------------------------------------------
  // Well-formed Wire-Names

  /**
   * A Wire-Name as this codec handles it: labels of 1 to 63 non-zero
   * bytes, each after its length byte, then the zero-length label.
   */
  predicate WireName(w: seq<byte>)
    decreases |w|
  {
    |w| >= 1 &&
    if w[0] == 0 then |w| == 1
    else
      var n := w[0] as int;
      n <= QNAME_LABELMAXLEN && n + 1 < |w| && 0 !in w[1..n + 1] && WireName(w[n + 1..])
  }

  /** A Wire-Name's only zero byte is its terminator. */
  lemma {:induction false} WireNameTerminated(w: seq<byte>)
    requires WireName(w)
    ensures Terminated(w)
    decreases |w|
  {
    if w[0] != 0 {
      var n := w[0] as int;
      var tail := w[n + 1..];
      WireNameTerminated(tail);
      TerminatedIff(tail);
      assert w[..|w| - 1] == [w[0]] + w[1..n + 1] + tail[..|tail| - 1];
      assert w[|w| - 1] == tail[|tail| - 1];
    }
    TerminatedIff(w);
  }

  /** No segment of the name is empty: no leading, trailing or doubled dot, and not "". */
  predicate NoEmptyLabel(name: seq<byte>)
    decreases |name|
  {
    var i := DotIndex(name);
    i > 0 && (i < |name| ==> NoEmptyLabel(name[i + 1..]))
  }

  /** A C string with no empty segment and short labels encodes to a well-formed Wire-Name. */
  lemma {:induction false} LabelFormIsWireName(name: seq<byte>)
    requires 0 !in name && LabelsFit(name) && NoEmptyLabel(name)
    ensures WireName(LabelForm(name))
    decreases |name|
  {
    var i := DotIndex(name);
    var w := LabelForm(name);
    var head := [i as byte] + name[..i];
    if i == |name| {
      assert w == head + [0];
      assert w[i + 1..] == [0];
    } else {
      var rest := name[i + 1..];
      assert w == head + LabelForm(rest);
      assert w[i + 1..] == LabelForm(rest);
      assert forall b :: b in rest ==> b in name;
      LabelFormIsWireName(rest);
    }
    assert w[0] as int == i;
    assert w[1..i + 1] == name[..i];
    assert forall b :: b in name[..i] ==> b in name;
  }

  /** The label form of a name with no zero byte and no empty segment is a terminated name. */
  lemma LabelFormTerminated(name: seq<byte>)
    requires 0 !in name && LabelsFit(name) && NoEmptyLabel(name)
    ensures Terminated(LabelForm(name))
  {
    LabelFormIsWireName(name);
    WireNameTerminated(LabelForm(name));
  }

  // ---------------------------------------------------------------------
  // Building names from labels

  /** A short dot-free label in front of a name that fits keeps it fitting. */
  lemma LabelsFitCons(x: seq<byte>, rest: seq<byte>)
    requires DOT !in x && |x| <= QNAME_LABELMAXLEN
    requires LabelsFit(rest)
    ensures LabelsFit(x + [DOT] + rest)
    ensures Emitted(x + [DOT] + rest) == [|x| as byte] + x + Emitted(rest)
  {
    var s := x + [DOT] + rest;
    assert s == x + ([DOT] + rest);
    DotIndexOf(x, [DOT] + rest);
    assert s[|x| + 1..] == rest;
    assert s[..|x|] == x;
  }

  /** A short dot-free label on its own. */
  lemma LabelsFitOne(x: seq<byte>)
    requires DOT !in x && |x| <= QNAME_LABELMAXLEN
    ensures LabelsFit(x)
    ensures Emitted(x) == [|x| as byte] + x
  {
    DotIndexOf(x, []);
    assert x + [] == x;
    assert x[..|x|] == x;
  }

  const EXAMPLE: seq<byte> := [0x65, 0x78, 0x61, 0x6d, 0x70, 0x6c, 0x65]
  const COM: seq<byte> := [0x63, 0x6f, 0x6d]

  /** "example.com" becomes 07 'example' 03 'com' 00. */
  lemma ExampleComLabelForm()
    ensures LabelsFit(EXAMPLE + [DOT] + COM)
    ensures LabelForm(EXAMPLE + [DOT] + COM) == [7] + EXAMPLE + [3] + COM + [0]
  {
    LabelsFitOne(COM);
    LabelsFitCons(EXAMPLE, COM);
  }

  // ---------------------------------------------------------------------
  // The name-length guard as written in dns.c:238

  /** The bytes dns_setqname as written leaves in qname when it returns 1. */
  function SetQNameAsWritten(name: seq<byte>): Option<seq<byte>>
  {
    if |name| > QNAME_MAXLEN || !LabelsFit(name) then None else Some(LabelForm(name))
  }

  /**
   * The guard as written and the guard of SetQName disagree on 254-byte
   * names only; elsewhere both accept the same names and write the same
   * label form.
   */
  lemma GuardsDifferOnlyAtMaximum(name: seq<byte>)
    requires |name| != QNAME_MAXLEN
    ensures SetQNameAsWritten(name).Some? <==> NameFits(name) && LabelsFit(name)
    ensures SetQNameAsWritten(name).Some? ==> SetQNameAsWritten(name).value == LabelForm(name)
  {
  }

  /** n letters 'a'. */
  function Letters(n: nat): (r: seq<byte>)
    ensures |r| == n && forall k :: 0 <= k < n ==> r[k] == 0x61
  {
    seq(n, _ => 0x61)
  }

  /** Four labels of 63, 63, 63 and 62 letters 'a': a 254-byte dotted name. */
  function LongName(): seq<byte>
  {
    var a63 := Letters(63);
    a63 + [DOT] + (a63 + [DOT] + (a63 + [DOT] + Letters(62)))
  }

  /**
   * Finding: the as-written guard accepts LongName, whose label form is
   * 256 bytes, one more than the QNAME_BUFLEN-byte qname buffer, while
   * the guard of SetQName rejects it.
   */
  lemma LongNameOverflowsAsWritten()
    ensures |LongName()| == QNAME_MAXLEN && 0 !in LongName()
    ensures SetQNameAsWritten(LongName()).Some?
    ensures |SetQNameAsWritten(LongName()).value| == QNAME_BUFLEN + 1
    ensures !NameFits(LongName())
  {
    LongNameFits();
    assert SetQNameAsWritten(LongName()) == Some(LabelForm(LongName()));
  }

  /** LongName is 254 bytes without a zero byte, and all four of its labels fit. */
  lemma LongNameFits()
    ensures |LongName()| == QNAME_MAXLEN && 0 !in LongName() && LabelsFit(LongName())
  {
    var a63, a62 := Letters(63), Letters(62);
    LettersLabel(63);
    LettersLabel(62);
    LabelsFitOne(a62);
    var n2 := JoinFits(a63, a62);
    var n1 := JoinFits(a63, n2);
    var n0 := JoinFits(a63, n1);
  }

  /** Letters make a label: no dot and no zero byte. */
  lemma LettersLabel(n: nat)
    ensures DOT !in Letters(n) && 0 !in Letters(n)
  {
  }

  /** A short label without a zero byte in front of a zero-free name that fits. */
  lemma JoinFits(x: seq<byte>, rest: seq<byte>) returns (r: seq<byte>)
    requires DOT !in x && 0 !in x && |x| <= QNAME_LABELMAXLEN
    requires 0 !in rest && LabelsFit(rest)
    ensures r == x + [DOT] + rest
    ensures 0 !in r && LabelsFit(r)
  {
    r := x + [DOT] + rest;
    LabelsFitCons(x, rest);
  }


}
