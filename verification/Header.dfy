/**
  The identity header in front of gRPC frames:
  `[length: 4] [version: 1] [svid length: 2] [svid] [role length: 1] [role]`.
 */
module Header {
  import opened Bytes
  import opened Utf8

  datatype Header = Header(svid: Str, role: Option<Str>)

  /** The lengths are cast to their fields, which keep only the low bits. */
  function Payload(h: Header): Str {
    [1] + BeU16(|h.svid| % U16_LIMIT) + (h.svid + ([|OrEmpty(h.role)| % 256] + OrEmpty(h.role)))
  }

  function Frame(h: Header): Str {
    BeU32((4 + |h.svid| + |OrEmpty(h.role)|) % U32_LIMIT) + Payload(h)
  }

  /** `write_header` */
  method WriteHeader(svid: Str, role: Option<Str>) returns (buf: Str)
    ensures buf == Frame(Header(svid, role))
  {
    var roleBytes := if role.Some? then role.value else [];
    var headerLen := 1 + 2 + |svid| + 1 + |roleBytes|;
    buf := BeU32(headerLen % U32_LIMIT);
    buf := buf + [1];
    buf := buf + BeU16(|svid| % U16_LIMIT);
    buf := buf + svid;
    buf := buf + [|roleBytes| % 256];
    buf := buf + roleBytes;
  }

  /** `Panics` is reading beyond the end of the buffer. */
  datatype Outcome = Got(header: Header) | Nothing | Panics

  datatype Read = Read(outcome: Outcome, rest: Str)

  function ReadRole(svid: Str, buf: Str): Read {
    if buf == [] then Read(Panics, buf) else
    var n, rest := buf[0], buf[1..];
    if n == 0 then Read(Got(Header(svid, None)), rest)
    else if n > |rest| then Read(Panics, rest)
    else if !ValidUtf8(rest[..n]) then Read(Nothing, rest)
    else Read(Got(Header(svid, Some(rest[..n]))), rest[n..])
  }

  function ReadPayload(buf: Str): Read {
    if |buf| < 3 then Read(Panics, buf) else
    var n, rest := BeValue(buf[1..3]), buf[3..];
    if n > |rest| then Read(Panics, rest)
    else if !ValidUtf8(rest[..n]) then Read(Nothing, rest)
    else ReadRole(rest[..n], rest[n..])
  }

  /** What a read returns, and what is left in the buffer. */
  function ReadFrame(buf: Str): Read {
    if |buf| < 4 || |buf| < 4 + BeValue(buf[..4]) then Read(Nothing, buf)
    else ReadPayload(buf[4..])
  }

  /** `&mut &[u8]`: what is left of the input. */
  class Cursor {
    var buf: Str

    constructor (buf: Str)
      ensures this.buf == buf
    {
      this.buf := buf;
    }

    /** `read_header` */
    method ReadHeader() returns (r: Outcome)
      modifies this
      ensures r == ReadFrame(old(buf)).outcome
      ensures r != Panics ==> buf == ReadFrame(old(buf)).rest
    {
      if |buf| < 4 { return Nothing; }
      var len := BeValue(buf[..4]);
      if |buf| < 4 + len { return Nothing; }
      buf := buf[4..];
      if |buf| < 1 { return Panics; }
      buf := buf[1..];  // version
      if |buf| < 2 { return Panics; }
      var svidLen := BeValue(buf[..2]);
      assert buf[..2] == old(buf)[4..][1..3];
      buf := buf[2..];
      assert buf == old(buf)[4..][3..];
      if svidLen > |buf| { return Panics; }
      var svid := buf[..svidLen];
      if !ValidUtf8(svid) { return Nothing; }
      buf := buf[svidLen..];
      if |buf| < 1 { return Panics; }
      var roleLen := buf[0];
      buf := buf[1..];
      if roleLen == 0 { return Got(Header(svid, None)); }
      if roleLen > |buf| { return Panics; }
      var role := buf[..roleLen];
      if !ValidUtf8(role) { return Nothing; }
      buf := buf[roleLen..];
      r := Got(Header(svid, Some(role)));
    }
  }

  // ----- One frame -----

  /** The header holds `str`s. */
  predicate IsText(h: Header) {
    ValidUtf8(h.svid) && ValidUtf8(OrEmpty(h.role))
  }

  /** Both lengths fit their fields. */
  predicate Fits(h: Header) {
    |h.svid| < U16_LIMIT && |OrEmpty(h.role)| < 256
  }

  /** An empty role is read as an absent one. */
  function Normal(h: Header): Header {
    if OrEmpty(h.role) == [] then h.(role := None) else h
  }

  lemma ReadRoleBack(svid: Str, role: Str, rest: Str)
    requires ValidUtf8(role) && |role| < 256
    ensures ReadRole(svid, [|role|] + role + rest) ==
            Read(Got(Header(svid, if role == [] then None else Some(role))), rest)
  {
    TakePrefix([|role|], role + rest);
    TakePrefix(role, rest);
    Appended([|role|], role, rest);
  }

  lemma TakePrefix(a: Str, b: Str)
    ensures (a + b)[..|a|] == a && (a + b)[|a|..] == b
  {
  }

  /** Where the fields of a payload are. */
  lemma PayloadFields(version: Byte, len: Str, svid: Str, n: Byte, role: Str, rest: Str)
    requires |len| == 2
    ensures var buf := [version] + len + (svid + ([n] + role)) + rest;
            && buf[1..3] == len
            && buf[3..] == svid + ([n] + role + rest)
            && buf[3 + |svid|] == n
  {
    var buf := [version] + len + (svid + ([n] + role)) + rest;
    assert buf[3..] == svid + ([n] + role + rest);
    assert buf[3..][|svid|] == n;
  }

  lemma ReadSvid(buf: Str, len: Str, svid: Str, tail: Str)
    requires |buf| >= 3 && buf[1..3] == len && BeValue(len) == |svid| && ValidUtf8(svid)
    requires buf[3..] == svid + tail
    ensures ReadPayload(buf) == ReadRole(svid, tail)
  {
    TakePrefix(svid, tail);
  }

  lemma ReadPayloadBack(h: Header, rest: Str)
    requires IsText(h) && Fits(h)
    ensures ReadPayload(Payload(h) + rest) == Read(Got(Normal(h)), rest)
  {
    PayloadIs(h);
    WrittenReadsBack(h, Payload(h), rest);
  }

  lemma WrittenReadsBack(h: Header, payload: Str, rest: Str)
    requires IsText(h) && Fits(h)
    requires payload == [1] + BeU16(|h.svid|) + (h.svid + ([|OrEmpty(h.role)|] + OrEmpty(h.role)))
    ensures ReadPayload(payload + rest) == Read(Got(Normal(h)), rest)
  {
    BeU16Value(|h.svid|);
    NormalIs(h);
    ReadFieldsBack(BeU16(|h.svid|), h.svid, OrEmpty(h.role), rest);
  }

  lemma NormalIs(h: Header)
    ensures Normal(h) == Header(h.svid, if OrEmpty(h.role) == [] then None else Some(OrEmpty(h.role)))
  {
  }

  lemma ReadFieldsBack(len: Str, svid: Str, role: Str, rest: Str)
    requires |len| == 2 && BeValue(len) == |svid| && |role| < 256 && ValidUtf8(svid) && ValidUtf8(role)
    ensures ReadPayload([1] + len + (svid + ([|role|] + role)) + rest) ==
            Read(Got(Header(svid, if role == [] then None else Some(role))), rest)
  {
    PayloadFields(1, len, svid, |role|, role, rest);
    ReadSvid([1] + len + (svid + ([|role|] + role)) + rest, len, svid, [|role|] + role + rest);
    ReadRoleBack(svid, role, rest);
  }

  /** When both lengths fit, the fields hold them as they are. */
  lemma PayloadIs(h: Header)
    requires Fits(h)
    ensures Payload(h) == [1] + BeU16(|h.svid|) + (h.svid + ([|OrEmpty(h.role)|] + OrEmpty(h.role)))
  {
  }

  /** The lengths of what is read are those that the length fields say. */
  lemma LengthsAsRead(buf: Str)
    requires ReadPayload(buf).outcome.Got?
    ensures var got := ReadPayload(buf).outcome.header;
            var n := BeValue(buf[1..3]);
            |got.svid| == n && 3 + n < |buf| && |OrEmpty(got.role)| == buf[3 + n]
  {
  }

  lemma PayloadIsShort(h: Header, rest: Str)
    requires ReadPayload(Payload(h) + rest).outcome.Got? && !Fits(h)
    ensures ReadPayload(Payload(h) + rest).outcome.header != Normal(h)
  {
    var role := OrEmpty(h.role);
    LengthsAsRead(Payload(h) + rest);
    BeU16Value(|h.svid| % U16_LIMIT);
    PayloadFields(1, BeU16(|h.svid| % U16_LIMIT), h.svid, |role| % 256, role, rest);
  }

  /** Behind the length, a frame is its payload. */
  lemma FrameFields(h: Header, rest: Str)
    ensures var buf := Frame(h) + rest;
            && buf[4..] == Payload(h) + rest
            && BeValue(buf[..4]) == (4 + |h.svid| + |OrEmpty(h.role)|) % U32_LIMIT
  {
    LengthInFront((4 + |h.svid| + |OrEmpty(h.role)|) % U32_LIMIT, Payload(h), rest);
  }

  lemma LengthInFront(len: U32, payload: Str, rest: Str)
    ensures var buf := BeU32(len) + payload + rest;
            buf[4..] == payload + rest && BeValue(buf[..4]) == len
  {
    BeU32Value(len);
    Appended(BeU32(len), payload, rest);
    TakePrefix(BeU32(len), payload + rest);
  }

  lemma FrameLength(h: Header)
    requires Fits(h)
    ensures (4 + |h.svid| + |OrEmpty(h.role)|) % U32_LIMIT == 4 + |h.svid| + |OrEmpty(h.role)|
    ensures |Frame(h)| == 8 + |h.svid| + |OrEmpty(h.role)|
  {
  }

  /** A frame is read back, and exactly it is consumed, if and only if both lengths fit. */
  lemma FrameReadsBack(h: Header, rest: Str)
    requires IsText(h)
    ensures ReadFrame(Frame(h) + rest) == Read(Got(Normal(h)), rest) <==> Fits(h)
  {
    FrameFields(h, rest);
    if Fits(h) {
      FrameLength(h);
      ReadPayloadBack(h, rest);
    } else if ReadFrame(Frame(h) + rest).outcome.Got? {
      PayloadIsShort(h, rest);
    }
  }

  /** A frame cut short anywhere is not read, and the cursor does not move. */
  lemma PrefixIsNotRead(h: Header, n: nat)
    requires Fits(h) && n < |Frame(h)|
    ensures ReadFrame(Frame(h)[..n]) == Read(Nothing, Frame(h)[..n])
  {
    FrameFields(h, []);
    FrameLength(h);
    assert Frame(h) + [] == Frame(h);
    if n >= 4 {
      assert Frame(h)[..n][..4] == Frame(h)[..4];
    }
  }

  // ----- When reading panics -----

  /** The buffer holds as many bytes as the frame announces, which is all that is tested. */
  predicate Complete(buf: Str) {
    |buf| >= 4 && |buf| >= 4 + BeValue(buf[..4])
  }

  /** The inner lengths reach beyond the buffer: for the fixed fields, the SVID, or the role. */
  predicate Overruns(buf: Str) {
    || |buf| < 7
    || var n := BeValue(buf[5..7]);
       || |buf| < 7 + n
       || (ValidUtf8(buf[7..7 + n]) && (|buf| == 7 + n || |buf| < 8 + n + buf[7 + n]))
  }

  /** A read panics exactly on a complete frame whose inner lengths overrun the buffer. */
  lemma PanicsExactly(buf: Str)
    ensures ReadFrame(buf).outcome == Panics <==> Complete(buf) && Overruns(buf)
  {
    if |buf| >= 7 {
      var n := BeValue(buf[5..7]);
      assert buf[4..][1..3] == buf[5..7];
      assert buf[4..][3..] == buf[7..];
      if |buf| >= 7 + n {
        assert buf[7..][..n] == buf[7..7 + n];
        assert buf[7..][n..] == buf[7 + n..];
      }
    }
  }

  /** A frame that announces no bytes is complete, and panics unless other bytes follow it. */
  lemma EmptyFramePanics(rest: Str)
    requires |rest| < 3
    ensures ReadFrame([0, 0, 0, 0] + rest).outcome == Panics
  {
    var buf := [0, 0, 0, 0] + rest;
    BeU32Value(0);
    assert buf[..4] == BeU32(0);
    PanicsExactly(buf);
  }

  /** A read that returns nothing leaves the cursor where it was if and only if the frame is incomplete. */
  lemma UnmovedExactly(buf: Str)
    requires ReadFrame(buf).outcome == Nothing
    ensures ReadFrame(buf).rest == buf <==> !Complete(buf)
  {
    if Complete(buf) {
      assert |ReadFrame(buf).rest| < |buf|;
    }
  }

  /** What a successful read leaves: everything behind the fields it read. */
  lemma ConsumesFields(buf: Str)
    requires ReadFrame(buf).outcome.Got?
    ensures var got := ReadFrame(buf).outcome.header;
            var end := 8 + |got.svid| + |OrEmpty(got.role)|;
            end <= |buf| && ReadFrame(buf).rest == buf[end..]
  {
    var n := BeValue(buf[4..][1..3]);
    assert buf[4..][3..] == buf[7..];
    assert buf[7..][n..] == buf[7 + n..];
    ConsumesRole(buf[7..][..n], buf, 7 + n);
  }

  lemma ConsumesRole(svid: Str, buf: Str, start: nat)
    requires start <= |buf| && ReadRole(svid, buf[start..]).outcome.Got?
    ensures var r := ReadRole(svid, buf[start..]);
            var end := start + 1 + |OrEmpty(r.outcome.header.role)|;
            r.outcome.header.svid == svid && end <= |buf| && r.rest == buf[end..]
  {
    assert buf[start..][1..] == buf[start + 1..];
    var n := buf[start];
    if start + 1 + n <= |buf| {
      assert buf[start + 1..][n..] == buf[start + 1 + n..];
    }
  }

  /** A read takes exactly the announced bytes if and only if the announced length is that of its fields. */
  lemma ConsumesExactly(buf: Str)
    requires ReadFrame(buf).outcome.Got?
    ensures var got := ReadFrame(buf).outcome.header;
            var announced := BeValue(buf[..4]);
            ReadFrame(buf).rest == buf[4 + announced..] <==> announced == 4 + |got.svid| + |OrEmpty(got.role)|
  {
    ConsumesFields(buf);
  }

  // ----- Streams -----

  function Stream(hs: seq<Header>): Str {
    if hs == [] then [] else Frame(hs[0]) + Stream(hs[1..])
  }

  function Normals(hs: seq<Header>): seq<Header> {
    if hs == [] then [] else [Normal(hs[0])] + Normals(hs[1..])
  }

  /** Reads `n` headers, as long as reading succeeds. */
  function ReadMany(buf: Str, n: nat): (seq<Header>, Str)
    decreases n
  {
    if n == 0 then ([], buf) else
    var r := ReadFrame(buf);
    if !r.outcome.Got? then ([], r.rest) else
    var (hs, rest) := ReadMany(r.rest, n - 1);
    ([r.outcome.header] + hs, rest)
  }

  lemma ReadManyFirst(h: Header, rest: Str, n: nat)
    requires IsText(h) && Fits(h)
    ensures ReadMany(Frame(h) + rest, n + 1) == ([Normal(h)] + ReadMany(rest, n).0, ReadMany(rest, n).1)
  {
    FrameReadsBack(h, rest);
  }

  /**
    A stream of frames is read back in order, each read taking exactly its own frame. If a
    frame is cut short at the end, all before it are read and the rest is left for later.
   */
  lemma {:induction false} StreamReadsBack(hs: seq<Header>, last: Header, n: nat, again: bool)
    requires forall h | h in hs :: IsText(h) && Fits(h)
    requires Fits(last) && n < |Frame(last)|
    ensures ReadMany(Stream(hs) + Frame(last)[..n], |hs| + (if again then 1 else 0)) ==
            (Normals(hs), Frame(last)[..n])
  {
    var tail := Frame(last)[..n];
    if hs == [] {
      assert Stream(hs) + tail == tail;
      PrefixIsNotRead(last, n);
    } else {
      assert hs[0] in hs;
      StreamReadsBack(hs[1..], last, n, again);
      Appended(Frame(hs[0]), Stream(hs[1..]), tail);
      ReadManyFirst(hs[0], Stream(hs[1..]) + tail, |hs[1..]| + (if again then 1 else 0));
    }
  }

  // ----- Exactly what is read -----

  /** A frame by its fields; the announced length may be less than what the fields take. */
  predicate IsFrame(buf: Str, len: Str, version: Byte, h: Header, rest: Str) {
    && |len| == 4 && |h.svid| < 0x1_0000 && |OrEmpty(h.role)| < 256
    && buf == len + ([version, |h.svid| / 256, |h.svid| % 256] + (h.svid + ([|OrEmpty(h.role)|] + (OrEmpty(h.role) + rest))))
    && BeValue(len) + 4 <= |buf|
  }

  lemma FieldsAreRead(buf: Str, len: Str, version: Byte, h: Header, rest: Str)
    requires IsFrame(buf, len, version, h, rest) && IsText(h)
    ensures ReadFrame(buf) == Read(Got(Normal(h)), rest)
  {
    var role := OrEmpty(h.role);
    var tail := [|role|] + (role + rest);
    var payload := [version, |h.svid| / 256, |h.svid| % 256] + (h.svid + tail);
    BehindLength(buf, len, payload);
    SvidIsRead(version, h.svid, tail);
    RoleIsRead(h.svid, role, rest);
    NormalIs(h);
  }

  lemma RoleIsRead(svid: Str, role: Str, rest: Str)
    requires ValidUtf8(role) && |role| < 256
    ensures ReadRole(svid, [|role|] + (role + rest)) ==
            Read(Got(Header(svid, if role == [] then None else Some(role))), rest)
  {
    ReadRoleBack(svid, role, rest);
    Appended([|role|], role, rest);
  }

  lemma BehindLength(buf: Str, len: Str, payload: Str)
    requires buf == len + payload && |len| == 4 && BeValue(len) + 4 <= |buf|
    ensures ReadFrame(buf) == ReadPayload(payload)
  {
    TakePrefix(len, payload);
  }

  lemma SvidIsRead(version: Byte, svid: Str, tail: Str)
    requires |svid| < 0x1_0000 && ValidUtf8(svid)
    ensures ReadPayload([version, |svid| / 256, |svid| % 256] + (svid + tail)) == ReadRole(svid, tail)
  {
    var front := [version, |svid| / 256, |svid| % 256];
    var payload := front + (svid + tail);
    TakePrefix(front, svid + tail);
    assert payload[1..3] == [|svid| / 256, |svid| % 256];
    BigEndian16(|svid|);
    BeU16Value(|svid|);
    ReadSvid(payload, BeU16(|svid|), svid, tail);
  }

  /** Whatever is read was there: its fields are text, and the rest follows them. */
  lemma ReadWasThere(buf: Str)
    requires ReadFrame(buf).outcome.Got?
    ensures var r := ReadFrame(buf);
            IsText(r.outcome.header) && Normal(r.outcome.header) == r.outcome.header
            && |buf| >= 8 && IsFrame(buf, buf[..4], buf[4], r.outcome.header, r.rest)
  {
    var p, h, rest := buf[4..], ReadFrame(buf).outcome.header, ReadFrame(buf).rest;
    PayloadWasThere(p);
    BigEndian16(|h.svid|);
    BeU16Value(|h.svid|);
    BeValueInjective(p[1..3], BeU16(|h.svid|));
    assert p == [buf[4]] + p[1..3] + p[3..];
    assert [buf[4]] + p[1..3] == [buf[4], |h.svid| / 256, |h.svid| % 256];
    assert buf == buf[..4] + p;
  }

  lemma RoleWasThere(svid: Str, b: Str)
    requires ReadRole(svid, b).outcome.Got?
    ensures var r := ReadRole(svid, b);
            var role := OrEmpty(r.outcome.header.role);
            && r.outcome.header.svid == svid && |role| < 256 && ValidUtf8(role)
            && (r.outcome.header.role.Some? ==> role != []) && b == [|role|] + (role + r.rest)
  {
  }

  lemma PayloadWasThere(p: Str)
    requires ReadPayload(p).outcome.Got?
    ensures var r := ReadPayload(p);
            var h := r.outcome.header;
            && |p| >= 4 && BeValue(p[1..3]) == |h.svid| && |h.svid| < 0x1_0000 && |OrEmpty(h.role)| < 256
            && IsText(h) && Normal(h) == h
            && p[3..] == h.svid + ([|OrEmpty(h.role)|] + (OrEmpty(h.role) + r.rest))
  {
    var n, rest := BeValue(p[1..3]), p[3..];
    BeValueBound(p[1..3]);
    PowLimits();
    RoleWasThere(rest[..n], rest[n..]);
    assert rest == rest[..n] + rest[n..];
  }

  /** A written frame: length, version 1, and each field behind its own length, all cut to their width. */
  lemma FrameSpelled(h: Header)
    ensures var n, r := |h.svid|, |OrEmpty(h.role)|;
            Frame(h) ==
            BeU32((4 + n + r) % 0x1_0000_0000)
            + ([1, n / 256 % 256, n % 256] + (h.svid + ([r % 256] + OrEmpty(h.role))))
  {
    var n := |h.svid|;
    BigEndian16(n % U16_LIMIT);
    LowBytes(n);
    assert [1] + [n / 256 % 256, n % 256] == [1, n / 256 % 256, n % 256];
  }

  lemma LowBytes(n: nat)
    ensures n % 0x1_0000 / 256 == n / 256 % 256 && n % 0x1_0000 % 256 == n % 256
  {
  }
}
