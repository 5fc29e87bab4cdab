/**
 Length-prefixed frames on a byte stream: a 2-byte big-endian length, the payload, its checksum.
 Reads may return any non-empty part of what was asked for, and may be interrupted.
 */
module Framing {
  import opened Crc
  import opened ByteNumbers

  const HEADSIZE: nat := 2
  /** The send buffer of write_sock_func. */
  const SEND_BUF_SIZE: nat := 4096
  /** How often recv_peek tries. */
  const PEEK_TRIES: nat := 10

  // ----- The header -----

  function Header(n: nat): Bytes
    requires n < 0x1_0000
  {
    [ByteOf(n / 256), ByteOf(n % 256)]
  }

  function HeaderValue(h: Bytes): nat
    requires |h| >= 2
  {
    256 * (h[0] as nat) + h[1] as nat
  }

  lemma HeaderInverse(n: nat)
    requires n < 0x1_0000
    ensures HeaderValue(Header(n)) == n
  {
    hide ByteOf;
  }

  /** n is the number that two bytes write, the higher one first. */
  predicate BigEndian(high: bv8, low: bv8, n: nat) {
    n == (high as nat) * 256 + low as nat
  }

  /** convert_hex_to_int: the big-endian value of the header bytes. */
  method ConvertHexToInt(h: Bytes) returns (value: nat)
    requires |h| == HEADSIZE
    ensures BigEndian(h[0], h[1], value) && value == HeaderValue(h)
  {
    value := 0;
    var i := 0;
    while i < HEADSIZE
      invariant 0 <= i <= HEADSIZE
      invariant i == 0 ==> value == 0
      invariant i == 1 ==> value == h[0] as nat
      invariant i == 2 ==> value == 256 * (h[0] as nat) + h[1] as nat
    {
      value := value * 256 + h[i] as nat;
      i := i + 1;
    }
  }

  /** convert_int_to_hex: writes the header unless the value needs more than two bytes. */
  method ConvertIntToHex(value: nat, buf: array<bv8>) returns (ok: bool)
    requires buf.Length >= HEADSIZE
    modifies buf
    ensures ok <==> value < 0x1_0000
    ensures ok ==> BigEndian(buf[0], buf[1], value)
    ensures ok ==> buf[..2] == Header(value) && buf[2..] == old(buf[2..])
    ensures !ok ==> buf[..] == old(buf[..])
  {
    if value > 0xffff {
      return false;
    }
    HeaderBytes(value);
    HeaderInverse(value);
    hide ByteOf, Header;
    buf[0], buf[1] := 0, 0;
    if value <= 0xff {
      buf[1] := ByteOf(value);
    } else {
      buf[0] := ByteOf(value / 256);
      buf[1] := ByteOf(value % 256);
    }
    ok := true;
  }

  lemma HeaderBytes(n: nat)
    requires n < 0x1_0000
    ensures Header(n) == if n <= 0xff then [0, ByteOf(n)] else [ByteOf(n / 256), ByteOf(n % 256)]
  {
    ByteOfZero();
    hide ByteOf;
  }

  lemma ByteOfZero()
    ensures ByteOf(0) == 0
  {
  }

  // ----- Frames -----

  /** The payload fits a frame: its length with the checksum fits the header. */
  predicate Framable(p: Bytes) {
    |p| + 1 < 0x1_0000
  }

  function Frame(p: Bytes): (f: Bytes)
    requires Framable(p)
    ensures |f| == HEADSIZE + |p| + 1
  {
    Header(|p| + 1) + Checked(p)
  }

  /** The frames of several payloads, one after the other. */
  function Wire(ps: seq<Bytes>): Bytes
    requires forall p | p in ps :: Framable(p)
  {
    if ps == [] then [] else Frame(ps[0]) + Wire(ps[1..])
  }

  // ----- Sending -----

  /** What write_sock_func does with a payload: send a frame, send nothing, or write up to end, past its buffer. */
  datatype Sending = Sent(bytes: Bytes) | Refused | Overrun(end: nat)

  /** The positions of the send buffer that are written: the header, the payload and the checksum. */
  ghost predicate Writes(payload: Bytes, i: int) {
    |payload| <= SEND_BUF_SIZE
      && (0 <= i < HEADSIZE || HEADSIZE <= i < HEADSIZE + |payload| || i == HEADSIZE + |payload|)
  }

  /** Its size check counts the payload alone. */
  function SendResult(payload: Bytes): Sending {
    if |payload| > SEND_BUF_SIZE then Refused
    else if HEADSIZE + |payload| + 1 > SEND_BUF_SIZE then Overrun(HEADSIZE + |payload| + 1)
    else Sent(Frame(payload))
  }

  /** The framing steps of write_sock_func, with its one buffer. */
  method SendFrame(payload: Bytes) returns (r: Sending)
    ensures r == SendResult(payload)
    ensures r.Sent? ==> IsFrameOf(r.bytes, payload)
  {
    var buf := new bv8[SEND_BUF_SIZE](_ => 0);
    if |payload| > buf.Length {
      return Refused;
    }
    if HEADSIZE + |payload| + 1 > buf.Length {
      return Overrun(HEADSIZE + |payload| + 1);
    }
    hide Frame, IsFrameOf;
    var len := FillFrame(payload, buf);
    FrameBytes(payload);
    r := Sent(buf[..len]);
  }

  /** The frame, in a buffer that has room for it. */
  method FillFrame(payload: Bytes, buf: array<bv8>) returns (len: nat)
    requires Framable(payload) && HEADSIZE + |payload| + 1 <= buf.Length
    modifies buf
    ensures len <= buf.Length && buf[..len] == Frame(payload)
  {
    hide Header, HeaderValue, Checked, BigEndian, Crc.Crc;
    len := CrcData(payload, buf, HEADSIZE);
    ghost var body := buf[HEADSIZE..];
    assert body[..len] == Checked(payload);
    var ok := ConvertIntToHex(len, buf);
    assert buf[..HEADSIZE + len] == buf[..HEADSIZE] + buf[HEADSIZE..][..len];
    len := len + HEADSIZE;
  }

  /** What goes over the wire: the length of payload and checksum in two bytes, the payload, its checksum. */
  ghost predicate IsFrameOf(f: Bytes, payload: Bytes) {
    && |f| == 2 + |payload| + 1
    && BigEndian(f[0], f[1], |payload| + 1)
    && f[2..2 + |payload|] == payload
    && f[2 + |payload|] == Crc.Crc(payload)
  }

  lemma FrameBytes(payload: Bytes)
    requires Framable(payload)
    ensures IsFrameOf(Frame(payload), payload)
  {
    HeaderBigEndian(|payload| + 1);
    FrameSlices(payload);
    CheckedParts(payload);
    hide BigEndian, Header, Checked, Frame, Crc.Crc;
    var f := Frame(payload);
    assert f[0] == f[..HEADSIZE][0] && f[1] == f[..HEADSIZE][1];
    assert f[2 + |payload|] == f[HEADSIZE..][|payload|];
  }

  lemma HeaderBigEndian(n: nat)
    requires n < 0x1_0000
    ensures |Header(n)| == 2 && BigEndian(Header(n)[0], Header(n)[1], n)
  {
    hide ByteOf;
  }

  /** Every write stays inside the buffer exactly for payloads over its whole size, which are refused, and up to 4093
      bytes. */
  lemma SendInBounds(payload: Bytes)
    ensures (forall i :: Writes(payload, i) ==> 0 <= i < SEND_BUF_SIZE) <==> |payload| > 4096 || |payload| <= 4093
    ensures SendResult(payload).Overrun? <==> exists i :: Writes(payload, i) && i >= SEND_BUF_SIZE
  {
    if |payload| <= SEND_BUF_SIZE {
      assert Writes(payload, HEADSIZE + |payload|);
    }
  }

  /** A payload of 4094 bytes passes the check and is written one byte too far. */
  lemma SendOverruns()
    ensures var payload: Bytes := seq(4094, _ => 0);
      SendResult(payload) == Overrun(4097) && Writes(payload, 4096)
  {
    var payload: Bytes := seq(4094, _ => 0);
    assert |payload| == 4094;
  }

  // ----- The socket -----

  /** What a call of read meets: a delivery of at most limit + 1 bytes, EINTR, EAGAIN, or another error. */
  datatype Event = Deliver(limit: nat) | Interrupted | WouldBlock | Broken

  datatype Errno = NoError | EINTR | EAGAIN | OTHER

  /**
   A stream of bytes, and the events that the next calls of recv and of read will meet; after those, every
   call is served in full. Any run of mixed calls has its events split in this way.
   */
  class Socket {
    var incoming: Bytes
    var peekEvents: seq<Event>
    var readEvents: seq<Event>

    constructor (incoming: Bytes, peekEvents: seq<Event>, readEvents: seq<Event>)
      ensures this.incoming == incoming && this.peekEvents == peekEvents && this.readEvents == readEvents
    {
      this.incoming, this.peekEvents, this.readEvents := incoming, peekEvents, readEvents;
    }

    /** read(2). */
    method Read(n: nat) returns (r: int, data: Bytes, errno: Errno)
      requires n > 0
      modifies this`incoming, this`readEvents
      ensures |data| <= |old(incoming)| && incoming == old(incoming)[|data|..] && data == old(incoming)[..|data|]
      ensures readEvents == if old(readEvents) == [] then [] else old(readEvents)[1..]
      ensures errno == NoError ==> r == |data| <= n && (r == 0 <==> old(incoming) == [])
      ensures errno != NoError ==> r == -1 && data == [] && old(readEvents) != []
      ensures errno == EINTR <==> old(readEvents) != [] && old(readEvents)[0] == Interrupted
      ensures errno == EAGAIN <==> old(readEvents) != [] && old(readEvents)[0] == WouldBlock
      ensures errno == OTHER <==> old(readEvents) != [] && old(readEvents)[0] == Broken
    {
      var most := n;
      r, data, errno := -1, [], NoError;
      if readEvents != [] {
        match readEvents[0] {
          case Deliver(limit) => most := if limit + 1 < n then limit + 1 else n;
          case Interrupted => errno := EINTR;
          case WouldBlock => errno := EAGAIN;
          case Broken => errno := OTHER;
        }
        readEvents := readEvents[1..];
      }
      if errno == NoError {
        r := if most < |incoming| then most else |incoming|;
        data := incoming[..r];
        incoming := incoming[r..];
      }
    }

    /** recv(2) with MSG_PEEK, which leaves the stream as it is. */
    method Peek(n: nat) returns (r: int, data: Bytes, errno: Errno)
      modifies this`peekEvents
      ensures peekEvents == if old(peekEvents) == [] then [] else old(peekEvents)[1..]
      ensures errno == NoError ==> r == (if n < |incoming| then n else |incoming|) && data == incoming[..r]
      ensures errno == NoError <==> old(peekEvents) == [] || old(peekEvents)[0].Deliver?
      ensures errno != NoError ==> r == -1
      ensures errno == EINTR <==> old(peekEvents) != [] && old(peekEvents)[0] == Interrupted
    {
      r, data, errno := -1, [], NoError;
      if peekEvents != [] {
        errno :=
          match peekEvents[0]
          case Deliver(_) => NoError
          case Interrupted => EINTR
          case WouldBlock => EAGAIN
          case Broken => OTHER;
        peekEvents := peekEvents[1..];
      }
      if errno == NoError {
        r := if n < |incoming| then n else |incoming|;
        data := incoming[..r];
      }
    }
  }

  /** readn: the bytes read so far are at the front of buf. The ghost results are their number, and how many
      events were met. */
  method ReadN(sock: Socket, buf: array<bv8>, count: nat) returns (ret: int, ghost got: nat, ghost k: nat)
    requires count <= buf.Length
    modifies sock`incoming, sock`readEvents, buf
    ensures ReadOutcome(old(sock.incoming), sock.incoming, buf[..], count, got)
    ensures k <= |old(sock.readEvents)| && sock.readEvents == old(sock.readEvents)[k..]
    ensures ret == got || (ret == -1 && Broken in old(sock.readEvents))
    ensures got < count && WouldBlock !in old(sock.readEvents) && ret != -1 ==> sock.incoming == []
  {
    var nLeft := count;
    var pos := 0;
    k, got := 0, 0;
    while nLeft > 0
      invariant pos + nLeft == count && k <= |old(sock.readEvents)| && got == pos
      invariant ReadOutcome(old(sock.incoming), sock.incoming, buf[..], count, pos)
      invariant sock.readEvents == old(sock.readEvents)[k..]
      decreases |old(sock.readEvents)| - k, nLeft
    {
      var nRead, data, errno := sock.Read(nLeft);
      ghost var met := old(sock.readEvents)[k..];
      if k < |old(sock.readEvents)| {
        assert met[0] == old(sock.readEvents)[k] && met[1..] == old(sock.readEvents)[k + 1..];
        k := k + 1;
      }
      if nRead < 0 {
        if errno == EINTR {
          continue;
        } else if errno != EAGAIN {
          ret := -1;
          return;
        } else {
          ret := pos;
          return;
        }
      }
      if nRead == 0 {
        ret := count - nLeft;
        return;
      }
      forall i | 0 <= i < nRead {
        buf[pos + i] := data[i];
      }
      nLeft := nLeft - nRead;
      pos := pos + nRead;
      got := pos;
    }
    ret := count;
  }

  /** got bytes went from the front of the stream to the front of the buffer. */
  ghost predicate ReadOutcome(before: Bytes, after: Bytes, buf: Bytes, count: nat, got: nat) {
    got <= count <= |buf| && got <= |before| && after == before[got..] && buf[..got] == before[..got]
  }

  /** How many interruptions come first. */
  function LeadingInterrupts(events: seq<Event>): (n: nat)
    ensures n <= |events| && (n < |events| ==> events[n] != Interrupted)
  {
    if events != [] && events[0] == Interrupted then 1 + LeadingInterrupts(events[1..]) else 0
  }

  /** A peek meets fewer than ten interruptions, and then no error. */
  predicate PeekSucceeds(peeks: seq<Event>) {
    var n := LeadingInterrupts(peeks);
    n < 10 && (n == |peeks| || peeks[n].Deliver?)
  }

  /** What a peek leaves for the next one. */
  function AfterPeek(peeks: seq<Event>): seq<Event> {
    var n := LeadingInterrupts(peeks);
    if n >= 10 then peeks[10..] else if n == |peeks| then [] else peeks[n + 1..]
  }

  lemma InterruptStep(peeks: seq<Event>, k: nat)
    requires k < LeadingInterrupts(peeks)
    ensures peeks[k] == Interrupted && LeadingInterrupts(peeks[k..]) == LeadingInterrupts(peeks) - k
    decreases k
  {
    if k > 0 {
      InterruptStep(peeks[1..], k - 1);
      assert peeks[1..][k - 1..] == peeks[k..];
    } else {
      assert peeks[0..] == peeks;
    }
  }

  /** recv_peek: it succeeds exactly when fewer than ten interruptions come first, and then no error. */
  method RecvPeek(sock: Socket, len: nat) returns (ret: int, data: Bytes)
    modifies sock`peekEvents
    ensures ret >= 0 <==> PeekSucceeds(old(sock.peekEvents))
    ensures ret >= 0 ==> ret == (if len < |sock.incoming| then len else |sock.incoming|) && data == sock.incoming[..ret]
    ensures ret < 0 ==> ret == -1
    ensures sock.peekEvents == AfterPeek(old(sock.peekEvents))
  {
    hide LeadingInterrupts;
    ret, data := 0, [];
    var idx := PEEK_TRIES;
    ghost var all, n := sock.peekEvents, LeadingInterrupts(sock.peekEvents);
    ghost var k := 0;
    assert all[0..] == all;
    while idx > 0
      invariant 0 <= idx <= PEEK_TRIES && k == PEEK_TRIES - idx && k <= n && sock.peekEvents == all[k..]
      invariant k > 0 ==> ret == -1
    {
      var errno;
      if k < n {
        InterruptStep(all, k);
      }
      assert all[k..] != [] ==> all[k..][0] == all[k] && all[k..][1..] == all[k + 1..];
      ret, data, errno := sock.Peek(len);
      if ret == -1 && errno == EINTR {
        idx := idx - 1;
        k := k + 1;
        continue;
      }
      break;
    }
  }

  /** The header as a peek sees it: what a short stream does not fill stays zero. */
  function SeenHeader(stream: Bytes): (h: Bytes)
    ensures |h| == HEADSIZE
  {
    if |stream| >= HEADSIZE then stream[..HEADSIZE] else stream + seq(HEADSIZE - |stream|, _ => 0)
  }

  /**
   read_normal_sock: -1 when the peek fails, 0 at the end of the stream, -1 for a zero length, and otherwise
   what readn returns for the announced number of bytes.
   */
  method ReadNormalSock(sock: Socket) returns (nbytes: int, frame: Bytes, ghost got: nat, ghost k: nat)
    modifies sock
    ensures sock.peekEvents == AfterPeek(old(sock.peekEvents))
    ensures k <= |old(sock.readEvents)| && sock.readEvents == old(sock.readEvents)[k..]
    ensures var s := old(sock.incoming); var n := HeaderValue(SeenHeader(s));
      if !PeekSucceeds(old(sock.peekEvents)) || s == [] || n == 0 then
        sock.incoming == s && k == 0 && nbytes == (if PeekSucceeds(old(sock.peekEvents)) && s == [] then 0 else -1)
      else
        && |frame| == n + HEADSIZE && ReadOutcome(s, sock.incoming, frame, n + HEADSIZE, got)
        && (nbytes == got || (nbytes == -1 && Broken in old(sock.readEvents)))
        && (got < n + HEADSIZE && WouldBlock !in old(sock.readEvents) && nbytes != -1 ==> sock.incoming == [])
  {
    hide BigEndian, HeaderValue, LeadingInterrupts, PeekSucceeds, AfterPeek;
    frame, got, k := [], 0, 0;
    var head;
    nbytes, head := RecvPeek(sock, HEADSIZE);
    if nbytes <= 0 {
      return;
    }
    var szHeadBuf := head + seq(HEADSIZE - nbytes, _ => 0);
    assert szHeadBuf == SeenHeader(sock.incoming);
    var nLeft := ConvertHexToInt(szHeadBuf);
    if nLeft == 0 {
      nbytes := -1;
      return;
    }
    nLeft := nLeft + HEADSIZE;
    var p := new bv8[nLeft](_ => 0);
    nbytes, got, k := ReadN(sock, p, nLeft);
    frame := p[..];
  }

  // ----- Taking a message apart -----

  /** What analysis_message does with a message: accept it, reject it, or copy a number of bytes that is no length. */
  datatype Unframing = Accepted(payload: Bytes) | Rejected | BadCopy(count: int)

  /** Subtraction of 64-bit unsigned numbers. */
  function WordMinus(a: nat, b: nat): int {
    if a >= b then a - b else a - b + 0x1_0000_0000_0000_0000
  }

  /** The outcome for a message, given whether a block for its body is granted. */
  function UnframeResult(message: Bytes, granted: bool): Unframing {
    if |message| < HEADSIZE || !granted then Rejected
    else
      var body := message[HEADSIZE..];
      if Crc.Crc(body) != 0 then Rejected
      else if body == [] then Unframing.BadCopy(-1)
      else Accepted(body[..|body| - 1])
  }

  lemma NothingIsClean()
    ensures Crc.Crc([]) == 0
  {
  }

  /**
   The framing steps of analysis_message: the header is dropped and the checksum verified. granted says whether
   calloc gives a block; on a body length that has wrapped around it cannot give one. Without a block
   nothing of the body is read.
   */
  method Unframe(message: Bytes, granted: bool) returns (r: Unframing)
    ensures r == UnframeResult(message, granted)
  {
    if |message| <= 0 {
      return Rejected;
    }
    var nbytes := WordMinus(|message|, HEADSIZE);
    var podata: array?<bv8> := null;
    var body := [];
    if nbytes <= |message| {
      body := message[HEADSIZE..];
      if granted {
        podata := new bv8[nbytes](_ => 0);
      }
    }
    hide Checked, Crc.Crc;
    if body != [] {
      WholeIsClean(body);
    } else {
      NothingIsClean();
    }
    var ret := ReverseCrcData(body, podata);
    match ret
    case BadCopy(count) => r := Unframing.BadCopy(count);
    case Returns(v) => r := if v == 0 then Accepted(podata[..nbytes - 1]) else Rejected;
  }

  /** A message is accepted exactly when its body ends in its own checksum and has its block. */
  lemma UnframeAccepts(message: Bytes, granted: bool)
    ensures UnframeResult(message, granted).Accepted? <==>
      granted && |message| > HEADSIZE && message[HEADSIZE..] == Checked(message[HEADSIZE..|message| - 1])
    ensures UnframeResult(message, granted).Accepted? ==>
      UnframeResult(message, granted).payload == message[HEADSIZE..|message| - 1]
  {
    if |message| > HEADSIZE {
      var body := message[HEADSIZE..];
      hide Checked, Crc.Crc;
      WholeIsClean(body);
      assert body[..|body| - 1] == message[HEADSIZE..|message| - 1];
    }
  }

  /**
   Every message is accepted or rejected but one: a header without a body, which a stream cut after the
   header leaves, when calloc gives a block for no bytes. It then leads to a copy of -1 bytes.
   */
  lemma UnframeSafeLengths(message: Bytes, granted: bool)
    ensures UnframeResult(message, granted).Accepted? || UnframeResult(message, granted).Rejected?
      <==> !(|message| == 2 && granted)
    ensures |message| == 2 && granted ==> UnframeResult(message, granted) == Unframing.BadCopy(-1)
  {
    assert |message| == 2 ==> message[HEADSIZE..] == [];
  }

  /** The first frame of a stream. */
  lemma FirstFrame(ps: seq<Bytes>)
    requires ps != [] && forall p | p in ps :: Framable(p)
    ensures var s, p := Wire(ps), ps[0];
            && s != [] && HeaderValue(SeenHeader(s)) == |p| + 1
            && |s| >= |Frame(p)| && s[..|Frame(p)|] == Frame(p) && s[|Frame(p)|..] == Wire(ps[1..])
            && Frame(p)[HEADSIZE..] == Checked(p) && Frame(p)[HEADSIZE..|Frame(p)| - 1] == p
  {
    var p := ps[0];
    assert p in ps;
    HeaderInverse(|p| + 1);
    FrameSlices(p);
    assert Wire(ps) == Frame(p) + Wire(ps[1..]);
    hide Wire, Frame, Header, HeaderValue, Checked;
    assert SeenHeader(Frame(p) + Wire(ps[1..])) == Header(|p| + 1);
  }

  lemma FrameSlices(p: Bytes)
    requires Framable(p)
    ensures Frame(p)[..HEADSIZE] == Header(|p| + 1)
    ensures Frame(p)[HEADSIZE..] == Checked(p) && Frame(p)[HEADSIZE..|Frame(p)| - 1] == p
  {
    HeaderLength(|p| + 1);
    CheckedParts(p);
    hide Header, Checked;
    assert Frame(p)[HEADSIZE..|Frame(p)| - 1] == Checked(p)[..|p|];
  }

  lemma HeaderLength(n: nat)
    requires n < 0x1_0000
    ensures |Header(n)| == 2
  {
  }

  lemma CheckedParts(p: Bytes)
    ensures |Checked(p)| == |p| + 1 && Checked(p)[..|p|] == p && Checked(p)[|p|] == Crc.Crc(p)
  {
  }

  // ----- Receiving -----

  /** Reads meet short deliveries and any number of interruptions, but no error and no EAGAIN. */
  predicate Harmless(events: seq<Event>) {
    Broken !in events && WouldBlock !in events
  }

  /** How many of the next n peeks succeed before one fails. */
  function Served(peeks: seq<Event>, n: nat): (k: nat)
    ensures k <= n
    decreases n
  {
    if n == 0 || !PeekSucceeds(peeks) then 0 else 1 + Served(AfterPeek(peeks), n - 1)
  }

  /** One round of the receiving loop at the start of a frame. */
  method ReceiveOne(sock: Socket, ghost ps: seq<Bytes>) returns (ok: bool, payload: Bytes)
    requires forall p | p in ps :: Framable(p)
    requires sock.incoming == Wire(ps) && Harmless(sock.readEvents)
    modifies sock
    ensures Harmless(sock.readEvents) && sock.peekEvents == AfterPeek(old(sock.peekEvents))
    ensures ok <==> ps != [] && PeekSucceeds(old(sock.peekEvents))
    ensures ok ==> payload == ps[0] && sock.incoming == Wire(ps[1..])
    ensures !ok ==> sock.incoming == Wire(ps)
  {
    hide HeaderValue, Wire, Frame, SeenHeader, Framable, PeekSucceeds, AfterPeek, UnframeResult;
    WireEmpty();
    if ps != [] {
      FirstFrame(ps);
    }
    ok, payload := false, [];
    ghost var got, k;
    var nbytes, frame;
    nbytes, frame, got, k := ReadNormalSock(sock);
    if nbytes <= 0 {
      return;
    }
    assert frame[..nbytes] == frame;
    UnframeAccepts(frame, true);
    var r := Unframe(frame, true);
    if r.Accepted? {
      ok, payload := true, r.payload;
    }
  }

  lemma WireEmpty()
    ensures Wire([]) == []
  {
  }

  /**
   The receiving loop: any number of frames, split in any way and interrupted any number of times while
   they are read, come out as the payloads in order, up to the first peek that fails.
   */
  method Receive(sock: Socket, ghost ps: seq<Bytes>) returns (received: seq<Bytes>)
    requires forall p | p in ps :: Framable(p)
    requires sock.incoming == Wire(ps) && Harmless(sock.readEvents)
    modifies sock
    ensures var n := Served(old(sock.peekEvents), |ps|); received == ps[..n] && sock.incoming == Wire(ps[n..])
  {
    hide Wire, Framable, Harmless, PeekSucceeds, AfterPeek;
    received := [];
    ghost var left := ps;
    assert ps[0..] == ps;
    while true
      invariant forall p | p in left :: Framable(p)
      invariant |received| <= |ps| && received == ps[..|received|] && left == ps[|received|..]
      invariant sock.incoming == Wire(left) && Harmless(sock.readEvents)
      invariant Served(old(sock.peekEvents), |ps|) == |received| + Served(sock.peekEvents, |left|)
      decreases |left|
    {
      var ok, payload := ReceiveOne(sock, left);
      if !ok {
        break;
      }
      received := received + [payload];
      left := left[1..];
    }
  }

  /** No error but interruptions, and never ten of those in a row. */
  ghost predicate Calm(events: seq<Event>) {
    events == [] ||
    ((events[0].Deliver? || events[0] == Interrupted) && LeadingInterrupts(events) < 10 && Calm(events[1..]))
  }

  lemma {:induction false} CalmSuffix(events: seq<Event>, k: nat)
    requires Calm(events) && k <= |events|
    ensures Calm(events[k..]) && (k < |events| ==> events[k].Deliver? || events[k] == Interrupted)
    decreases k
  {
    if k > 0 {
      CalmSuffix(events[1..], k - 1);
      assert events[1..][k - 1..] == events[k..];
    } else {
      assert events[0..] == events;
    }
  }

  /** On calm peeks none fails, so everything arrives. */
  lemma {:induction false} CalmServes(peeks: seq<Event>, n: nat)
    requires Calm(peeks)
    ensures Served(peeks, n) == n
    decreases n
  {
    if n > 0 {
      var k := LeadingInterrupts(peeks);
      CalmSuffix(peeks, k);
      if k < |peeks| {
        CalmSuffix(peeks, k + 1);
      }
      CalmServes(AfterPeek(peeks), n - 1);
    }
  }
}
