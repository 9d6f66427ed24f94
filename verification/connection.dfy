/**
 * Peer-to-interface path (`on_accept`): one accepted peer socket is
 * registered, then frames are read from it one at a time, each written to
 * the vmnet interface and, when that succeeds, flooded to the other peers;
 * when the loop ends the socket leaves the registry and is closed.
 */
module Connection {
  import opened Types
  import Wire
  import Registry

  /** How the peer's socket behaves once its pending bytes are used up. */
  datatype StreamEnd = Eof | Broken

  /** The bytes the peer has sent that are not read yet, and how the stream ends after them. */
  datatype Stream = Stream(pending: seq<uint8>, end: StreamEnd)

  /** What one `read` call gives: -1, or the bytes copied into the buffer (none at all meaning 0). */
  datatype ReadResult = ReadError | ReadBytes(data: seq<uint8>)

  function Min(a: nat, b: nat): nat {
    if a <= b then a else b
  }

  /**
   * `read(fd, buf, n)` on the stream: up to `n` pending bytes; with nothing
   * pending, 0 at end of file and -1 on a broken stream; 0 whenever `n` is 0.
   */
  function Read(s: Stream, n: nat): (r: (ReadResult, Stream))
    ensures r.0.ReadBytes? ==> |r.0.data| <= n && s.pending == r.0.data + r.1.pending && r.1.end == s.end
  {
    if n == 0 then (ReadBytes([]), s)
    else if |s.pending| == 0 then (if s.end == Eof then ReadBytes([]) else ReadError, s)
    else
      var k := Min(n, |s.pending|);
      assert s.pending == s.pending[..k] + s.pending[k..];
      (ReadBytes(s.pending[..k]), s.(pending := s.pending[k..]))
  }

  /**
   * The header variable after a read of up to four bytes into it: it is
   * zeroed before each read, so bytes the read did not supply stay 0.
   */
  function PadHeader(got: seq<uint8>): (h: seq<uint8>)
    requires |got| <= Wire.HeaderSize
    ensures |h| == Wire.HeaderSize && h[..|got|] == got
    ensures forall k :: |got| <= k < Wire.HeaderSize ==> h[k] == 0
  {
    got + seq(Wire.HeaderSize - |got|, _ => 0)
  }

  /** Something the loop does to the outside world. */
  datatype Event =
    | ToInterface(payload: seq<uint8>, ok: bool)   // `vmnet_write` of one frame's payload
    | ToPeer(fd: int, frame: seq<uint8>, ok: bool)  // `writev` of the framed copy to another peer

  /** Why the loop ended. */
  datatype Close =
    | PeerClosed            // a read returned 0
    | ReadFailed            // a read returned -1
    | InterfaceWriteFailed  // `vmnet_write` did not succeed
    | HeaderTooLarge        // `assert(header <= buf_len)` failed: the process aborts
    | ShortBody             // `assert(received == header)` failed: the process aborts

  /** The two endings that come from a failed `assert`, which aborts the whole daemon. */
  predicate Aborts(c: Close) {
    c.HeaderTooLarge? || c.ShortBody?
  }

  /** What one connection's loop did, in order, and how it ended. */
  datatype Session = Session(events: seq<Event>, close: Close)

  /**
   * The success of each external write, as oracles: `ifaceWrite(i)` for
   * the `i`-th frame's `vmnet_write`, `peerWrite(i, fd)` for its `writev` to `fd`.
   */
  datatype Env = Env(ifaceWrite: nat -> bool, peerWrite: (nat, int) -> bool)

  /** The registry without the sender's own descriptor, in list order. */
  function Others(conns: seq<int>, self: int): (r: seq<int>)
    ensures self !in r
    ensures forall c :: c in r <==> c in conns && c != self
    ensures |r| <= |conns|
  {
    if |conns| == 0 then []
    else if conns[0] == self then Others(conns[1..], self)
    else [conns[0]] + Others(conns[1..], self)
  }

  /**
   * The flood loop: every registry entry other than the sender gets the
   * frame, and a failed write moves on to the next entry.
   */
  function Flood(self: int, frame: seq<uint8>, conns: seq<int>, i: nat, env: Env): (r: seq<Event>)
    ensures |r| == |Others(conns, self)|
    ensures forall k :: 0 <= k < |r| ==>
      r[k] == ToPeer(Others(conns, self)[k], frame, env.peerWrite(i, Others(conns, self)[k]))
  {
    if |conns| == 0 then []
    else if conns[0] == self then Flood(self, frame, conns[1..], i, env)
    else [ToPeer(conns[0], frame, env.peerWrite(i, conns[0]))] + Flood(self, frame, conns[1..], i, env)
  }

  /** What reading one frame off the stream came to. */
  datatype Step =
    | Ended(close: Close)                                         // the loop stops here
    | Whole(header: seq<uint8>, payload: seq<uint8>, next: Stream) // a frame to forward, and the stream after it

  /**
   * The two reads of one loop iteration: a header read of up to 4 bytes,
   * the assertion on its value, then a body read of that many bytes and the
   * assertion that all of them arrived.
   */
  function ReadFrame(s: Stream): (st: Step)
    ensures st.Whole? ==> |st.next.pending| < |s.pending| && st.next.end == s.end
    ensures st.Whole? ==> |st.header| == Wire.HeaderSize && Wire.Ntohl(st.header) == |st.payload|
    ensures st.Whole? ==> 0 < |st.payload| <= Wire.BufferSize
    ensures st.Whole? ==> s.pending == st.header + st.payload + st.next.pending
  {
    var (head, s1) := Read(s, Wire.HeaderSize);
    match head
    case ReadError => Ended(ReadFailed)
    case ReadBytes(got) =>
      if |got| == 0 then Ended(PeerClosed)
      else
        var headerBytes := PadHeader(got);
        var header := Wire.Ntohl(headerBytes);
        if header > Wire.BufferSize then Ended(HeaderTooLarge)
        else
          var (body, s2) := Read(s1, header);
          match body
          case ReadError => Ended(ReadFailed)
          case ReadBytes(payload) =>
            if |payload| == 0 then Ended(PeerClosed)
            else if |payload| != header then Ended(ShortBody)
            else Whole(headerBytes, payload, s2)
  }

  /**
   * The order a connection's loop keeps: nothing is ever sent back to the
   * sender, the loop starts with a forward to the interface (never with a
   * flood), and a failed forward is the last thing it does.
   */
  predicate Disciplined(self: int, s: Session) {
    && (forall k :: 0 <= k < |s.events| && s.events[k].ToPeer? ==> s.events[k].fd != self)
    && (|s.events| > 0 ==> s.events[0].ToInterface?)
    && (forall k :: 0 <= k < |s.events| && s.events[k].ToInterface? && !s.events[k].ok ==>
          k == |s.events| - 1 && s.close == InterfaceWriteFailed)
  }

  /** A successful forward, then copies to peers other than the sender, then a disciplined rest, is disciplined. */
  lemma DisciplinedCons(self: int, payload: seq<uint8>, flood: seq<Event>, rest: Session)
    requires forall k :: 0 <= k < |flood| ==> flood[k].ToPeer? && flood[k].fd != self
    requires Disciplined(self, rest)
    ensures Disciplined(self, Session([ToInterface(payload, true)] + flood + rest.events, rest.close))
  {
    var events := [ToInterface(payload, true)] + flood + rest.events;
    forall k | 0 <= k < |events|
      ensures events[k] == if k == 0 then ToInterface(payload, true)
                           else if k <= |flood| then flood[k - 1]
                           else rest.events[k - 1 - |flood|]
    {
    }
  }

  /**
   * The receive loop of `on_accept` from the `i`-th frame on; `snapshot(i)`
   * is the registry as read under the semaphore for that frame's flood.
   */
  function Serve(self: int, s: Stream, i: nat, snapshot: nat -> seq<int>, env: Env): (r: Session)
    ensures Disciplined(self, r)
    decreases |s.pending|
  {
    match ReadFrame(s)
    case Ended(c) => Session([], c)
    case Whole(header, payload, next) =>
      if !env.ifaceWrite(i) then Session([ToInterface(payload, false)], InterfaceWriteFailed)
      else
        var flood := Flood(self, header + payload, snapshot(i), i, env);
        var rest := Serve(self, next, i + 1, snapshot, env);
        DisciplinedCons(self, payload, flood, rest);
        Session([ToInterface(payload, true)] + flood + rest.events, rest.close)
  }

  /** The bytes of a sequence of frames sent back to back. */
  function Frames(ps: seq<seq<uint8>>): seq<uint8> {
    if |ps| == 0 then [] else Wire.EncodeFrame(ps[0]) + Frames(ps[1..])
  }

  /**
   * Frame-level reference for one frame: it is forwarded once, and only a
   * successful forward is followed by its flood and by `rest`.
   */
  function Forward(self: int, p: seq<uint8>, i: nat, snapshot: nat -> seq<int>, env: Env, rest: Session): Session {
    if !env.ifaceWrite(i) then Session([ToInterface(p, false)], InterfaceWriteFailed)
    else Session([ToInterface(p, true)] + Flood(self, Wire.EncodeFrame(p), snapshot(i), i, env) + rest.events, rest.close)
  }

  /** Frame-level reference for the loop over `ps`; after the last frame the session continues as `last`. */
  function Relay(self: int, ps: seq<seq<uint8>>, i: nat, snapshot: nat -> seq<int>, env: Env, last: Session): Session
    decreases |ps|
  {
    if |ps| == 0 then last
    else Forward(self, ps[0], i, snapshot, env, Relay(self, ps[1..], i + 1, snapshot, env, last))
  }

  /** One whole frame at the front of the stream is read back as that frame. */
  lemma ReadOneFrame(p: seq<uint8>, rest: seq<uint8>, end: StreamEnd)
    requires 0 < |p| <= Wire.BufferSize
    ensures ReadFrame(Stream(Wire.EncodeFrame(p) + rest, end))
      == Whole(Wire.EncodeFrame(p)[..Wire.HeaderSize], p, Stream(rest, end))
  {
    var f := Wire.EncodeFrame(p);
    var s := Stream(f + rest, end);
    var (head, s1) := Read(s, Wire.HeaderSize);
    assert (f + rest)[..Wire.HeaderSize] == f[..Wire.HeaderSize];
    assert head == ReadBytes(f[..Wire.HeaderSize]);
    assert PadHeader(f[..Wire.HeaderSize]) == f[..Wire.HeaderSize];
    assert s1.pending == p + rest by {
      assert (f + rest)[Wire.HeaderSize..] == f[Wire.HeaderSize..] + rest;
    }
    var (body, s2) := Read(s1, |p|);
    assert (p + rest)[..|p|] == p;
    assert body == ReadBytes(p);
    assert s2.pending == rest;
  }

  /**
   * The loop's two reads agree with the frame decoder: a decoded frame is
   * read as that frame, a zero header ends the connection as end of file,
   * and an oversized header trips the assertion.
   */
  lemma ReadFrameOfDecoded(s: seq<uint8>, end: StreamEnd)
    ensures Wire.DecodeFrame(s).Frame? ==>
      ReadFrame(Stream(s, end))
        == Whole(s[..Wire.HeaderSize], Wire.DecodeFrame(s).payload, Stream(Wire.DecodeFrame(s).rest, end))
    ensures Wire.DecodeFrame(s).ZeroLength? ==> ReadFrame(Stream(s, end)) == Ended(PeerClosed)
    ensures Wire.DecodeFrame(s).TooLarge? ==> ReadFrame(Stream(s, end)) == Ended(HeaderTooLarge)
  {
    var d := Wire.DecodeFrame(s);
    if d.Frame? {
      Wire.EncodeDecode(s);
      ReadOneFrame(d.payload, d.rest, end);
      assert s[..Wire.HeaderSize] == Wire.EncodeFrame(d.payload)[..Wire.HeaderSize];
    } else if d.ZeroLength? || d.TooLarge? {
      assert PadHeader(s[..Wire.HeaderSize]) == s[..Wire.HeaderSize];
    }
  }

  /** Conversely, a frame the loop reads is one the decoder splits off the same bytes. */
  lemma DecodedOfReadFrame(s: Stream)
    requires ReadFrame(s).Whole?
    ensures Wire.DecodeFrame(s.pending) == Wire.Frame(ReadFrame(s).payload, ReadFrame(s).next.pending)
  {
    var st := ReadFrame(s);
    var h, p := st.header, st.payload;
    assert Wire.EncodeFrame(p) == h + p by {
      assert |p| % 0x1_0000_0000 == Wire.Ntohl(h);
      Wire.HtonlNtohl(h);
    }
    Wire.DecodeEncode(p, st.next.pending);
  }

  /** One whole frame at the front of the stream is forwarded and flooded as it was encoded. */
  lemma ServeOneFrame(self: int, p: seq<uint8>, rest: seq<uint8>, end: StreamEnd, i: nat,
                      snapshot: nat -> seq<int>, env: Env)
    requires 0 < |p| <= Wire.BufferSize
    ensures Serve(self, Stream(Wire.EncodeFrame(p) + rest, end), i, snapshot, env)
      == Forward(self, p, i, snapshot, env, Serve(self, Stream(rest, end), i + 1, snapshot, env))
  {
    ReadOneFrame(p, rest, end);
    var f := Wire.EncodeFrame(p);
    assert f[..Wire.HeaderSize] + p == f;
  }

  /**
   * Round trip through the loop: a stream of well-formed non-empty frames
   * is served exactly as the frame-level reference relays those frames.
   */
  lemma {:induction false} ServeFrames(self: int, ps: seq<seq<uint8>>, tail: seq<uint8>, end: StreamEnd,
                                       i: nat, snapshot: nat -> seq<int>, env: Env, n: nat, last: Session)
    requires forall k :: 0 <= k < |ps| ==> 0 < |ps[k]| <= Wire.BufferSize
    requires n == i + |ps| && last == Serve(self, Stream(tail, end), n, snapshot, env)
    ensures Serve(self, Stream(Frames(ps) + tail, end), i, snapshot, env) == Relay(self, ps, i, snapshot, env, last)
    decreases |ps|
  {
    if |ps| > 0 {
      var p := ps[0];
      var more := Frames(ps[1..]) + tail;
      var rest := Serve(self, Stream(more, end), i + 1, snapshot, env);
      assert rest == Relay(self, ps[1..], i + 1, snapshot, env, last) by {
        ServeFrames(self, ps[1..], tail, end, i + 1, snapshot, env, n, last);
      }
      assert Serve(self, Stream(Frames(ps) + tail, end), i, snapshot, env)
          == Forward(self, p, i, snapshot, env, rest) by {
        assert Frames(ps) + tail == Wire.EncodeFrame(p) + more;
        ServeOneFrame(self, p, more, end, i, snapshot, env);
      }
      assert Relay(self, ps, i, snapshot, env, last)
          == Forward(self, p, i, snapshot, env, Relay(self, ps[1..], i + 1, snapshot, env, last));
    } else {
      assert Frames(ps) + tail == tail;
    }
  }

  /** The payloads handed to `vmnet_write`, in order. */
  function Forwarded(events: seq<Event>): seq<seq<uint8>> {
    if |events| == 0 then []
    else if events[0].ToInterface? then [events[0].payload] + Forwarded(events[1..])
    else Forwarded(events[1..])
  }

  lemma {:induction false} ForwardedAppend(a: seq<Event>, b: seq<Event>)
    ensures Forwarded(a + b) == Forwarded(a) + Forwarded(b)
    decreases |a|
  {
    if |a| > 0 {
      assert (a + b)[0] == a[0];
      assert (a + b)[1..] == a[1..] + b;
      ForwardedAppend(a[1..], b);
    } else {
      assert a + b == b;
    }
  }

  lemma {:induction false} ForwardedFlood(self: int, frame: seq<uint8>, conns: seq<int>, i: nat, env: Env)
    ensures Forwarded(Flood(self, frame, conns, i, env)) == []
    decreases |conns|
  {
    var f := Flood(self, frame, conns, i, env);
    if |f| > 0 {
      assert f[1..] == Flood(self, frame, conns, i, env)[1..];
      ForwardedFloodTail(f);
    }
  }

  lemma {:induction false} ForwardedFloodTail(f: seq<Event>)
    requires forall k :: 0 <= k < |f| ==> f[k].ToPeer?
    ensures Forwarded(f) == []
    decreases |f|
  {
    if |f| > 0 {
      ForwardedFloodTail(f[1..]);
    }
  }

  /**
   * One successfully forwarded frame: it is the first payload handed to the
   * interface, its flood adds none, and the loop goes on as for the rest.
   */
  lemma RelayStep(self: int, ps: seq<seq<uint8>>, i: nat, snapshot: nat -> seq<int>, env: Env, last: Session)
    requires |ps| > 0 && env.ifaceWrite(i)
    ensures var r := Relay(self, ps, i, snapshot, env, last);
            var rest := Relay(self, ps[1..], i + 1, snapshot, env, last);
      && r.close == rest.close
      && Forwarded(r.events) == [ps[0]] + Forwarded(rest.events)
      && (|rest.events| > 0 ==> |r.events| > 0 && r.events[|r.events| - 1] == rest.events[|rest.events| - 1])
  {
    var rest := Relay(self, ps[1..], i + 1, snapshot, env, last);
    var flood := Flood(self, Wire.EncodeFrame(ps[0]), snapshot(i), i, env);
    var ev := [ToInterface(ps[0], true)] + flood + rest.events;
    assert Relay(self, ps, i, snapshot, env, last) == Session(ev, rest.close);
    ForwardedAppend([ToInterface(ps[0], true)] + flood, rest.events);
    ForwardedAppend([ToInterface(ps[0], true)], flood);
    ForwardedFlood(self, Wire.EncodeFrame(ps[0]), snapshot(i), i, env);
  }

  /** A frame whose forward fails is the only event, and the loop ends there. */
  lemma RelayFailsFirst(self: int, ps: seq<seq<uint8>>, i: nat, snapshot: nat -> seq<int>, env: Env, last: Session)
    requires |ps| > 0 && !env.ifaceWrite(i)
    ensures Relay(self, ps, i, snapshot, env, last) == Session([ToInterface(ps[0], false)], InterfaceWriteFailed)
    ensures Forwarded([ToInterface(ps[0], false)]) == [ps[0]]
  {
  }

  /** While the interface accepts every write, each frame is forwarded once, in order. */
  lemma {:induction false} RelayForwardsEach(self: int, ps: seq<seq<uint8>>, i: nat, snapshot: nat -> seq<int>,
                                             env: Env, last: Session)
    requires forall j :: i <= j < i + |ps| ==> env.ifaceWrite(j)
    ensures Forwarded(Relay(self, ps, i, snapshot, env, last).events) == ps + Forwarded(last.events)
    ensures Relay(self, ps, i, snapshot, env, last).close == last.close
    decreases |ps|
  {
    if |ps| > 0 {
      RelayForwardsEach(self, ps[1..], i + 1, snapshot, env, last);
      RelayStep(self, ps, i, snapshot, env, last);
      assert ps == [ps[0]] + ps[1..];
    }
  }

  /**
   * A failed forward ends the loop at once: the frames before it were each
   * forwarded once, the failing frame is attempted once and never flooded.
   */
  lemma {:induction false} RelayStopsAtFailedForward(self: int, ps: seq<seq<uint8>>, m: nat, i: nat,
                                                     snapshot: nat -> seq<int>, env: Env, last: Session)
    requires m < |ps| && !env.ifaceWrite(i + m)
    requires forall j :: i <= j < i + m ==> env.ifaceWrite(j)
    ensures Relay(self, ps, i, snapshot, env, last).close == InterfaceWriteFailed
    ensures Forwarded(Relay(self, ps, i, snapshot, env, last).events) == ps[..m + 1]
    ensures var ev := Relay(self, ps, i, snapshot, env, last).events;
      |ev| > 0 && ev[|ev| - 1] == ToInterface(ps[m], false)
    decreases |ps|
  {
    if m == 0 {
      RelayFailsFirst(self, ps, i, snapshot, env, last);
      assert ps[..1] == [ps[0]];
    } else {
      assert env.ifaceWrite(i);
      RelayStopsAtFailedForward(self, ps[1..], m - 1, i + 1, snapshot, env, last);
      RelayStep(self, ps, i, snapshot, env, last);
      assert ps[..m + 1] == [ps[0]] + ps[1..][..m];
    }
  }

  /**
   * A peer that sends well-formed frames and then closes (or breaks) its
   * socket has every frame forwarded once, in order, when the interface
   * accepts them all; the loop then ends on the read that finds the end.
   */
  lemma SessionForwardsFrames(self: int, ps: seq<seq<uint8>>, end: StreamEnd, snapshot: nat -> seq<int>, env: Env)
    requires forall k :: 0 <= k < |ps| ==> 0 < |ps[k]| <= Wire.BufferSize
    requires forall j :: 0 <= j < |ps| ==> env.ifaceWrite(j)
    ensures Forwarded(Serve(self, Stream(Frames(ps), end), 0, snapshot, env).events) == ps
    ensures Serve(self, Stream(Frames(ps), end), 0, snapshot, env).close
      == if end == Eof then PeerClosed else ReadFailed
  {
    var last := Serve(self, Stream([], end), |ps|, snapshot, env);
    assert last == Session([], if end == Eof then PeerClosed else ReadFailed);
    assert Frames(ps) + [] == Frames(ps);
    ServeFrames(self, ps, [], end, 0, snapshot, env, |ps|, last);
    RelayForwardsEach(self, ps, 0, snapshot, env, last);
    assert ps + [] == ps;
  }

  /**
   * A zero-length frame ends the connection: its body read asks for 0
   * bytes, gets 0, and 0 is taken for end of file. Nothing is forwarded.
   */
  lemma ZeroLengthFrameCloses(self: int, rest: seq<uint8>, end: StreamEnd, i: nat, snapshot: nat -> seq<int>, env: Env)
    ensures Serve(self, Stream(Wire.EncodeFrame([]) + rest, end), i, snapshot, env) == Session([], PeerClosed)
  {
    var f := Wire.EncodeFrame([]);
    assert (f + rest)[..Wire.HeaderSize] == f[..Wire.HeaderSize];
    assert PadHeader(f[..Wire.HeaderSize]) == f[..Wire.HeaderSize];
  }

  /** A header above the 64 KiB buffer trips the assertion before any body byte is read. */
  lemma OversizedHeaderAborts(self: int, n: uint32, rest: seq<uint8>, end: StreamEnd, i: nat,
                              snapshot: nat -> seq<int>, env: Env)
    requires n > Wire.BufferSize
    ensures Serve(self, Stream(Wire.Htonl(n) + rest, end), i, snapshot, env) == Session([], HeaderTooLarge)
  {
    assert (Wire.Htonl(n) + rest)[..Wire.HeaderSize] == Wire.Htonl(n);
    assert PadHeader(Wire.Htonl(n)) == Wire.Htonl(n);
    Wire.NtohlHtonl(n);
  }

  /**
   * A frame cut short by the end of the stream forwards nothing: a partial
   * body trips the length assertion, a missing body ends the loop as the
   * stream's end does.
   */
  lemma TruncatedFrameEnds(self: int, n: uint32, body: seq<uint8>, end: StreamEnd, i: nat,
                           snapshot: nat -> seq<int>, env: Env)
    requires |body| < n <= Wire.BufferSize
    ensures Serve(self, Stream(Wire.Htonl(n) + body, end), i, snapshot, env)
      == Session([], if |body| > 0 then ShortBody else if end == Eof then PeerClosed else ReadFailed)
  {
    assert (Wire.Htonl(n) + body)[..Wire.HeaderSize] == Wire.Htonl(n);
    assert (Wire.Htonl(n) + body)[Wire.HeaderSize..] == body;
    assert PadHeader(Wire.Htonl(n)) == Wire.Htonl(n);
    Wire.NtohlHtonl(n);
  }

  /** Every copy goes to a descriptor of `conns`. */
  predicate SendsWithin(events: seq<Event>, conns: seq<int>) {
    forall k :: 0 <= k < |events| && events[k].ToPeer? ==> events[k].fd in conns
  }

  lemma FloodWithin(self: int, frame: seq<uint8>, conns: seq<int>, i: nat, env: Env)
    ensures SendsWithin(Flood(self, frame, conns, i, env), conns)
  {
    var f := Flood(self, frame, conns, i, env);
    var o := Others(conns, self);
    forall k | 0 <= k < |f|
      ensures f[k].fd in conns
    {
      assert f[k].fd == o[k] && o[k] in o;
    }
  }

  lemma WithinCons(payload: seq<uint8>, flood: seq<Event>, rest: seq<Event>, conns: seq<int>)
    requires SendsWithin(flood, conns) && SendsWithin(rest, conns)
    ensures SendsWithin([ToInterface(payload, true)] + flood + rest, conns)
  {
    var events := [ToInterface(payload, true)] + flood + rest;
    forall k | 0 <= k < |events|
      ensures events[k] == if k == 0 then ToInterface(payload, true)
                           else if k <= |flood| then flood[k - 1]
                           else rest[k - 1 - |flood|]
    {
    }
  }

  /** A frame that was read and forwarded is followed by its flood to the snapshot, then the rest of the loop. */
  lemma ServeForwards(self: int, s: Stream, i: nat, snapshot: nat -> seq<int>, env: Env)
    requires ReadFrame(s).Whole? && env.ifaceWrite(i)
    ensures var st := ReadFrame(s);
      Serve(self, s, i, snapshot, env).events
        == [ToInterface(st.payload, true)] + Flood(self, st.header + st.payload, snapshot(i), i, env)
           + Serve(self, st.next, i + 1, snapshot, env).events
  {
  }

  /** When the loop ends without a successful forward, nothing was sent to a peer. */
  lemma ServeEndsQuietly(self: int, s: Stream, i: nat, snapshot: nat -> seq<int>, env: Env)
    requires !(ReadFrame(s).Whole? && env.ifaceWrite(i))
    ensures forall k :: 0 <= k < |Serve(self, s, i, snapshot, env).events| ==>
      Serve(self, s, i, snapshot, env).events[k].ToInterface?
  {
  }

  /** With a fixed registry, every flooded copy goes to a registered peer. */
  lemma {:induction false} FloodTargets(self: int, s: Stream, i: nat, snapshot: nat -> seq<int>, conns: seq<int>, env: Env)
    requires forall j :: snapshot(j) == conns
    ensures SendsWithin(Serve(self, s, i, snapshot, env).events, conns)
    decreases |s.pending|
  {
    var st := ReadFrame(s);
    if st.Whole? && env.ifaceWrite(i) {
      var flood := Flood(self, st.header + st.payload, conns, i, env);
      var rest := Serve(self, st.next, i + 1, snapshot, env);
      assert snapshot(i) == conns;
      ServeForwards(self, s, i, snapshot, env);
      FloodTargets(self, st.next, i + 1, snapshot, conns, env);
      FloodWithin(self, st.header + st.payload, conns, i, env);
      WithinCons(st.payload, flood, rest.events, conns);
    } else {
      ServeEndsQuietly(self, s, i, snapshot, env);
    }
  }

  /** What accepting a peer came to: its session, the registry afterwards, and whether its socket was closed. */
  datatype Outcome = Outcome(session: Session, registry: seq<int>, closed: bool)

  /**
   * `on_accept` while no other connection changes the registry: register
   * the socket, serve it, then unregister and close it unless an assertion
   * aborted the process first.
   */
  function OnAccept(reg: seq<int>, fd: int, s: Stream, env: Env): (o: Outcome)
    ensures Aborts(o.session.close) ==> o.registry == Registry.Add(reg, fd) && !o.closed
    ensures !Aborts(o.session.close) ==> o.closed && o.registry == Registry.Remove(Registry.Add(reg, fd), fd)
    ensures fd !in reg && !Aborts(o.session.close) ==> o.registry == reg
    ensures forall k :: 0 <= k < |o.session.events| && o.session.events[k].ToPeer? ==>
      o.session.events[k].fd in reg && o.session.events[k].fd != fd
  {
    var joined := Registry.Add(reg, fd);
    assert joined == reg + [fd];
    var snapshot: nat -> seq<int> := _ => joined;
    var session := Serve(fd, s, 0, snapshot, env);
    FloodTargets(fd, s, 0, snapshot, joined, env);
    if Aborts(session.close) then Outcome(session, joined, false)
    else if fd in reg then Outcome(session, Registry.Remove(joined, fd), true)
    else
      Registry.RemoveUndoesAdd(reg, fd);
      Outcome(session, Registry.Remove(joined, fd), true)
  }
}
