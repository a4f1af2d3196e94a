/** `rPacketClient`: packets taken out of a byte stream that arrives in arbitrary chunks. */
module PacketClient {
  import opened Octets
  import opened BitXor
  import opened CrcRegister
  import opened Crc

  const HEADER_SIZE: nat := 20
  const POLY32: nat := 0xEDB8_8320

  /** `rPacketHeader` as its bytes in memory: magic, version, flags, reserved, dataSize, crc32. */
  type Header = h: seq<Byte> | |h| == HEADER_SIZE witness Zeros(20)

  function Zeros(n: nat): (z: seq<Byte>)
    ensures |z| == n && forall i :: 0 <= i < n ==> z[i] == 0
  {
    seq(n, _ => 0)
  }

  function WordAt(h: Header, at: nat): (r: nat)
    requires at + 4 <= HEADER_SIZE
    ensures r < WIDTH32
  {
    h[at] as int + 256 * (h[at + 1] as int + 256 * (h[at + 2] as int + 256 * (h[at + 3] as int)))
  }

  function Magic(h: Header): nat {
    WordAt(h, 0)
  }

  function DataSize(h: Header): nat {
    WordAt(h, 12)
  }

  function CrcField(h: Header): nat {
    WordAt(h, 16)
  }

  /** The code's test for a header being in hand. */
  predicate Present(h: Header) {
    Magic(h) != 0 && DataSize(h) != 0
  }

  /** The header checksum covers everything before the checksum itself. */
  predicate GoodCrc(h: Header) {
    CrcField(h) == Checksum32(POLY32, h[..16])
  }

  /** A header is in hand when neither its first four bytes nor the four of its data size are all zero. */
  lemma PresentByBytes(h: Header)
    ensures Present(h) <==> h[0..4] != [0, 0, 0, 0] && h[12..16] != [0, 0, 0, 0]
  {
    ZeroWord(h, 0);
    ZeroWord(h, 12);
  }

  lemma ZeroWord(h: Header, at: nat)
    requires at + 4 <= 20
    ensures WordAt(h, at) == 0 <==> h[at..at + 4] == [0, 0, 0, 0]
  {
    var w := h[at..at + 4];
    assert w[0] == h[at] && w[1] == h[at + 1] && w[2] == h[at + 2] && w[3] == h[at + 3];
  }

  lemma WordRoundTrip(r: nat, h: Header, at: nat)
    requires r < WIDTH32 && at + 4 <= HEADER_SIZE
    requires h[at..at + 4] == LittleEndian(r)
    ensures WordAt(h, at) == r
  {
    assert h[at] == h[at..at + 4][0] && h[at + 1] == h[at..at + 4][1];
    assert h[at + 2] == h[at..at + 4][2] && h[at + 3] == h[at..at + 4][3];
    var c1, c2, c3 := r / 256, r / 256 / 256, r / 256 / 256 / 256;
    assert c3 % 256 == c3;
  }

  // ----- the stream as a list of frames

  datatype Frame = Frame(header: Header, payload: seq<Byte>)

  predicate WellFormed(f: Frame) {
    Present(f.header) && GoodCrc(f.header) && DataSize(f.header) == |f.payload|
  }

  predicate AllWellFormed(frames: seq<Frame>) {
    forall i :: 0 <= i < |frames| ==> WellFormed(frames[i])
  }

  function Wire(f: Frame): seq<Byte> {
    f.header + f.payload
  }

  function WireAll(frames: seq<Frame>): seq<Byte> {
    if frames == [] then [] else Wire(frames[0]) + WireAll(frames[1..])
  }

  function Payloads(frames: seq<Frame>): seq<seq<Byte>> {
    if frames == [] then [] else [frames[0].payload] + Payloads(frames[1..])
  }

  /** One payload for each frame, in their order. */
  lemma {:induction false} PayloadsInOrder(frames: seq<Frame>, i: nat)
    requires i < |frames|
    ensures |Payloads(frames)| == |frames| && Payloads(frames)[i] == frames[i].payload
  {
    if |frames| == 1 {
      assert Payloads(frames[1..]) == [];
    } else {
      PayloadsInOrder(frames[1..], if i == 0 then 0 else i - 1);
    }
  }

  function Concat(chunks: seq<seq<Byte>>): seq<Byte> {
    if chunks == [] then [] else chunks[0] + Concat(chunks[1..])
  }

  /** The bytes of the first `i` chunks. */
  function Received(chunks: seq<seq<Byte>>, i: nat): seq<Byte>
    requires i <= |chunks|
  {
    if i == 0 then [] else Received(chunks, i - 1) + chunks[i - 1]
  }

  /** What may follow the frames: nothing, or a header whose checksum is wrong. */
  predicate EndsOrFails(tail: seq<Byte>) {
    tail == [] || (|tail| >= HEADER_SIZE && !GoodCrc(tail[..HEADER_SIZE]))
  }

  /** The bytes in hand and those still to arrive are the frames to come and what follows them. */
  ghost predicate InStream(pending: seq<Byte>, future: seq<Byte>, frames: seq<Frame>, tail: seq<Byte>) {
    pending + future == WireAll(frames) + tail
  }

  /** A whole header at the front of the stream is the first frame's, or the one that fails. */
  lemma FirstHeader(frames: seq<Frame>, tail: seq<Byte>, head: Header, rest: seq<Byte>, future: seq<Byte>)
    requires InStream(head + rest, future, frames, tail)
    ensures frames != [] ==> head == frames[0].header
    ensures frames != [] ==> rest + future == frames[0].payload + (WireAll(frames[1..]) + tail)
    ensures frames == [] && |tail| >= HEADER_SIZE ==> head == tail[..HEADER_SIZE]
  {
    Regroup(head, rest, future);
    if frames != [] {
      var f := frames[0];
      Regroup(Wire(f), WireAll(frames[1..]), tail);
      Regroup(f.header, f.payload, WireAll(frames[1..]) + tail);
      SamePrefix(head, rest + future, f.header, f.payload + (WireAll(frames[1..]) + tail));
    } else if |tail| >= HEADER_SIZE {
      assert WireAll(frames) + tail == tail[..HEADER_SIZE] + tail[HEADER_SIZE..];
      SamePrefix(head, rest + future, tail[..HEADER_SIZE], tail[HEADER_SIZE..]);
    }
  }

  /** A header in hand was good, so it is that of the first frame. */
  lemma HeaderInHand(frames: seq<Frame>, tail: seq<Byte>, header: Header, buff: seq<Byte>, future: seq<Byte>)
    requires GoodCrc(header)
    requires EndsOrFails(tail) && InStream(header + buff, future, frames, tail)
    ensures frames != [] && header == frames[0].header
    ensures buff + future == frames[0].payload + (WireAll(frames[1..]) + tail)
  {
    assert |header + buff + future| >= HEADER_SIZE;
    FirstHeader(frames, tail, header, buff, future);
  }

  lemma {:induction false} WireAllConcat(a: seq<Frame>, b: seq<Frame>)
    ensures WireAll(a + b) == WireAll(a) + WireAll(b)
  {
    if a == [] {
      assert a + b == b;
    } else {
      WireAllConcat(a[1..], b);
      assert (a + b)[0] == a[0] && (a + b)[1..] == a[1..] + b;
      Regroup(Wire(a[0]), WireAll(a[1..]), WireAll(b));
    }
  }

  lemma {:induction false} PayloadsConcat(a: seq<Frame>, b: seq<Frame>)
    ensures Payloads(a + b) == Payloads(a) + Payloads(b)
  {
    if a == [] {
      assert a + b == b;
    } else {
      PayloadsConcat(a[1..], b);
      assert (a + b)[1..] == a[1..] + b;
      Regroup([a[0].payload], Payloads(a[1..]), Payloads(b));
    }
  }

  // ----- what the callers do with a packet

  /** A caller on a magic and a payload: whether it accepts the packet, and its state afterwards. */
  type Handler<!S> = (S, nat, seq<Byte>) -> (bool, S)

  function Verdict<S>(f: Frame, handle: Handler<S>, state: S): (bool, S) {
    handle(state, Magic(f.header), f.payload)
  }

  /** The caller's state once it has been given these frames. */
  function StateAfter<S>(frames: seq<Frame>, handle: Handler<S>, start: S): S
    decreases |frames|
  {
    if frames == [] then start
    else
      var last := |frames| - 1;
      Verdict(frames[last], handle, StateAfter(frames[..last], handle, start)).1
  }

  /** Each of the frames is accepted in the state that those before it leave the caller in. */
  predicate AllAccepted<S>(frames: seq<Frame>, handle: Handler<S>, start: S)
    decreases |frames|
  {
    if frames == [] then true
    else
      var last := |frames| - 1;
      && AllAccepted(frames[..last], handle, start)
      && Verdict(frames[last], handle, StateAfter(frames[..last], handle, start)).0
  }

  lemma OneMoreAccepted<S>(done: seq<Frame>, f: Frame, handle: Handler<S>, start: S)
    ensures StateAfter(done + [f], handle, start) == Verdict(f, handle, StateAfter(done, handle, start)).1
    ensures AllAccepted(done + [f], handle, start)
      <==> AllAccepted(done, handle, start) && Verdict(f, handle, StateAfter(done, handle, start)).0
  {
    assert (done + [f])[..|done|] == done;
  }

  lemma {:induction false} AcceptedConcat<S>(a: seq<Frame>, b: seq<Frame>, handle: Handler<S>, start: S)
    ensures StateAfter(a + b, handle, start) == StateAfter(b, handle, StateAfter(a, handle, start))
    ensures AllAccepted(a + b, handle, start)
      <==> AllAccepted(a, handle, start) && AllAccepted(b, handle, StateAfter(a, handle, start))
    decreases |b|
  {
    if b == [] {
      assert a + b == a;
    } else {
      var front, f := b[..|b| - 1], b[|b| - 1];
      AcceptedConcat(a, front, handle, start);
      assert b == front + [f] && a + b == (a + front) + [f];
      OneMoreAccepted(a + front, f, handle, start);
      OneMoreAccepted(front, f, handle, StateAfter(a, handle, start));
    }
  }

  /** How a caller's loop ends: for want of bytes, on a bad header, or on a packet that it does not accept. */
  datatype Outcome = More | BadHeader | Refused

  /** The caller has accepted the frames delivered, and its state is what they, or the one refused, left it in. */
  ghost predicate CallerAt<S>(outcome: Outcome, handle: Handler<S>, start: S, done: seq<Frame>, rest: seq<Frame>,
                              state: S)
  {
    && AllAccepted(done, handle, start)
    && var accepted := StateAfter(done, handle, start);
       if outcome == Refused then rest != [] && Verdict(rest[0], handle, accepted) == (false, state)
       else state == accepted
  }

  lemma NothingDelivered<S>(handle: Handler<S>, start: S, frames: seq<Frame>, stream: seq<Byte>, tail: seq<Byte>,
                            future: seq<Byte>)
    requires AllWellFormed(frames) && InStream(stream, future, frames, tail)
    ensures CallerAt(More, handle, start, [], frames, start) && Progress(stream, [], stream, frames, tail, future)
  {
  }

  lemma CallerGoesOn<S>(outcome: Outcome, handle: Handler<S>, start: S, done: seq<Frame>, now: seq<Frame>,
                        rest: seq<Frame>, between: S, state: S)
    requires CallerAt(More, handle, start, done, now + rest, between)
    requires CallerAt(outcome, handle, between, now, rest, state)
    ensures CallerAt(outcome, handle, start, done + now, rest, state)
  {
    AcceptedConcat(done, now, handle, start);
  }

  /** Where every frame would be accepted, none is refused. */
  lemma NotRefused<S>(handle: Handler<S>, start: S, done: seq<Frame>, rest: seq<Frame>, state: S)
    requires AllAccepted(done + rest, handle, start)
    ensures !CallerAt(Refused, handle, start, done, rest, state)
  {
    if rest != [] {
      var f := rest[0];
      assert done + rest == (done + [f]) + rest[1..];
      AcceptedConcat(done + [f], rest[1..], handle, start);
      OneMoreAccepted(done, f, handle, start);
    }
  }

  // ----- the server's caller

  /**
   `rTermManager`: a login is accepted once, and data after it only; the contents are judged by the
   handlers. The state after a refusal does not matter, because the connection is closed.
   */
  function TermManager(login: nat, data: nat, goodLogin: seq<Byte> -> bool, goodData: seq<Byte> -> bool)
    : Handler<bool>
  {
    (loggedIn, magic, payload) =>
      if magic == login then (!loggedIn && goodLogin(payload), true)
      else (magic == data && loggedIn && goodData(payload), loggedIn)
  }

  predicate LoginThenData(frames: seq<Frame>, login: nat, data: nat, goodLogin: seq<Byte> -> bool,
                          goodData: seq<Byte> -> bool)
  {
    forall i :: 0 <= i < |frames| ==>
      if i == 0 then Magic(frames[i].header) == login && goodLogin(frames[i].payload)
      else Magic(frames[i].header) == data && goodData(frames[i].payload)
  }

  /** The server accepts exactly one good login followed by good data. */
  lemma {:induction false} AcceptedIsLoginThenData(frames: seq<Frame>, login: nat, data: nat,
                                                   goodLogin: seq<Byte> -> bool, goodData: seq<Byte> -> bool)
    requires login != data
    ensures AllAccepted(frames, TermManager(login, data, goodLogin, goodData), false)
      <==> LoginThenData(frames, login, data, goodLogin, goodData)
    ensures LoginThenData(frames, login, data, goodLogin, goodData) ==>
      StateAfter(frames, TermManager(login, data, goodLogin, goodData), false) == (frames != [])
    decreases |frames|
  {
    if frames != [] {
      var front, f := frames[..|frames| - 1], frames[|frames| - 1];
      AcceptedIsLoginThenData(front, login, data, goodLogin, goodData);
      assert frames == front + [f];
      OneMoreAccepted(front, f, TermManager(login, data, goodLogin, goodData), false);
      assert LoginThenData(frames, login, data, goodLogin, goodData) ==>
        LoginThenData(front, login, data, goodLogin, goodData);
    }
  }

  /** A stream taken apart: the frames delivered, the bytes left, and the frames that these begin. */
  ghost predicate Progress(stream: seq<Byte>, done: seq<Frame>, left: seq<Byte>, rest: seq<Frame>,
                           tail: seq<Byte>, future: seq<Byte>)
  {
    AllWellFormed(rest) && stream == WireAll(done) + left && InStream(left, future, rest, tail)
  }

  /** One frame passes from the frames to come to those delivered. */
  lemma FrameDelivered(stream: seq<Byte>, done: seq<Frame>, rest: seq<Frame>, tail: seq<Byte>, future: seq<Byte>,
                       pending: seq<Byte>, left: seq<Byte>)
    requires Progress(stream, done, pending, rest, tail, future)
    requires rest != [] && pending == Wire(rest[0]) + left && InStream(left, future, rest[1..], tail)
    ensures Progress(stream, done + [rest[0]], left, rest[1..], tail, future)
  {
    var f := rest[0];
    OneFrame(f);
    WireAllConcat(done, [f]);
    Regroup(WireAll(done), Wire(f), left);
    assert forall i :: 0 <= i < |rest[1..]| ==> rest[1..][i] == rest[i + 1];
  }

  lemma OneFrame(f: Frame)
    ensures WireAll([f]) == Wire(f) && Payloads([f]) == [f.payload]
  {
    assert Wire(f) + [] == Wire(f);
  }

  lemma OneMoreDone(done: seq<Frame>, rest: seq<Frame>)
    requires rest != []
    ensures done + rest == (done + [rest[0]]) + rest[1..]
    ensures Payloads(done + [rest[0]]) == Payloads(done) + [rest[0].payload]
  {
    OneFrame(rest[0]);
    PayloadsConcat(done, [rest[0]]);
  }

  /** The pending bytes and the next chunk stay in the stream of the frames to come. */
  lemma NextChunk(chunks: seq<seq<Byte>>, i: nat, done: seq<Frame>, rest: seq<Frame>, tail: seq<Byte>,
                  pending: seq<Byte>, future: seq<Byte>)
    requires i < |chunks|
    requires InStream(pending, Concat(chunks[i..]) + future, rest, tail)
    ensures InStream(pending + chunks[i], Concat(chunks[i + 1..]) + future, rest, tail)
    ensures Received(chunks, i) == WireAll(done) + pending ==>
      Received(chunks, i + 1) == WireAll(done) + (pending + chunks[i])
  {
    assert chunks[i..][1..] == chunks[i + 1..];
    Regroup(chunks[i], Concat(chunks[i + 1..]), future);
    Regroup(pending, chunks[i], Concat(chunks[i + 1..]) + future);
    Regroup(WireAll(done), pending, chunks[i]);
  }

  datatype Status = NotYet | Ready | RecvError

  class Client {
    var buff: seq<Byte>
    var header: Header
    const crc: Crc32

    ghost predicate Valid()
      reads this, crc, crc.table
    {
      && crc.Valid() && crc.poly == POLY32
      && (Present(header) ==> GoodCrc(header))
    }

    /** Nothing buffered and no header in hand. */
    predicate Fresh()
      reads this
    {
      buff == [] && Magic(header) == 0 && DataSize(header) == 0
    }

    /** The bytes received and not yet delivered, a header in hand counted with them. */
    function Pending(): seq<Byte>
      reads this
    {
      if Present(header) then header + buff else buff
    }

    constructor ()
      ensures Valid() && Fresh() && fresh(crc) && fresh(crc.table)
    {
      buff := [];
      header := Zeros(HEADER_SIZE);
      crc := new Crc32(POLY32);
    }

    method ClearHeader()
      modifies this
      ensures Magic(header) == 0 && DataSize(header) == 0
      ensures header[4..12] == old(header)[4..12] && header[16..] == old(header)[16..]
      ensures buff == old(buff)
    {
      header := Zeros(4) + header[4..12] + Zeros(4) + header[16..];
    }

    method CheckBuffer() returns (status: Status)
      requires Valid()
      modifies this
      ensures Valid()
      ensures old(Present(header)) ==>
        header == old(header) && buff == old(buff) && status == if |buff| < DataSize(header) then NotYet else Ready
      ensures !old(Present(header)) ==>
        if |old(buff)| < HEADER_SIZE then header == old(header) && buff == old(buff) && status == NotYet
        else if GoodCrc(old(buff)[..HEADER_SIZE]) then
          && header == old(buff)[..HEADER_SIZE] && buff == old(buff)[HEADER_SIZE..]
          && status == if |buff| < DataSize(header) then NotYet else Ready
        else Fresh() && status == RecvError
    {
      if Magic(header) == 0 || DataSize(header) == 0 {
        if |buff| < HEADER_SIZE {
          return NotYet;
        }
        header := buff[..HEADER_SIZE];
        var crc32 := crc.Get(header[..16]);
        if crc32 != CrcField(header) {
          ClearHeader();
          buff := [];
          return RecvError;
        }
        buff := buff[HEADER_SIZE..];
      }
      status := if |buff| < DataSize(header) then NotYet else Ready;
    }

    /** A header is either in hand or cleared. */
    predicate Settled()
      reads this
    {
      Present(header) || (Magic(header) == 0 && DataSize(header) == 0)
    }

    /** What a status says about the bytes in hand. */
    ghost predicate Looked(status: Status)
      reads this
    {
      match status
      case Ready => Present(header) && |buff| >= DataSize(header)
      case NotYet => if Present(header) then |buff| < DataSize(header) else |buff| < HEADER_SIZE
      case RecvError => Fresh()
    }

    /** `checkBuffer` on a stream of well-formed frames: only a bad header can fail. */
    method Look(ghost frames: seq<Frame>, ghost tail: seq<Byte>, ghost future: seq<Byte>) returns (status: Status)
      requires Valid() && Settled()
      requires AllWellFormed(frames)
      requires EndsOrFails(tail) && InStream(Pending(), future, frames, tail)
      modifies this
      ensures Valid() && Settled() && Looked(status)
      ensures status != RecvError ==> Pending() == old(Pending())
      ensures status == RecvError ==> frames == [] && tail != []
    {
      if |buff| >= HEADER_SIZE && !Present(header) {
        var head, rest := buff[..HEADER_SIZE], buff[HEADER_SIZE..];
        assert buff == head + rest;
        FirstHeader(frames, tail, head, rest, future);
      }
      status := CheckBuffer();
    }

    method Recv(chunk: seq<Byte>, ghost frames: seq<Frame>, ghost tail: seq<Byte>, ghost future: seq<Byte>)
      returns (status: Status)
      requires Valid() && Settled()
      requires AllWellFormed(frames)
      requires EndsOrFails(tail) && InStream(Pending() + chunk, future, frames, tail)
      modifies this
      ensures Valid() && Settled() && Looked(status)
      ensures status != RecvError ==> Pending() == old(Pending()) + chunk
      ensures status == RecvError ==> frames == [] && tail != []
    {
      ghost var pending := Pending();
      buff := buff + chunk;
      assert Pending() == pending + chunk;
      status := Look(frames, tail, future);
    }

    /** Drops the packet at the front of the buffer together with its header. */
    method ClearPacket()
      requires Valid()
      modifies this
      ensures Valid()
      ensures !Present(header) && Magic(header) == 0 && DataSize(header) == 0
      ensures buff == old(if DataSize(header) >= |buff| then [] else buff[DataSize(header)..])
    {
      if DataSize(header) >= |buff| {
        buff := [];
      } else {
        buff := buff[DataSize(header)..];
      }
      ClearHeader();
    }

    function GetPacket(): (r: seq<Byte>)
      reads this
      ensures Present(header) && DataSize(header) <= |buff| ==> r == buff[..DataSize(header)]
      ensures !Present(header) || DataSize(header) > |buff| ==> r == []
    {
      if Magic(header) == 0 || DataSize(header) == 0 || |buff| < DataSize(header) then [] else buff[..DataSize(header)]
    }

    /** A complete packet is the first frame's. */
    lemma PacketInHand(frames: seq<Frame>, tail: seq<Byte>, future: seq<Byte>)
      requires Valid() && Looked(Ready)
      requires AllWellFormed(frames)
      requires EndsOrFails(tail) && InStream(Pending(), future, frames, tail)
      ensures frames != [] && header == frames[0].header && GetPacket() == frames[0].payload
      ensures var left := buff[DataSize(header)..];
        Pending() == Wire(frames[0]) + left && InStream(left, future, frames[1..], tail)
    {
      HeaderInHand(frames, tail, header, buff, future);
      var payload, left := buff[..DataSize(header)], buff[DataSize(header)..];
      assert buff == payload + left;
      Regroup(payload, left, future);
      SamePrefix(payload, left + future, frames[0].payload, WireAll(frames[1..]) + tail);
    }

    /** The body of the callers' loops: one packet is handled and dropped, and the buffer looked at again. */
    method Deliver<S>(handle: Handler<S>, state: S, ghost frames: seq<Frame>, ghost tail: seq<Byte>,
                      ghost future: seq<Byte>)
      returns (packet: seq<Byte>, handled: bool, next: S, status: Status, ghost left: seq<Byte>)
      requires Valid() && Settled() && Looked(Ready)
      requires AllWellFormed(frames)
      requires EndsOrFails(tail) && InStream(Pending(), future, frames, tail)
      modifies this
      ensures Valid() && Settled() && Looked(status)
      ensures frames != [] && packet == frames[0].payload && (handled, next) == Verdict(frames[0], handle, state)
      ensures !handled ==> header == old(header) && buff == old(buff) && status == Ready
      ensures handled ==> old(Pending()) == Wire(frames[0]) + left && InStream(left, future, frames[1..], tail)
      ensures handled && status != RecvError ==> Pending() == left
      ensures handled && status == RecvError ==> |frames| == 1 && tail != []
    {
      PacketInHand(frames, tail, future);
      packet, status := GetPacket(), Ready;
      var verdict := handle(state, Magic(header), packet);
      handled, next := verdict.0, verdict.1;
      left := buff[DataSize(header)..];
      if handled {
        ClearPacket();
        assert Pending() == buff == left;
        status := Look(frames[1..], tail, future);
      }
    }

    /** What is known of a stream while its packets are taken out. */
    ghost predicate Reading(status: Status, stream: seq<Byte>, done: seq<Frame>, left: seq<Byte>, rest: seq<Frame>,
                            tail: seq<Byte>, future: seq<Byte>)
      reads this
    {
      && Settled() && Looked(status)
      && Progress(stream, done, left, rest, tail, future)
      && (if status == RecvError then rest == [] && tail != [] else Pending() == left)
    }

    method DeliverNext<S>(handle: Handler<S>, state: S, ghost start: S, ghost stream: seq<Byte>, ghost done: seq<Frame>,
                          ghost rest: seq<Frame>, ghost tail: seq<Byte>, ghost future: seq<Byte>)
      returns (packet: seq<Byte>, handled: bool, next: S, status: Status,
               ghost done': seq<Frame>, ghost left: seq<Byte>, ghost rest': seq<Frame>)
      requires Valid() && EndsOrFails(tail) && CallerAt(More, handle, start, done, rest, state)
      requires Reading(Ready, stream, done, Pending(), rest, tail, future)
      modifies this
      ensures Valid() && Reading(status, stream, done', left, rest', tail, future)
      ensures done' + rest' == done + rest
      ensures CallerAt(if handled then More else Refused, handle, start, done', rest', next)
      ensures handled ==> Payloads(done') == Payloads(done) + [packet] && |rest'| < |rest|
      ensures !handled ==> done' == done && status == Ready
    {
      ghost var pending := Pending();
      packet, handled, next, status, left := Deliver(handle, state, rest, tail, future);
      if handled {
        FrameDelivered(stream, done, rest, tail, future, pending, left);
        OneMoreDone(done, rest);
        OneMoreAccepted(done, rest[0], handle, start);
        done', rest' := done + [rest[0]], rest[1..];
      } else {
        done', left, rest' := done, pending, rest;
      }
    }

    /**
     One chunk arrives and every packet it completes is handled, as the callers' loops do.
     Of the `frames` not delivered yet, `done` are delivered now and `rest` are still to come.
     */
    method Receive<S>(handle: Handler<S>, start: S, chunk: seq<Byte>, ghost frames: seq<Frame>, ghost tail: seq<Byte>,
                      ghost future: seq<Byte>)
      returns (packets: seq<seq<Byte>>, outcome: Outcome, state: S, ghost done: seq<Frame>, ghost rest: seq<Frame>)
      requires Valid() && Settled()
      requires AllWellFormed(frames)
      requires EndsOrFails(tail) && InStream(Pending() + chunk, future, frames, tail)
      modifies this
      ensures Valid() && Settled()
      ensures frames == done + rest && packets == Payloads(done)
      ensures CallerAt(outcome, handle, start, done, rest, state)
      ensures outcome != BadHeader ==> Progress(old(Pending()) + chunk, done, Pending(), rest, tail, future)
      ensures outcome == More ==> Looked(NotYet)
      ensures outcome == BadHeader ==> rest == [] && tail != [] && Fresh()
      ensures outcome == Refused ==> Looked(Ready)
    {
      ghost var stream := Pending() + chunk;
      var data := Recv(chunk, frames, tail, future);
      NothingDelivered(handle, start, frames, stream, tail, future);
      packets, outcome, state, done, rest := DeliverAll(handle, start, data, stream, frames, tail, future);
    }

    /** The callers' loop over the packets that are complete. */
    method DeliverAll<S>(handle: Handler<S>, start: S, status: Status, ghost stream: seq<Byte>,
                         ghost frames: seq<Frame>, ghost tail: seq<Byte>, ghost future: seq<Byte>)
      returns (packets: seq<seq<Byte>>, outcome: Outcome, state: S, ghost done: seq<Frame>, ghost rest: seq<Frame>)
      requires Valid() && EndsOrFails(tail) && CallerAt(More, handle, start, [], frames, start)
      requires Reading(status, stream, [], stream, frames, tail, future)
      modifies this
      ensures Valid() && Settled()
      ensures frames == done + rest && packets == Payloads(done)
      ensures CallerAt(outcome, handle, start, done, rest, state)
      ensures outcome != BadHeader ==> Progress(stream, done, Pending(), rest, tail, future)
      ensures outcome == More ==> Looked(NotYet)
      ensures outcome == BadHeader ==> rest == [] && tail != [] && Fresh()
      ensures outcome == Refused ==> Looked(Ready)
    {
      ghost var left := stream;
      packets, done, rest, state := [], [], frames, start;
      var data := status;
      while data == Ready
        invariant Valid() && Reading(data, stream, done, left, rest, tail, future)
        invariant frames == done + rest && packets == Payloads(done)
        invariant CallerAt(More, handle, start, done, rest, state)
        decreases |rest|
      {
        var packet, handled;
        packet, handled, state, data, done, left, rest :=
          DeliverNext(handle, state, start, stream, done, rest, tail, future);
        if !handled {
          return packets, Refused, state, done, rest;
        }
        packets := packets + [packet];
      }
      outcome := if data == RecvError then BadHeader else More;
    }

    /** What is left when no packet is complete is less than a frame, or less than a header after the last. */
    lemma Leftover(frames: seq<Frame>, tail: seq<Byte>, future: seq<Byte>)
      requires Valid() && Settled() && Looked(NotYet)
      requires AllWellFormed(frames)
      requires EndsOrFails(tail) && InStream(Pending(), future, frames, tail)
      ensures |Pending()| < if frames == [] then HEADER_SIZE else |Wire(frames[0])|
      ensures frames == [] && tail == [] ==> Fresh()
    {
      if Present(header) {
        HeaderInHand(frames, tail, header, buff, future);
      } else if frames == [] && tail == [] {
        assert |Pending() + future| == 0;
      }
    }

    /**
     A whole session: the packets delivered are the payloads of the frames received in full,
     in order and once each, up to the first one that is not accepted; and what is still
     pending after `got` chunks is the undelivered end of what they brought.
     `future` is the part of the stream that no chunk has brought yet.
     */
    method Session<S>(handle: Handler<S>, start: S, chunks: seq<seq<Byte>>, ghost frames: seq<Frame>,
                      ghost tail: seq<Byte>, ghost future: seq<Byte>)
      returns (packets: seq<seq<Byte>>, outcome: Outcome, got: nat, state: S,
               ghost done: seq<Frame>, ghost rest: seq<Frame>)
      requires Valid() && Fresh()
      requires AllWellFormed(frames)
      requires EndsOrFails(tail) && Concat(chunks) + future == WireAll(frames) + tail
      modifies this
      ensures Valid() && got <= |chunks|
      ensures frames == done + rest && packets == Payloads(done)
      ensures CallerAt(outcome, handle, start, done, rest, state)
      ensures outcome != BadHeader ==> Received(chunks, got) == WireAll(done) + Pending()
      ensures outcome == More ==> got == |chunks| && Received(chunks, got) == Concat(chunks)
      ensures outcome == More ==> |Pending()| < if rest == [] then HEADER_SIZE else |Wire(rest[0])|
      ensures outcome == More && future == [] && tail == [] ==> rest == [] && packets == Payloads(frames) && Fresh()
      ensures outcome == BadHeader ==> packets == Payloads(frames) && tail != [] && Fresh()
      ensures outcome == Refused ==> |Pending()| >= |Wire(rest[0])|
      ensures AllAccepted(frames, handle, start) ==> outcome != Refused
    {
      assert chunks[0..] == chunks;
      StreamBegins(chunks, frames, tail, future);
      packets, outcome, got, state, done, rest := RunChunks(handle, start, chunks, frames, tail, future);
      if outcome == More {
        SessionEnd(chunks, done, rest, tail, future);
      } else if outcome == Refused {
        RefusedInHand(chunks, got, done, rest, tail, future);
        if AllAccepted(frames, handle, start) {
          NotRefused(handle, start, done, rest, state);
        }
      }
      assert rest == [] ==> done == frames;
    }

    /** A session with the server: what it delivers is one good login and good data, up to the first other packet. */
    method ServerSession(login: nat, data: nat, goodLogin: seq<Byte> -> bool, goodData: seq<Byte> -> bool,
                         chunks: seq<seq<Byte>>, ghost frames: seq<Frame>, ghost tail: seq<Byte>,
                         ghost future: seq<Byte>)
      returns (packets: seq<seq<Byte>>, outcome: Outcome, ghost done: seq<Frame>, ghost rest: seq<Frame>)
      requires Valid() && Fresh() && login != data
      requires AllWellFormed(frames)
      requires EndsOrFails(tail) && Concat(chunks) + future == WireAll(frames) + tail
      modifies this
      ensures frames == done + rest && packets == Payloads(done)
      ensures LoginThenData(done, login, data, goodLogin, goodData)
      ensures outcome == Refused ==>
        rest != [] && !LoginThenData(done + [rest[0]], login, data, goodLogin, goodData)
      ensures outcome == More && future == [] && tail == [] ==> rest == []
    {
      var got, loggedIn;
      var handle := TermManager(login, data, goodLogin, goodData);
      packets, outcome, got, loggedIn, done, rest := Session(handle, false, chunks, frames, tail, future);
      AcceptedIsLoginThenData(done, login, data, goodLogin, goodData);
      if outcome == Refused {
        OneMoreAccepted(done, rest[0], handle, false);
        AcceptedIsLoginThenData(done + [rest[0]], login, data, goodLogin, goodData);
      }
    }

    /** The chunks one after the other, for as long as the caller goes on. */
    method RunChunks<S>(handle: Handler<S>, start: S, chunks: seq<seq<Byte>>, ghost frames: seq<Frame>,
                        ghost tail: seq<Byte>, ghost future: seq<Byte>)
      returns (packets: seq<seq<Byte>>, outcome: Outcome, got: nat, state: S,
               ghost done: seq<Frame>, ghost rest: seq<Frame>)
      requires Valid() && EndsOrFails(tail) && Looked(NotYet)
      requires InHand(chunks, 0, [], frames, tail, future)
      modifies this
      ensures Valid() && got <= |chunks| && (outcome == More ==> got == |chunks|)
      ensures frames == done + rest && packets == Payloads(done)
      ensures CallerAt(outcome, handle, start, done, rest, state)
      ensures Stands(outcome, chunks, got, done, rest, tail, future)
    {
      packets, outcome, got, state, done, rest := [], More, 0, start, [], frames;
      while got < |chunks| && outcome == More
        invariant got <= |chunks| && Valid()
        invariant frames == done + rest && packets == Payloads(done)
        invariant CallerAt(outcome, handle, start, done, rest, state)
        invariant Stands(outcome, chunks, got, done, rest, tail, future)
        decreases |chunks| - got
      {
        var more;
        more, outcome, state, done, rest := NextReceive(handle, state, start, chunks, got, done, rest, tail, future);
        packets := packets + more;
        got := got + 1;
      }
    }

    /** Where the bytes stand after some chunks. */
    ghost predicate Stands(outcome: Outcome, chunks: seq<seq<Byte>>, i: nat, done: seq<Frame>, rest: seq<Frame>,
                           tail: seq<Byte>, future: seq<Byte>)
      requires i <= |chunks|
      reads this
    {
      match outcome
      case More => InHand(chunks, i, done, rest, tail, future) && Looked(NotYet)
      case BadHeader => rest == [] && tail != [] && Fresh()
      case Refused => InHand(chunks, i, done, rest, tail, future) && Looked(Ready)
    }

    /** After some chunks: what has come is the frames delivered and the bytes pending. */
    ghost predicate InHand(chunks: seq<seq<Byte>>, i: nat, done: seq<Frame>, rest: seq<Frame>, tail: seq<Byte>,
                           future: seq<Byte>)
      requires i <= |chunks|
      reads this
    {
      Settled() && Progress(Received(chunks, i), done, Pending(), rest, tail, Concat(chunks[i..]) + future)
    }

    /** All chunks have come. */
    lemma SessionEnd(chunks: seq<seq<Byte>>, done: seq<Frame>, rest: seq<Frame>, tail: seq<Byte>, future: seq<Byte>)
      requires Valid() && EndsOrFails(tail) && Looked(NotYet)
      requires InHand(chunks, |chunks|, done, rest, tail, future)
      ensures Received(chunks, |chunks|) == Concat(chunks)
      ensures |Pending()| < if rest == [] then HEADER_SIZE else |Wire(rest[0])|
      ensures future == [] && tail == [] ==> rest == [] && Fresh()
    {
      ReceivedAndToCome(chunks, |chunks|);
      assert chunks[|chunks|..] == [];
      assert Received(chunks, |chunks|) + [] == Received(chunks, |chunks|);
      Leftover(rest, tail, Concat([]) + future);
      NothingMissing(rest, Pending(), future, tail);
    }

    /** A packet that was not accepted is still there. */
    lemma RefusedInHand(chunks: seq<seq<Byte>>, i: nat, done: seq<Frame>, rest: seq<Frame>, tail: seq<Byte>,
                        future: seq<Byte>)
      requires i <= |chunks| && Valid() && EndsOrFails(tail) && Looked(Ready)
      requires InHand(chunks, i, done, rest, tail, future)
      ensures rest != [] && |Pending()| >= |Wire(rest[0])|
    {
      PacketInHand(rest, tail, Concat(chunks[i..]) + future);
    }

    method NextReceive<S>(handle: Handler<S>, before: S, ghost start: S, chunks: seq<seq<Byte>>, i: nat,
                          ghost done: seq<Frame>, ghost rest: seq<Frame>, ghost tail: seq<Byte>,
                          ghost future: seq<Byte>)
      returns (more: seq<seq<Byte>>, outcome: Outcome, state: S, ghost done': seq<Frame>, ghost rest': seq<Frame>)
      requires Valid() && EndsOrFails(tail) && CallerAt(More, handle, start, done, rest, before)
      requires i < |chunks| && Stands(More, chunks, i, done, rest, tail, future)
      modifies this
      ensures Valid() && done' + rest' == done + rest && Payloads(done') == Payloads(done) + more
      ensures CallerAt(outcome, handle, start, done', rest', state)
      ensures Stands(outcome, chunks, i + 1, done', rest', tail, future)
    {
      ghost var pending := Pending();
      NextChunk(chunks, i, done, rest, tail, pending, future);
      ghost var now: seq<Frame>;
      more, outcome, state, now, rest' :=
        Receive(handle, before, chunks[i], rest, tail, Concat(chunks[i + 1..]) + future);
      done' := done + now;
      PayloadsConcat(done, now);
      CallerGoesOn(outcome, handle, start, done, now, rest', before, state);
      Regroup(done, now, rest');
      if outcome != BadHeader {
        StreamGoesOn(Received(chunks, i + 1), pending + chunks[i], done, now, Pending());
      }
    }

    /** The wire image that `send` writes for a serialized message, whose size is a 32-bit field. */
    method Send(payload: seq<Byte>, magic: nat) returns (wire: seq<Byte>, ghost f: Frame)
      requires Valid() && 0 < magic < WIDTH32 && 0 < |payload| < WIDTH32
      ensures wire == Wire(f) && WellFormed(f) && f.payload == payload && Magic(f.header) == magic
      ensures f.header[4..12] == [0, 1] + Zeros(6)
    {
      var version, flags, reserved := [0, 1], Zeros(2), Zeros(4);
      var start := LittleEndian(magic) + version + flags + reserved + LittleEndian(|payload|);
      var crc32 := crc.Get(start);
      ChecksumFits(start);
      var header: Header := start + LittleEndian(crc32);
      assert header[..16] == start && header[16..20] == LittleEndian(crc32);
      assert header[4..12] == [0, 1] + Zeros(2) + Zeros(4) == [0, 1] + Zeros(6);
      assert header[0..4] == LittleEndian(magic) && header[12..16] == LittleEndian(|payload|);
      WordRoundTrip(magic, header, 0);
      WordRoundTrip(|payload|, header, 12);
      WordRoundTrip(crc32, header, 16);
      f := Frame(header, payload);
      wire := header + payload;
    }
  }

  lemma StreamBegins(chunks: seq<seq<Byte>>, frames: seq<Frame>, tail: seq<Byte>, future: seq<Byte>)
    requires AllWellFormed(frames) && Concat(chunks) + future == WireAll(frames) + tail
    ensures Progress(Received(chunks, 0), [], [], frames, tail, Concat(chunks) + future)
  {
    assert [] + (Concat(chunks) + future) == Concat(chunks) + future;
  }

  /** The frames delivered from the end of a stream join those delivered before. */
  lemma StreamGoesOn(stream: seq<Byte>, end: seq<Byte>, done: seq<Frame>, now: seq<Frame>, left: seq<Byte>)
    requires stream == WireAll(done) + end && end == WireAll(now) + left
    ensures stream == WireAll(done + now) + left
  {
    WireAllConcat(done, now);
    Regroup(WireAll(done), WireAll(now), left);
  }

  lemma ChecksumFits(data: seq<Byte>)
    ensures 0 <= Checksum32(POLY32, data) < WIDTH32
  {
    PowersOfTwo();
    BitSerialBound(POLY32, 0xFFFF_FFFF, data, 32);
  }

  lemma {:induction false} ReceivedAndToCome(chunks: seq<seq<Byte>>, i: nat)
    requires i <= |chunks|
    ensures Concat(chunks) == Received(chunks, i) + Concat(chunks[i..])
  {
    if i == 0 {
      assert chunks[0..] == chunks;
    } else {
      ReceivedAndToCome(chunks, i - 1);
      assert chunks[i - 1..][1..] == chunks[i..];
      Regroup(Received(chunks, i - 1), chunks[i - 1], Concat(chunks[i..]));
    }
  }

  /** If the pending bytes are all that remains of the frames, no frame remains. */
  lemma NothingMissing(rest: seq<Frame>, pending: seq<Byte>, future: seq<Byte>, tail: seq<Byte>)
    requires InStream(pending, Concat([]) + future, rest, tail)
    requires rest != [] ==> |pending| < |Wire(rest[0])|
    ensures future == [] && tail == [] ==> rest == []
  {
  }
}
