/** The startup handoff (key_handoff.py) between the initiator and the server it spawns, over a
    stream socket that fragments arbitrarily, and what it says about the server's startup. */
module Handoff {
  import opened Wrappers
  import opened ByteCodec

  type Bytes = seq<byte>

  datatype SocketError = ConnectionError | TimeoutError

  /** One end of a stream socket pair: the bytes still to be received before the other end closes, the
      bytes sent, whether the other end has been closed, and the number of receive calls after which the
      timeout expires, if it does and one is set. */
  class Socket {
    var incoming: Bytes
    var outgoing: Bytes
    var hasTimeout: bool
    var peerClosed: bool
    var expiresAfter: Option<nat>

    constructor (incoming: Bytes, expiresAfter: Option<nat>)
      ensures this.incoming == incoming && outgoing == [] && !hasTimeout && !peerClosed
      ensures this.expiresAfter == expiresAfter
    {
      this.expiresAfter := expiresAfter;
      this.peerClosed := false;
      this.incoming := incoming;
      this.outgoing := [];
      this.hasTimeout := false;
    }

    /** sendall raises BrokenPipeError where the other end is closed. */
    method SendAll(data: Bytes) returns (sent: bool)
      modifies this`outgoing
      ensures sent <==> !peerClosed
      ensures outgoing == if sent then old(outgoing) + data else old(outgoing)
    {
      if !peerClosed {
        outgoing := outgoing + data;
      }
      return !peerClosed;
    }

    /** The timeout expires at the next receive call. */
    predicate Expires()
      reads this
    {
      hasTimeout && expiresAfter == Some(0)
    }

    /** Any non-empty part of what is there, up to n bytes; nothing once the other end has closed. It
        fails exactly where the timeout expires. */
    method Recv(n: nat) returns (r: Result<Bytes, SocketError>)
      requires n > 0
      modifies this`incoming, this`expiresAfter
      ensures r.Failure? <==> old(Expires())
      ensures r.Failure? ==> r.error == TimeoutError && incoming == old(incoming)
      ensures r.Success? ==> |r.value| <= n && r.value + incoming == old(incoming)
      ensures r.Success? ==> (r.value == [] <==> old(incoming) == [])
      ensures expiresAfter.None? <==> old(expiresAfter).None?
    {
      if Expires() {
        return Failure(TimeoutError);
      }
      if expiresAfter.Some? && expiresAfter.value > 0 {
        expiresAfter := Some(expiresAfter.value - 1);
      }
      if incoming == [] {
        return Success([]);
      }
      var k :| 1 <= k <= n && k <= |incoming|;
      r := Success(incoming[..k]);
      incoming := incoming[k..];
    }
  }

  /** `_recv_exact`: exactly the next size bytes, however they are fragmented. */
  method RecvExact(sock: Socket, size: nat) returns (r: Result<Bytes, SocketError>)
    modifies sock`incoming, sock`expiresAfter
    ensures r.Success? ==> size <= |old(sock.incoming)|
                           && r.value == old(sock.incoming)[..size] && sock.incoming == old(sock.incoming)[size..]
    ensures r.Failure? && r.error.ConnectionError? ==> |old(sock.incoming)| < size
    ensures r.Failure? && r.error.TimeoutError? ==> sock.hasTimeout && old(sock.expiresAfter).Some?
    ensures size > 0 && sock.hasTimeout && old(sock.expiresAfter) == Some(0) ==> r == Failure(TimeoutError)
    ensures size == 1 && r.Failure? && r.error.TimeoutError? ==> sock.hasTimeout && old(sock.expiresAfter) == Some(0)
    ensures sock.expiresAfter.None? <==> old(sock.expiresAfter).None?
  {
    var data: Bytes := [];
    var remaining := size;
    while remaining > 0
      invariant remaining >= 0 && |data| + remaining == size && data + sock.incoming == old(sock.incoming)
      invariant sock.expiresAfter.None? <==> old(sock.expiresAfter).None?
      invariant remaining == size ==> (sock.Expires() <==> old(sock.Expires()))
      invariant remaining < size ==> size > 0 && !old(sock.Expires())
    {
      var chunk := sock.Recv(remaining);
      if chunk.Failure? {
        return Failure(TimeoutError);
      }
      if chunk.value == [] {
        assert sock.incoming == [] && data + [] == data;
        return Failure(ConnectionError);
      }
      assert (data + chunk.value) + sock.incoming == data + (chunk.value + sock.incoming);
      data := data + chunk.value;
      remaining := remaining - |chunk.value|;
    }
    assert old(sock.incoming)[..size] == data && old(sock.incoming)[size..] == sock.incoming;
    return Success(data);
  }

  const LENGTH_SIZE: nat := 4
  const STATUS_OK: Bytes := [0]
  const STATUS_ERR: Bytes := [1]

  /** The payloads struct.pack("!I", len(payload)) can announce. */
  predicate Packable(payload: Bytes) {
    |payload| < Pow256(LENGTH_SIZE)
  }

  /** The number in the first four bytes, the most significant first. */
  function Word(b: Bytes): int
    requires |b| >= 4
  {
    ((b[0] as int * 256 + b[1] as int) * 256 + b[2] as int) * 256 + b[3] as int
  }

  /** The length in four bytes, the most significant first, and the payload. */
  function Frame(payload: Bytes): (f: Bytes)
    requires Packable(payload)
    ensures |f| == 4 + |payload| && f[4..] == payload
    ensures |payload| == Word(f)
  {
    FourBytes(ToBigEndian(|payload|, LENGTH_SIZE));
    ToBigEndian(|payload|, LENGTH_SIZE) + payload
  }

  lemma FourBytes(b: Bytes)
    requires |b| == 4
    ensures FromBigEndian(b) == Word(b)
  {
    var n1, n2, n3 := FromBigEndian(b[..1]), FromBigEndian(b[..2]), FromBigEndian(b[..3]);
    assert b[..1][..0] == [] && n1 == b[0] as int;
    assert b[..2][..1] == b[..1] && n2 == 256 * n1 + b[1] as int;
    assert b[..3][..2] == b[..2] && n3 == 256 * n2 + b[2] as int;
  }

  /** One framed message: exactly the payload that was sent, however the stream is fragmented. */
  method RecvFrame(sock: Socket) returns (r: Result<Bytes, SocketError>)
    modifies sock`incoming, sock`expiresAfter
    ensures r.Failure? && r.error.TimeoutError? ==> sock.hasTimeout && old(sock.expiresAfter).Some?
    ensures r.Success? ==> Packable(r.value) && old(sock.incoming) == Frame(r.value) + sock.incoming
    ensures r == Failure(ConnectionError) ==>
              forall payload, rest :: Packable(payload) ==> old(sock.incoming) != Frame(payload) + rest
  {
    hide ToBigEndian, FromBigEndian, Frame;
    var rawLength := RecvExact(sock, LENGTH_SIZE);
    if rawLength.Failure? {
      return rawLength;
    }
    ghost var afterLength := sock.incoming;
    BigEndianInverse(rawLength.value);
    r := RecvExact(sock, FromBigEndian(rawLength.value));
    if r.Success? {
      assert old(sock.incoming) == rawLength.value + afterLength;
      assert afterLength == r.value + sock.incoming;
      FrameOf(rawLength.value, r.value, sock.incoming);
    } else if r.error == ConnectionError {
      forall payload, rest | Packable(payload)
        ensures old(sock.incoming) != Frame(payload) + rest
      {
        FrameAnnouncesLength(payload, rest);
      }
    }
  }

  lemma FrameOf(prefix: Bytes, payload: Bytes, rest: Bytes)
    requires Packable(payload) && prefix == ToBigEndian(|payload|, LENGTH_SIZE)
    ensures prefix + (payload + rest) == Frame(payload) + rest
  {
    hide ToBigEndian;
  }

  lemma FrameAnnouncesLength(payload: Bytes, rest: Bytes)
    requires Packable(payload)
    ensures var s := Frame(payload) + rest;
      |s| >= LENGTH_SIZE && FromBigEndian(s[..LENGTH_SIZE]) == |payload| <= |s| - LENGTH_SIZE
  {
    var s := Frame(payload) + rest;
    assert s[..LENGTH_SIZE] == ToBigEndian(|payload|, LENGTH_SIZE);
  }

  /** A stream begins with at most one frame. */
  lemma FrameUnique(a: Bytes, b: Bytes, restA: Bytes, restB: Bytes)
    requires Packable(a) && Packable(b) && Frame(a) + restA == Frame(b) + restB
    ensures a == b && restA == restB
  {
    var s := Frame(a) + restA;
    assert s[..LENGTH_SIZE] == ToBigEndian(|a|, LENGTH_SIZE);
    assert s[..LENGTH_SIZE] == ToBigEndian(|b|, LENGTH_SIZE) by { assert s == Frame(b) + restB; }
    assert FromBigEndian(s[..LENGTH_SIZE]) == |a| == |b|;
    assert s[LENGTH_SIZE..LENGTH_SIZE + |a|] == a;
    assert s[LENGTH_SIZE..LENGTH_SIZE + |b|] == b by { assert s == Frame(b) + restB; }
    assert s[LENGTH_SIZE + |a|..] == restA == restB;
  }

  /** `receive_key1`: on the server side, where no timeout is set, exactly the key that was sent. */
  method ReceiveKey1(sock: Socket) returns (r: Result<Bytes, SocketError>)
    requires !sock.hasTimeout
    modifies sock`incoming, sock`expiresAfter
    ensures forall key1, rest :: Packable(key1) && old(sock.incoming) == Frame(key1) + rest ==>
              r == Success(key1) && sock.incoming == rest
    ensures r.Failure? <==> forall key1, rest :: Packable(key1) ==> old(sock.incoming) != Frame(key1) + rest
  {
    r := RecvFrame(sock);
    assert r.Failure? ==> r.error == ConnectionError;
    forall key1, rest | Packable(key1) && old(sock.incoming) == Frame(key1) + rest
      ensures r == Success(key1) && sock.incoming == rest
    {
      if r.Success? {
        FrameUnique(key1, r.value, rest, sock.incoming);
      }
    }
  }

  // ---------- the initiator's side ----------

  datatype SendResult =
    | ServerStarted
    | ServerFailed(message: Bytes)      // ServerStartupError with the server's own message
    | NoStatus                          // ServerStartupError: nothing arrived in time
    | Interrupted                       // OSError: the error message was cut off
    | UnexpectedStatus(status: byte)
    | NotPackable                       // struct.error
    | Unsent                            // OSError: the server has closed its end

  /** `send_key1`, which sets the timeout after sending: it returns normally exactly if the OK byte
      comes before the wait expires. NoStatus stands for every error while waiting for the status. An
      error message arrives intact unless the wait expires while it is read. */
  method SendKey1(sock: Socket, key1: Bytes) returns (r: SendResult)
    modifies sock
    ensures r == NotPackable <==> !Packable(key1)
    ensures r == Unsent <==> Packable(key1) && old(sock.peerClosed)
    ensures Packable(key1) && !old(sock.peerClosed) ==> sock.outgoing == old(sock.outgoing) + Frame(key1)
    ensures r == ServerStarted <==>
              && Packable(key1) && !old(sock.peerClosed)
              && STATUS_OK <= old(sock.incoming) && old(sock.expiresAfter) != Some(0)
    ensures r == NoStatus <==>
              && Packable(key1) && !old(sock.peerClosed)
              && (old(sock.incoming) == [] || old(sock.expiresAfter) == Some(0))
    ensures r.UnexpectedStatus? ==> [r.status] <= old(sock.incoming) && r.status !in {0, 1}
    ensures r.ServerFailed? ==> Packable(r.message) && STATUS_ERR + Frame(r.message) <= old(sock.incoming)
    ensures r == Interrupted ==>
              && STATUS_ERR <= old(sock.incoming)
              && (old(sock.expiresAfter).Some? || forall message, rest ::
                    Packable(message) ==> old(sock.incoming) != STATUS_ERR + (Frame(message) + rest))
  {
    hide ToBigEndian, Frame;
    if !Packable(key1) {
      return NotPackable;
    }
    var written := sock.SendAll(Frame(key1));
    if !written {
      return Unsent;
    }
    sock.hasTimeout := true;
    ghost var stream := sock.incoming;
    var status := RecvExact(sock, 1);
    if status.Failure? {
      assert status.error.ConnectionError? ==> stream == [];
      return NoStatus;
    }
    assert stream == status.value + sock.incoming;
    if status.value == STATUS_OK {
      return ServerStarted;
    }
    if status.value == STATUS_ERR {
      ghost var afterStatus := sock.incoming;
      var message := RecvFrame(sock);
      if message.Failure? {
        forall m, rest | message.error == ConnectionError && Packable(m)
          ensures stream != STATUS_ERR + (Frame(m) + rest)
        {
          assert stream[1..] == afterStatus;
          assert (STATUS_ERR + (Frame(m) + rest))[1..] == Frame(m) + rest;
        }
        return Interrupted;
      }
      assert stream == STATUS_ERR + (Frame(message.value) + sock.incoming);
      assert stream == STATUS_ERR + Frame(message.value) + sock.incoming;
      return ServerFailed(message.value);
    }
    return UnexpectedStatus(status.value[0]);
  }

  // ---------- the server's side ----------

  /** How one part of the startup ends: the four data files and then the listening socket. A process
      that dies says nothing. */
  datatype StageOutcome = StageOk | StageRaised(message: Bytes) | ProcessDied

  /** What a run of the startup sends: one OK byte if every stage succeeds, one error status if a stage
      raises, nothing if the process dies. */
  function StatusOf(stages: seq<StageOutcome>): (s: Bytes)
    requires forall i :: 0 <= i < |stages| && stages[i].StageRaised? ==> Packable(stages[i].message)
  {
    if stages == [] then STATUS_OK
    else match stages[0]
      case StageOk => StatusOf(stages[1..])
      case StageRaised(message) => STATUS_ERR + Frame(message)
      case ProcessDied => []
  }

  predicate AllOk(stages: seq<StageOutcome>) {
    forall i :: 0 <= i < |stages| ==> stages[i] == StageOk
  }

  /** The OK byte is sent exactly by a run in which every stage succeeded. */
  lemma {:induction false} OkStatusIffAllOk(stages: seq<StageOutcome>)
    requires forall i :: 0 <= i < |stages| && stages[i].StageRaised? ==> Packable(stages[i].message)
    ensures STATUS_OK <= StatusOf(stages) <==> AllOk(stages)
    decreases |stages|
  {
    if stages != [] {
      var s := StatusOf(stages);
      if stages[0].StageOk? {
        OkStatusIffAllOk(stages[1..]);
        assert AllOk(stages[1..]) ==> AllOk(stages) by {
          assert forall i :: 1 <= i < |stages| ==> stages[i] == stages[1..][i - 1];
        }
        assert AllOk(stages) ==> AllOk(stages[1..]);
      } else if stages[0].StageRaised? {
        assert s[0] == 1;
      }
    }
  }

  /** The startup of the server: each guarded stage in order, the status of the first one that raises,
      and the ready status right after the port is bound. Where the initiator has closed its end the
      status cannot be sent, and the exception ends the process before it serves. */
  method RunStartup(sock: Socket, stages: seq<StageOutcome>) returns (serving: bool)
    requires forall i :: 0 <= i < |stages| && stages[i].StageRaised? ==> Packable(stages[i].message)
    modifies sock`outgoing
    ensures sock.outgoing == if sock.peerClosed then old(sock.outgoing) else old(sock.outgoing) + StatusOf(stages)
    ensures serving <==> AllOk(stages) && !sock.peerClosed
  {
    for i := 0 to |stages|
      invariant sock.outgoing == old(sock.outgoing)
      invariant forall j :: 0 <= j < i ==> stages[j] == StageOk
      invariant StatusOf(stages) == StatusOf(stages[i..])
    {
      match stages[i]
      case StageOk =>
        assert stages[i..][1..] == stages[i + 1..];
      case StageRaised(message) =>
        var _ := sock.SendAll(STATUS_ERR + Frame(message));
        return false;
      case ProcessDied =>
        return false;
    }
    assert stages[|stages|..] == [];
    serving := sock.SendAll(STATUS_OK);
  }

  /** The i-th stage is the first that does not succeed. */
  predicate FirstTrouble(stages: seq<StageOutcome>, i: nat) {
    i < |stages| && stages[i] != StageOk && forall j :: 0 <= j < i ==> stages[j] == StageOk
  }

  /** The status of a startup whose i-th stage is the first that does not succeed. */
  lemma {:induction false} StatusOfTrouble(stages: seq<StageOutcome>, i: nat)
    requires forall i :: 0 <= i < |stages| && stages[i].StageRaised? ==> Packable(stages[i].message)
    requires FirstTrouble(stages, i)
    ensures stages[i].StageRaised? ==> StatusOf(stages) == STATUS_ERR + Frame(stages[i].message)
    ensures stages[i].ProcessDied? ==> StatusOf(stages) == []
    decreases i
  {
    if i > 0 {
      StatusOfTrouble(stages[1..], i - 1);
    }
  }

  // ---------- both together ----------

  datatype StartOutcome = Started | Failed(result: SendResult) | PidfileNotWritten

  /** `start_server`: spawn, hand over KEY1, wait for the status, then write the pidfile. closesFirst: the
      wait expires and the initiator closes its end before the server sends its status. expiresAfter: the
      receive call of the initiator, if any, at which the wait expires although the server sends its
      status before the initiator closes its end.
      The server receives exactly KEY1, and serves exactly if every stage succeeds and its status can
      still be sent. The start succeeds, and the pidfile is written, exactly if the server serves, the
      wait does not expire and the pidfile can be written. A stage that raises is reported with its own
      message. */
  method StartServer(key1: Bytes, stages: seq<StageOutcome>, closesFirst: bool, expiresAfter: Option<nat>,
                     pidfileWritable: bool)
    returns (r: StartOutcome, serving: bool, received: Result<Bytes, SocketError>)
    requires forall i :: 0 <= i < |stages| && stages[i].StageRaised? ==> Packable(stages[i].message)
    ensures Packable(key1) ==> received == Success(key1)
    ensures serving <==> Packable(key1) && AllOk(stages) && !closesFirst
    ensures r == Started <==>
              Packable(key1) && AllOk(stages) && !closesFirst && expiresAfter != Some(0) && pidfileWritable
    ensures r == PidfileNotWritten <==>
              Packable(key1) && AllOk(stages) && !closesFirst && expiresAfter != Some(0) && !pidfileWritable
    ensures Packable(key1) && (closesFirst || expiresAfter == Some(0)) ==> r == Failed(NoStatus)
    ensures Packable(key1) && !closesFirst && expiresAfter == None ==>
              forall i: nat :: FirstTrouble(stages, i) ==>
                r == Failed(if stages[i].StageRaised? then ServerFailed(stages[i].message) else NoStatus)
  {
    if !Packable(key1) {
      return Failed(NotPackable), false, Failure(ConnectionError);
    }
    var child := new Socket(Frame(key1), None);
    assert Frame(key1) == Frame(key1) + [];
    received := ReceiveKey1(child);
    child.peerClosed := closesFirst;
    serving := RunStartup(child, stages);
    OkStatusIffAllOk(stages);
    var parent := new Socket(child.outgoing, expiresAfter);
    assert [] + StatusOf(stages) == StatusOf(stages);
    var sent := SendKey1(parent, key1);
    if !closesFirst && expiresAfter == None {
      forall i: nat | FirstTrouble(stages, i)
        ensures sent == if stages[i].StageRaised? then ServerFailed(stages[i].message) else NoStatus
      {
        StatusOfTrouble(stages, i);
        if stages[i].StageRaised? {
          MessageArrives(child.outgoing, stages[i].message, sent);
        }
      }
    }
    if sent != ServerStarted {
      return Failed(sent), serving, received;
    }
    if !pidfileWritable {
      return PidfileNotWritten, serving, received;
    }
    return Started, serving, received;
  }

  /** Without an expiry nothing but the framed message explains such a stream. */
  lemma MessageArrives(stream: Bytes, message: Bytes, sent: SendResult)
    requires Packable(message) && stream == STATUS_ERR + Frame(message)
    requires sent.ServerFailed? || sent.Interrupted? || sent.UnexpectedStatus?
    requires sent.ServerFailed? ==> Packable(sent.message) && STATUS_ERR + Frame(sent.message) <= stream
    requires sent.UnexpectedStatus? ==> [sent.status] <= stream && sent.status !in {0, 1}
    requires sent.Interrupted? ==>
               forall m, rest :: Packable(m) ==> stream != STATUS_ERR + (Frame(m) + rest)
    ensures sent == ServerFailed(message)
  {
    hide ToBigEndian, Frame;
    assert stream == STATUS_ERR + (Frame(message) + []);
    assert stream[0] == 1;
    if sent.ServerFailed? {
      var f := Frame(sent.message);
      var rest := stream[|STATUS_ERR + f|..];
      assert stream == STATUS_ERR + f + rest;
      assert stream[1..] == f + rest == Frame(message) + [];
      FrameUnique(sent.message, message, rest, []);
    }
  }
}
