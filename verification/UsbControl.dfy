/** The control transfer of the USB host controller: setup, data and status stages over one DMA buffer
    (src/drivers/usb/bcm2708_usb.rs, `control_transfer`), and where it departs from section 8.5.3 of USB 2.0. */
module UsbControl {
  import opened Basics
  import opened UsbInterrupt

  const CONTROL_BUFFER_LEN: nat := 1024

  /** What one polled transaction comes back with: the bytes the device moved, or an error. */
  datatype Answer = Moved(bytes: seq<byte>) | Failed

  /** A transaction of the data stage: where in the buffer it starts, how much it asks for, what it moves. */
  datatype Packet = Packet(id: PacketId, isIn: bool, offset: nat, asked: nat, bytes: seq<byte>)

  datatype End = Finished | Error | Waiting

  datatype Stage = Stage(packets: seq<Packet>, end: End)

  /** The direction of the transfer and the buffer it starts from. */
  datatype Side = Side(isIn: bool, buffer: seq<byte>)

  /** The bytes a transaction moves, never more than it asks for: the device's own, or those in the buffer. */
  function Piece(side: Side, answer: Answer, offset: nat, asked: nat): (r: seq<byte>)
    requires answer.Moved? && offset + asked <= |side.buffer|
    ensures |r| <= asked
  {
    var n := Min(|answer.bytes|, asked);
    if side.isIn then answer.bytes[..n] else side.buffer[offset..offset + n]
  }

  function First(side: Side, answer: Answer, mps: nat, offset: nat, total: nat, id: PacketId): (p: Packet)
    requires answer.Moved? && offset <= total <= |side.buffer|
    ensures |p.bytes| <= p.asked <= total - offset
  {
    var asked := Min(total - offset, mps);
    Packet(id, side.isIn, offset, asked, Piece(side, answer, offset, asked))
  }

  lemma FirstMoves(side: Side, answer: Answer, mps: nat, offset: nat, total: nat, id: PacketId)
    requires answer.Moved? && offset <= total <= |side.buffer|
    ensures var asked := Min(total - offset, mps);
            var n := Min(|answer.bytes|, asked);
            First(side, answer, mps, offset, total, id) ==
            Packet(id, side.isIn, offset, asked, if side.isIn then answer.bytes[..n] else side.buffer[offset..offset + n])
  {
  }

  /** The data stage as a list of transactions. */
  function DataStage(side: Side, answers: seq<Answer>, mps: nat, offset: nat, total: nat, id: PacketId): Stage
    requires total <= |side.buffer|
    decreases |answers|
  {
    if offset >= total then Stage([], Finished)
    else if answers == [] then Stage([], Waiting)
    else if answers[0].Failed? then Stage([], Error)
    else
      var p := First(side, answers[0], mps, offset, total, id);
      if |p.bytes| < p.asked then Stage([p], Finished)
      else
        var rest := DataStage(side, answers[1..], mps, offset + |p.bytes|, total, id.Toggled());
        Stage([p] + rest.packets, rest.end)
  }

  function Moves(packets: seq<Packet>): seq<byte>
  {
    if packets == [] then [] else packets[0].bytes + Moves(packets[1..])
  }

  // ----- the shape of a data stage -----

  function IdAt(first: PacketId, i: nat): PacketId
  {
    if i % 2 == 0 then first else first.Toggled()
  }

  /** Transaction i asks for the next piece of the request, as large as a packet allows, and is full unless it is last. */
  ghost predicate WellFormed(packets: seq<Packet>, isIn: bool, mps: nat, offset: nat, total: nat, id: PacketId)
  {
    forall i | 0 <= i < |packets| ::
      && packets[i].isIn == isIn && packets[i].id == IdAt(id, i)
      && packets[i].offset == offset + |Moves(packets[..i])| < total
      && packets[i].asked == Min(total - packets[i].offset, mps)
      && |packets[i].bytes| <= packets[i].asked
      && (i < |packets| - 1 ==> |packets[i].bytes| == packets[i].asked)
  }

  lemma {:induction false} MovesAppend(a: seq<Packet>, b: seq<Packet>)
    ensures Moves(a + b) == Moves(a) + Moves(b)
    decreases |a|
  {
    if a == [] {
      assert a + b == b;
    } else {
      assert (a + b)[1..] == a[1..] + b;
      MovesAppend(a[1..], b);
    }
  }

  lemma WellFormedCons(p: Packet, rest: seq<Packet>, isIn: bool, mps: nat, offset: nat, total: nat, id: PacketId)
    requires p.id == id && p.isIn == isIn && p.offset == offset < total && p.asked == Min(total - offset, mps)
    requires |p.bytes| == p.asked && id != Setup
    requires WellFormed(rest, isIn, mps, offset + |p.bytes|, total, id.Toggled())
    ensures WellFormed([p] + rest, isIn, mps, offset, total, id)
  {
    var all := [p] + rest;
    forall i | 0 <= i < |all|
      ensures all[i].isIn == isIn && all[i].id == IdAt(id, i)
      ensures all[i].offset == offset + |Moves(all[..i])| < total && all[i].asked == Min(total - all[i].offset, mps)
      ensures |all[i].bytes| <= all[i].asked && (i < |all| - 1 ==> |all[i].bytes| == all[i].asked)
    {
      if i == 0 {
        assert all[..0] == [];
      } else {
        assert all[i] == rest[i - 1];
        assert all[..i] == [p] + rest[..i - 1];
        assert all[..i][1..] == rest[..i - 1];
      }
    }
  }

  lemma WellFormedOne(p: Packet, isIn: bool, mps: nat, offset: nat, total: nat, id: PacketId)
    requires p.id == id && p.isIn == isIn && p.offset == offset < total && p.asked == Min(total - offset, mps)
    requires |p.bytes| <= p.asked
    ensures WellFormed([p], isIn, mps, offset, total, id)
  {
    assert [p][..0] == [];
  }

  lemma WellFormedNone(isIn: bool, mps: nat, offset: nat, total: nat, id: PacketId)
    ensures WellFormed([], isIn, mps, offset, total, id)
  {
  }

  lemma MovesCons(p: Packet, rest: seq<Packet>)
    ensures Moves([p] + rest) == p.bytes + Moves(rest) && Moves([p]) == p.bytes && Moves([]) == []
  {
    assert ([p] + rest)[1..] == rest && [p][1..] == [];
  }

  /** The chunks are contiguous pieces of the request, packet ids alternate, and only the last may be short. */
  lemma {:induction false} DataStageWellFormed(side: Side, answers: seq<Answer>, mps: nat, offset: nat, total: nat, id: PacketId)
    requires id != Setup && offset <= total <= |side.buffer|
    ensures WellFormed(DataStage(side, answers, mps, offset, total, id).packets, side.isIn, mps, offset, total, id)
    ensures offset + |Moves(DataStage(side, answers, mps, offset, total, id).packets)| <= total
    decreases |answers|
  {
    hide WellFormed, Moves, Piece;
    WellFormedNone(side.isIn, mps, offset, total, id);
    if offset < total && answers != [] && answers[0].Moved? {
      var p := First(side, answers[0], mps, offset, total, id);
      var rest: seq<Packet> := [];
      if |p.bytes| == p.asked {
        DataStageWellFormed(side, answers[1..], mps, offset + |p.bytes|, total, id.Toggled());
        rest := DataStage(side, answers[1..], mps, offset + |p.bytes|, total, id.Toggled()).packets;
        WellFormedCons(p, rest, side.isIn, mps, offset, total, id);
      } else {
        WellFormedOne(p, side.isIn, mps, offset, total, id);
      }
      MovesCons(p, rest);
    } else {
      MovesCons(Packet(id, side.isIn, 0, 0, []), []);
    }
  }

  /** The last transaction moved less than it asked for. */
  predicate LastShort(packets: seq<Packet>)
  {
    packets != [] && |packets[|packets| - 1].bytes| < packets[|packets| - 1].asked
  }

  /** The stage is over exactly after the whole request or a short packet. */
  lemma {:induction false} DataStageComplete(side: Side, answers: seq<Answer>, mps: nat, offset: nat, total: nat, id: PacketId)
    requires offset <= total <= |side.buffer|
    ensures var s := DataStage(side, answers, mps, offset, total, id);
            s.end == Finished <==> offset + |Moves(s.packets)| == total || LastShort(s.packets)
    decreases |answers|
  {
    hide Moves, Piece, LastShort;
    if offset < total && answers != [] && answers[0].Moved? {
      var p := First(side, answers[0], mps, offset, total, id);
      var rest: seq<Packet> := [];
      if |p.bytes| == p.asked {
        DataStageComplete(side, answers[1..], mps, offset + |p.bytes|, total, id.Toggled());
        rest := DataStage(side, answers[1..], mps, offset + |p.bytes|, total, id.Toggled()).packets;
      }
      MovesCons(p, rest);
      LastShortCons(p, rest);
    } else {
      MovesCons(Packet(id, side.isIn, 0, 0, []), []);
      assert !LastShort([]) by { LastShortNone(); }
    }
  }

  lemma LastShortNone()
    ensures !LastShort([])
  {
  }

  lemma LastShortCons(p: Packet, rest: seq<Packet>)
    ensures LastShort([p]) <==> |p.bytes| < p.asked
    ensures rest != [] ==> (LastShort([p] + rest) <==> LastShort(rest))
    ensures rest == [] ==> [p] + rest == [p] && !LastShort(rest)
  {
  }

  ghost predicate NoFailure(answers: seq<Answer>)
  {
    forall a | a in answers :: a.Moved?
  }

  /** With a nonzero packet size the stage needs at most one transaction per started packet of the request. */
  lemma {:induction false} DataStageEnds(side: Side, answers: seq<Answer>, mps: nat, offset: nat, total: nat, id: PacketId)
    requires total <= |side.buffer| && mps > 0 && offset <= total && total - offset <= |answers| * mps
    ensures DataStage(side, answers, mps, offset, total, id).end != Waiting
    decreases |answers|
  {
    hide Piece;
    if offset < total && answers != [] && answers[0].Moved? {
      var p := First(side, answers[0], mps, offset, total, id);
      if |p.bytes| == p.asked {
        OneLess(|answers|, mps);
        DataStageEnds(side, answers[1..], mps, offset + |p.bytes|, total, id.Toggled());
      }
    }
  }

  lemma OneLess(n: nat, mps: nat)
    requires n > 0
    ensures (n - 1) * mps == n * mps - mps
  {
  }

  /** With packet size zero a nonempty stage never ends by itself: it asks for nothing, again and again. */
  lemma {:induction false} ZeroPacketNeverEnds(side: Side, answers: seq<Answer>, offset: nat, total: nat, id: PacketId)
    requires offset < total <= |side.buffer| && NoFailure(answers)
    ensures DataStage(side, answers, 0, offset, total, id).end == Waiting
    ensures |DataStage(side, answers, 0, offset, total, id).packets| == |answers|
    decreases |answers|
  {
    if answers != [] {
      assert answers[0] in answers;
      ZeroPacketNeverEnds(side, answers[1..], offset, total, id.Toggled());
    }
  }

  /** Any n successful transactions are enough. */
  ghost predicate EndsWithin(side: Side, mps: nat, total: nat, n: nat)
    requires total <= |side.buffer|
  {
    forall answers: seq<Answer> | |answers| >= n && NoFailure(answers) ::
      DataStage(side, answers, mps, 0, total, Data1).end != Waiting
  }

  /** The data stage is bounded if and only if a packet can hold something or there is nothing to move. */
  lemma EndsIffPacketsHoldData(side: Side, mps: nat, total: nat)
    requires total <= |side.buffer|
    ensures mps > 0 || total == 0 <==> exists n: nat :: EndsWithin(side, mps, total, n)
  {
    if mps > 0 || total == 0 {
      forall answers: seq<Answer> | |answers| >= total && NoFailure(answers)
        ensures DataStage(side, answers, mps, 0, total, Data1).end != Waiting
      {
        if mps > 0 {
          MulAtLeast(|answers|, mps);
          DataStageEnds(side, answers, mps, 0, total, Data1);
        }
      }
      assert EndsWithin(side, mps, total, total);
    } else if n: nat :| EndsWithin(side, mps, total, n) {
      var answers := seq(n, _ => Moved([]));
      ZeroPacketNeverEnds(side, answers, 0, total, Data1);
      assert false;
    }
  }

  lemma MulAtLeast(n: nat, mps: nat)
    requires mps > 0
    ensures n * mps >= n
  {
  }

  // ----- the transfer -----

  datatype Outcome = Transferred(count: nat) | BufferTooLarge | TransferError | StillWaiting

  datatype ControlData = NoData | Out(bytes: seq<byte>) | In(length: nat)
  {
    function Length(): nat
    {
      match this
      case NoData => 0
      case Out(bytes) => |bytes|
      case In(length) => length
    }
  }

  class Control {
    const dataBuffer: array<byte>

    constructor ()
      ensures dataBuffer.Length == CONTROL_BUFFER_LEN && fresh(dataBuffer)
    {
      dataBuffer := new byte[CONTROL_BUFFER_LEN](_ => 0);
    }

    /** The data stage, chunk by chunk, into or out of the buffer. */
    method RunDataStage(isIn: bool, answers: seq<Answer>, mps: nat, total: nat) returns (stage: Stage)
      requires total <= dataBuffer.Length
      modifies dataBuffer
      ensures stage == DataStage(Side(isIn, old(dataBuffer[..])), answers, mps, 0, total, Data1)
      ensures |Moves(stage.packets)| <= total
      ensures Holds(dataBuffer[..], Moves(stage.packets), old(dataBuffer[..]))
    {
      hide *;
      ghost var side := Side(isIn, dataBuffer[..]);
      ghost var whole := DataStage(side, answers, mps, 0, total, Data1);
      var packets, offset, id, next := [], 0, Data1, 0;
      assert answers[0..] == answers;
      NothingYet(side, answers, mps, total);
      while offset < total
        invariant 0 <= next <= |answers| && offset <= total && offset == |Moves(packets)|
        invariant whole == Prefixed(packets, DataStage(side, answers[next..], mps, offset, total, id))
        invariant Holds(dataBuffer[..], Moves(packets), side.buffer)
        decreases |answers| - next
      {
        NextPacket(side, answers, next, mps, offset, total, id, packets);
        if next == |answers| || answers[next].Failed? {
          return Stage(packets, if next == |answers| then Waiting else Error);
        }
        var p := MovePiece(isIn, answers[next], mps, offset, total, id, Moves(packets), side);
        packets := packets + [p];
        offset := offset + |p.bytes|;
        next := next + 1;
        if |p.bytes| < p.asked { return Stage(packets, Finished); }
        id := id.Toggled();
      }
      NoMore(side, answers[next..], mps, offset, total, id, packets);
      stage := Stage(packets, Finished);
    }

    /** One transaction of the stage. */
    method MovePiece(isIn: bool, answer: Answer, mps: nat, offset: nat, total: nat, id: PacketId,
                     ghost moved: seq<byte>, ghost side: Side) returns (p: Packet)
      requires answer.Moved? && offset == |moved| <= total <= dataBuffer.Length == |side.buffer| && side.isIn == isIn
      requires Holds(dataBuffer[..], moved, side.buffer)
      modifies dataBuffer
      ensures p == First(side, answer, mps, offset, total, id)
      ensures Holds(dataBuffer[..], moved + p.bytes, side.buffer)
    {
      var asked := Min(total - offset, mps);
      var n := Min(|answer.bytes|, asked);
      BufferAdvances(dataBuffer[..], moved, side.buffer, n);
      var bytes := if isIn then answer.bytes[..n] else dataBuffer[offset..offset + n];
      p := Packet(id, isIn, offset, asked, bytes);
      FirstMoves(side, answer, mps, offset, total, id);
      hide Holds, First, Piece;
      WriteAt(offset, bytes);
    }

    method WriteAt(offset: nat, bytes: seq<byte>)
      requires offset + |bytes| <= dataBuffer.Length
      modifies dataBuffer
      ensures dataBuffer[..] == old(dataBuffer[..])[..offset] + bytes + old(dataBuffer[..])[offset + |bytes|..]
    {
      forall i | 0 <= i < |bytes| {
        dataBuffer[offset + i] := bytes[i];
      }
    }

    method Fill(bytes: seq<byte>)
      requires |bytes| <= dataBuffer.Length
      modifies dataBuffer
      ensures dataBuffer[..|bytes|] == bytes && forall i | |bytes| <= i < dataBuffer.Length :: dataBuffer[i] == 0
    {
      forall i | 0 <= i < dataBuffer.Length {
        dataBuffer[i] := if i < |bytes| then bytes[i] else 0;
      }
    }

    /** `control_transfer`: the answers are those of the setup transaction, the data stage and the status transaction. */
    method ControlTransfer(setupIn: bool, setup: seq<byte>, data: ControlData, output: array<byte>, mps: nat,
                           setupAnswer: Answer, answers: seq<Answer>, statusAnswer: Answer)
      returns (r: Outcome, log: seq<Packet>)
      requires dataBuffer.Length == CONTROL_BUFFER_LEN && output != dataBuffer
      requires data.In? ==> output.Length == data.length
      modifies dataBuffer, output
      ensures r == BufferTooLarge <==> data.Length() > 1024
      ensures data.Length() <= CONTROL_BUFFER_LEN ==>
                |log| >= 1 && log[0].id == Setup && !log[0].isIn && log[0].asked == |setup| && log[0].bytes == setup
      ensures data.Length() <= CONTROL_BUFFER_LEN && setupAnswer.Failed? ==> r == TransferError && |log| == 1
      ensures data.Length() <= CONTROL_BUFFER_LEN && setupAnswer.Moved? ==>
                Controlled(setupIn, setup, data, answers, mps, statusAnswer, log, r)
      ensures r.Transferred? ==> |log| >= 2 && r.count == |Moves(log[1..|log| - 1])| <= data.Length()
      ensures r.Transferred? && data.In? ==> output[..] == Moves(log[1..|log| - 1]) + old(output[..])[r.count..]
      ensures !(r.Transferred? && data.In?) ==> output[..] == old(output[..])
      ensures r.Transferred? ==> (StatusConforms(log) <==> data.Length() > 0 || !setupIn)
    {
      hide DataStage, Moves, Played, StatusConforms;
      log := [];
      var dataLen := data.Length();
      if dataLen > dataBuffer.Length { return BufferTooLarge, log; }
      match data {
        case NoData =>
        case Out(bytes) => Fill(bytes);
        case In(_) => Fill([]);
      }
      log := [Packet(Setup, false, 0, |setup|, setup)];
      if setupAnswer.Failed? { return TransferError, log; }
      ghost var side := Side(setupIn, dataBuffer[..]);
      var stage := RunDataStage(setupIn, answers, mps, dataLen);
      assert AStage(stage, side, answers, mps, data.Length());
      log := log + stage.packets;
      if stage.end != Finished {
        r := if stage.end == Error then TransferError else StillWaiting;
        Plays(stage, setup, setupIn, statusAnswer, log, r);
        return;
      }
      log := log + [Packet(Data1, !setupIn, 0, 0, [])];
      var transferred := CountMoved(stage.packets);
      r := if statusAnswer.Failed? then TransferError else Transferred(transferred);
      Plays(stage, setup, setupIn, statusAnswer, log, r);
      if statusAnswer.Failed? { return; }
      StatusDirection(setup, stage, side, answers, mps, dataLen);
      assert log[1..|log| - 1] == stage.packets;
      if data.In? { CopyOut(output, transferred); }
    }

    method CountMoved(packets: seq<Packet>) returns (n: nat)
      ensures n == |Moves(packets)|
    {
      n := 0;
      for i := 0 to |packets|
        invariant n == |Moves(packets[..i])|
      {
        assert packets[..i + 1] == packets[..i] + [packets[i]];
        MovesSnoc(packets[..i], packets[i]);
        n := n + |packets[i].bytes|;
      }
      assert packets[..|packets|] == packets;
    }

    method CopyOut(output: array<byte>, n: nat)
      requires n <= dataBuffer.Length && n <= output.Length && output != dataBuffer
      modifies output
      ensures output[..] == dataBuffer[..n] + old(output[..])[n..]
    {
      forall i | 0 <= i < n {
        output[i] := dataBuffer[i];
      }
    }
  }

  ghost predicate AStage(stage: Stage, side: Side, answers: seq<Answer>, mps: nat, total: nat)
  {
    total <= |side.buffer| && stage == DataStage(side, answers, mps, 0, total, Data1)
  }

  /** The transactions of a whole transfer. */
  function Transactions(setup: seq<byte>, packets: seq<Packet>, setupIn: bool): seq<Packet>
  {
    [Packet(Setup, false, 0, |setup|, setup)] + packets + [Packet(Data1, !setupIn, 0, 0, [])]
  }

  /** How an acknowledged setup goes on: an error or the end of the answers stops it in the data stage, with nothing after;
      otherwise a status transaction follows, and its answer decides. */
  ghost predicate Played(stage: Stage, setup: seq<byte>, setupIn: bool, statusAnswer: Answer, log: seq<Packet>, r: Outcome)
  {
    match stage.end
    case Error => r == TransferError && log == [Packet(Setup, false, 0, |setup|, setup)] + stage.packets
    case Waiting => r == StillWaiting && log == [Packet(Setup, false, 0, |setup|, setup)] + stage.packets
    case Finished =>
      && log == Transactions(setup, stage.packets, setupIn)
      && r == if statusAnswer.Failed? then TransferError else Transferred(|Moves(stage.packets)|)
  }

  /** The outcome and the log are those of the data stage in the direction of the request, out of the bytes given. */
  ghost predicate Controlled(setupIn: bool, setup: seq<byte>, data: ControlData, answers: seq<Answer>, mps: nat,
                             statusAnswer: Answer, log: seq<Packet>, r: Outcome)
  {
    exists side, stage: Stage :: AStage(stage, side, answers, mps, data.Length())
      && side.isIn == setupIn && (data.Out? ==> side.buffer[..|data.bytes|] == data.bytes)
      && Played(stage, setup, setupIn, statusAnswer, log, r)
  }

  lemma Plays(stage: Stage, setup: seq<byte>, setupIn: bool, statusAnswer: Answer, log: seq<Packet>, r: Outcome)
    requires stage.end == Error ==> r == TransferError
    requires stage.end == Waiting ==> r == StillWaiting
    requires stage.end == Finished ==> r == if statusAnswer.Failed? then TransferError else Transferred(|Moves(stage.packets)|)
    requires log == [Packet(Setup, false, 0, |setup|, setup)] + stage.packets
                    + (if stage.end == Finished then [Packet(Data1, !setupIn, 0, 0, [])] else [])
    ensures Played(stage, setup, setupIn, statusAnswer, log, r)
  {
    hide Moves;
  }

  /** Section 8.5.3 of USB 2.0: an empty DATA1 packet, against the direction of the data stage, and IN without one. */
  predicate StatusConforms(log: seq<Packet>)
    requires |log| >= 2
  {
    var status := log[|log| - 1];
    status.id == Data1 && status.bytes == [] && status.isIn == if |log| == 2 then true else !log[1].isIn
  }

  /** The status stage goes the way the standard asks exactly when there are data to move or the request goes out. */
  lemma StatusDirection(setup: seq<byte>, stage: Stage, side: Side, answers: seq<Answer>, mps: nat, total: nat)
    requires AStage(stage, side, answers, mps, total) && stage.end == Finished
    ensures StatusConforms(Transactions(setup, stage.packets, side.isIn)) <==> total > 0 || !side.isIn
  {
    if total > 0 {
      assert stage.packets != [] && stage.packets[0].isIn == side.isIn;
      assert Transactions(setup, stage.packets, side.isIn)[1] == stage.packets[0];
    } else {
      assert stage.packets == [];
    }
  }

  /** An IN request without data: its status stage is sent OUT. */
  lemma InRequestWithoutData(setup: seq<byte>, mps: nat)
    ensures var side := Side(true, seq(CONTROL_BUFFER_LEN, _ => 0));
      && AStage(Stage([], Finished), side, [], mps, 0)
      && !StatusConforms(Transactions(setup, [], true))
  {
    StatusDirection(setup, Stage([], Finished), Side(true, seq(CONTROL_BUFFER_LEN, _ => 0)), [], mps, 0);
  }

  /** The buffer: what the transactions moved, then what was there before. */
  ghost predicate Holds(now: seq<byte>, moved: seq<byte>, before: seq<byte>)
  {
    |moved| <= |before| && now == moved + before[|moved|..]
  }

  function Prefixed(packets: seq<Packet>, s: Stage): Stage
  {
    Stage(packets + s.packets, s.end)
  }

  lemma NothingYet(side: Side, answers: seq<Answer>, mps: nat, total: nat)
    requires total <= |side.buffer|
    ensures DataStage(side, answers, mps, 0, total, Data1) == Prefixed([], DataStage(side, answers, mps, 0, total, Data1))
    ensures Moves([]) == [] && Holds(side.buffer, [], side.buffer)
  {
  }

  lemma NoMore(side: Side, answers: seq<Answer>, mps: nat, offset: nat, total: nat, id: PacketId, packets: seq<Packet>)
    requires offset >= total && total <= |side.buffer|
    ensures Prefixed(packets, DataStage(side, answers, mps, offset, total, id)) == Stage(packets, Finished)
  {
  }

  /** Peeling one transaction off the rest of the stage. */
  lemma NextPacket(side: Side, answers: seq<Answer>, next: nat, mps: nat, offset: nat, total: nat, id: PacketId, packets: seq<Packet>)
    requires next <= |answers| && offset < total <= |side.buffer|
    ensures next == |answers| ==> Prefixed(packets, DataStage(side, answers[next..], mps, offset, total, id)) == Stage(packets, Waiting)
    ensures next < |answers| && answers[next].Failed? ==>
              Prefixed(packets, DataStage(side, answers[next..], mps, offset, total, id)) == Stage(packets, Error)
    ensures next < |answers| && answers[next].Moved? ==>
              var p := First(side, answers[next], mps, offset, total, id); Moves(packets + [p]) == Moves(packets) + p.bytes
    ensures next < |answers| && answers[next].Moved? ==>
              var p := First(side, answers[next], mps, offset, total, id);
              |p.bytes| < p.asked ==>
                Prefixed(packets, DataStage(side, answers[next..], mps, offset, total, id)) == Stage(packets + [p], Finished)
    ensures next < |answers| && answers[next].Moved? ==>
              var p := First(side, answers[next], mps, offset, total, id);
              |p.bytes| == p.asked ==>
                Prefixed(packets, DataStage(side, answers[next..], mps, offset, total, id)) ==
                Prefixed(packets + [p], DataStage(side, answers[next + 1..], mps, offset + |p.bytes|, total, id.Toggled()))
  {
    hide Moves, First, Piece;
    if next < |answers| && answers[next].Moved? {
      var p := First(side, answers[next], mps, offset, total, id);
      MovesSnoc(packets, p);
      assert answers[next..][1..] == answers[next + 1..];
      PrefixedCons(packets, p, DataStage(side, answers[next + 1..], mps, offset + |p.bytes|, total, id.Toggled()));
    }
  }

  lemma PrefixedCons(packets: seq<Packet>, p: Packet, s: Stage)
    ensures Prefixed(packets, Stage([p] + s.packets, s.end)) == Prefixed(packets + [p], s)
  {
    assert packets + ([p] + s.packets) == (packets + [p]) + s.packets;
  }

  lemma MovesSnoc(packets: seq<Packet>, p: Packet)
    ensures Moves(packets + [p]) == Moves(packets) + p.bytes
  {
    MovesAppend(packets, [p]);
    assert [p][1..] == [] && p.bytes + [] == p.bytes;
  }

  /** A piece written behind what has been moved; one read from there is still what was there before. */
  lemma BufferAdvances(now: seq<byte>, moved: seq<byte>, before: seq<byte>, n: nat)
    requires Holds(now, moved, before) && |moved| + n <= |before|
    ensures |now| == |before| && now[|moved|..|moved| + n] == before[|moved|..|moved| + n]
    ensures forall piece: seq<byte> | |piece| == n ::
              Holds(now[..|moved|] + piece + now[|moved| + n..], moved + piece, before)
  {
    forall piece: seq<byte> | |piece| == n
      ensures Holds(now[..|moved|] + piece + now[|moved| + n..], moved + piece, before)
    {
      assert now[..|moved|] == moved;
      assert now[|moved| + n..] == before[|moved + piece|..];
    }
  }

  /** Each transaction moves what the device answered it with, up to what was asked. */
  ghost predicate Answered(isIn: bool, packets: seq<Packet>, answers: seq<Answer>)
  {
    && |packets| <= |answers|
    && (forall i | 0 <= i < |packets| :: answers[i].Moved? && |packets[i].bytes| == Min(|answers[i].bytes|, packets[i].asked))
    && (isIn ==> forall i | 0 <= i < |packets| :: packets[i].bytes == answers[i].bytes[..|packets[i].bytes|])
  }

  lemma AnsweredCons(isIn: bool, p: Packet, rest: seq<Packet>, answers: seq<Answer>)
    requires answers != [] && answers[0].Moved? && |p.bytes| == Min(|answers[0].bytes|, p.asked)
    requires isIn ==> p.bytes == answers[0].bytes[..|p.bytes|]
    requires Answered(isIn, rest, answers[1..])
    ensures Answered(isIn, [p] + rest, answers)
  {
    var all := [p] + rest;
    forall i | 0 <= i < |all|
      ensures answers[i].Moved? && |all[i].bytes| == Min(|answers[i].bytes|, all[i].asked)
      ensures isIn ==> all[i].bytes == answers[i].bytes[..|all[i].bytes|]
    {
      if i > 0 { assert all[i] == rest[i - 1] && answers[i] == answers[1..][i - 1]; }
    }
  }

  lemma NoneAnswered(isIn: bool, answers: seq<Answer>)
    ensures Answered(isIn, [], answers)
  {
  }

  lemma FirstAnswered(side: Side, answer: Answer, mps: nat, offset: nat, total: nat, id: PacketId)
    requires answer.Moved? && offset <= total <= |side.buffer|
    ensures var p := First(side, answer, mps, offset, total, id);
      |p.bytes| == Min(|answer.bytes|, p.asked) && (side.isIn ==> p.bytes == answer.bytes[..|p.bytes|])
  {
  }

  /** A stage stops in an error only at a failure, and waits only where the answers end. */
  ghost predicate StopsRight(stage: Stage, answers: seq<Answer>)
  {
    && (stage.end == Error ==> |stage.packets| < |answers| && answers[|stage.packets|].Failed?)
    && (stage.end == Waiting ==> |stage.packets| == |answers|)
  }

  lemma StopsCons(p: Packet, rest: Stage, answers: seq<Answer>)
    requires answers != [] && StopsRight(rest, answers[1..])
    ensures StopsRight(Stage([p] + rest.packets, rest.end), answers)
  {
  }

  /** What comes in is what the device answers; a stage stops at the first failure, or where the answers end. */
  lemma {:induction false} InMovesAnswers(side: Side, answers: seq<Answer>, mps: nat, offset: nat, total: nat, id: PacketId)
    requires total <= |side.buffer|
    ensures var stage := DataStage(side, answers, mps, offset, total, id);
      Answered(side.isIn, stage.packets, answers) && StopsRight(stage, answers)
    decreases |answers|
  {
    hide First, Piece, Answered;
    NoneAnswered(side.isIn, answers);
    if offset < total && answers != [] && answers[0].Moved? {
      var p := First(side, answers[0], mps, offset, total, id);
      FirstAnswered(side, answers[0], mps, offset, total, id);
      NoneAnswered(side.isIn, answers[1..]);
      AnsweredCons(side.isIn, p, [], answers);
      assert [p] + [] == [p];
      if |p.bytes| == p.asked {
        InMovesAnswers(side, answers[1..], mps, offset + |p.bytes|, total, id.Toggled());
        var rest := DataStage(side, answers[1..], mps, offset + |p.bytes|, total, id.Toggled());
        AnsweredCons(side.isIn, p, rest.packets, answers);
        StopsCons(p, rest, answers);
      }
    }
  }

  /** What goes out is a prefix of the request. */
  lemma {:induction false} OutIsPrefix(side: Side, answers: seq<Answer>, mps: nat, offset: nat, total: nat, id: PacketId)
    requires !side.isIn && offset <= total <= |side.buffer|
    ensures var m := Moves(DataStage(side, answers, mps, offset, total, id).packets);
            offset + |m| <= total && m == side.buffer[offset..offset + |m|]
    decreases |answers|
  {
    hide Moves, First, Piece;
    MovesNone();
    if offset < total && answers != [] && answers[0].Moved? {
      var p := First(side, answers[0], mps, offset, total, id);
      var rest: seq<Packet> := [];
      if |p.bytes| == p.asked {
        OutIsPrefix(side, answers[1..], mps, offset + |p.bytes|, total, id.Toggled());
        rest := DataStage(side, answers[1..], mps, offset + |p.bytes|, total, id.Toggled()).packets;
      }
      OutStep(side, answers[0], mps, offset, total, id, rest);
      assert [p] + [] == [p];
    }
  }

  lemma MovesNone()
    ensures Moves([]) == []
  {
  }

  lemma OutStep(side: Side, answer: Answer, mps: nat, offset: nat, total: nat, id: PacketId, rest: seq<Packet>)
    requires answer.Moved? && !side.isIn && offset < total <= |side.buffer|
    requires var p := First(side, answer, mps, offset, total, id);
             var end := offset + |p.bytes|;
             end + |Moves(rest)| <= total && Moves(rest) == side.buffer[end..end + |Moves(rest)|]
    ensures var m := Moves([First(side, answer, mps, offset, total, id)] + rest);
            offset + |m| <= total && m == side.buffer[offset..offset + |m|]
  {
    var p := First(side, answer, mps, offset, total, id);
    FirstMoves(side, answer, mps, offset, total, id);
    hide First, Piece;
    MovesCons(p, rest);
    hide Moves;
    SliceJoin(side.buffer, offset, p.bytes, Moves(rest));
  }

  lemma SliceJoin(b: seq<byte>, offset: nat, x: seq<byte>, y: seq<byte>)
    requires offset + |x| + |y| <= |b| && x == b[offset..offset + |x|] && y == b[offset + |x|..offset + |x| + |y|]
    ensures x + y == b[offset..offset + |x + y|]
  {
  }
}
