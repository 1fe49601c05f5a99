/** The receive side of `Exec`: the session keeps reading frames until one answers the
    outstanding command. The framed reader is replaced by the sequence of results its reads
    return, in order; a sequence that runs out before a reply stands for a loop that is still
    reading. */
module Exchange {
  import opened Bytes

  /** The result of one framed read with its 3-second deadline: an error (whose value `Exec`
      never inspects: timeouts, framing errors and device errors alike) or a frame's bytes. */
  datatype ReadResult = ReadErr | Data(frame: seq<byte>)

  /** How the receive loop ends on a given sequence of read results. `Accepted` carries the
      position of the reply and the bytes that are handed to `NewResponse`; `Panicked` is the
      Go runtime's index-out-of-range panic; `Waiting` means no read so far ended the loop. */
  datatype Outcome = Accepted(index: nat, frame: seq<byte>) | Panicked(index: nat) | Waiting

  /** A reply to the command with opcode `op`: a frame of at least two bytes whose byte 1 is `op`. */
  predicate Matches(r: ReadResult, op: byte) {
    r.Data? && |r.frame| >= 2 && r.frame[1] == op
  }

  /** A one-byte frame: it passes the empty-frame test, and then reading byte 1 fails. */
  predicate TooShort(r: ReadResult) {
    r.Data? && |r.frame| == 1
  }

  /** A read result the loop as written passes over with `continue`: a read error, an empty
      frame, or a frame whose byte 1 is some other opcode. */
  predicate Skipped(r: ReadResult, op: byte) {
    r.ReadErr? || |r.frame| == 0 || (|r.frame| >= 2 && r.frame[1] != op)
  }

  /** The loop as written, from read `from` on. */
  function ReceiveFrom(results: seq<ReadResult>, op: byte, from: nat): (r: Outcome)
    requires from <= |results|
    ensures r.Accepted? ==> from <= r.index < |results| && results[r.index] == Data(r.frame)
                            && Matches(results[r.index], op)
                            && forall j :: from <= j < r.index ==> Skipped(results[j], op)
    ensures r.Panicked? ==> from <= r.index < |results| && TooShort(results[r.index])
                            && forall j :: from <= j < r.index ==> Skipped(results[j], op)
    ensures r.Waiting? ==> forall j :: from <= j < |results| ==> Skipped(results[j], op)
    decreases |results| - from
  {
    if from == |results| then Waiting
    else match results[from]
      case ReadErr => ReceiveFrom(results, op, from + 1)
      case Data(f) =>
        if |f| == 0 then ReceiveFrom(results, op, from + 1)
        else if |f| < 2 then Panicked(from)
        else if f[1] != op then ReceiveFrom(results, op, from + 1)
        else Accepted(from, f)
  }

  /** The receive loop of `Exec` as written: `rawData[1]` is read after only the empty-frame
      test, so a one-byte frame ends the run with a panic. */
  method Exec(op: byte, results: seq<ReadResult>) returns (r: Outcome)
    ensures r == ReceiveFrom(results, op, 0)
  {
    var done := false;
    var rawData: seq<byte> := [];
    var i := 0;
    while !done && i < |results|
      invariant 0 <= i <= |results|
      invariant done ==> 0 < i && ReceiveFrom(results, op, 0) == Accepted(i - 1, rawData)
      invariant !done ==> ReceiveFrom(results, op, 0) == ReceiveFrom(results, op, i)
    {
      var result := results[i];
      i := i + 1;
      if result.ReadErr? {
        continue;
      }
      rawData := result.frame;
      if |rawData| == 0 {
        continue;
      }
      if |rawData| < 2 {
        // rawData[1] is out of range
        return Panicked(i - 1);
      }
      if rawData[1] != op {
        continue;
      }
      done := true;
    }
    if done {
      r := Accepted(i - 1, rawData);
    } else {
      r := Waiting;
    }
  }

  /** The loop as evidently intended, from read `from` on: every read result that is not a
      reply, short frames included, is passed over. */
  function ReplyFrom(results: seq<ReadResult>, op: byte, from: nat): (r: Outcome)
    requires from <= |results|
    ensures !r.Panicked?
    ensures r.Accepted? ==> from <= r.index < |results| && results[r.index] == Data(r.frame)
                            && Matches(results[r.index], op)
                            && forall j :: from <= j < r.index ==> !Matches(results[j], op)
    ensures r.Waiting? ==> forall j :: from <= j < |results| ==> !Matches(results[j], op)
    decreases |results| - from
  {
    if from == |results| then Waiting
    else match results[from]
      case ReadErr => ReplyFrom(results, op, from + 1)
      case Data(f) =>
        if |f| < 2 then ReplyFrom(results, op, from + 1)
        else if f[1] != op then ReplyFrom(results, op, from + 1)
        else Accepted(from, f)
  }

  /** The receive loop of `Exec` with the length test widened to frames shorter than two bytes. */
  method ExecChecked(op: byte, results: seq<ReadResult>) returns (r: Outcome)
    ensures r == ReplyFrom(results, op, 0)
  {
    var done := false;
    var rawData: seq<byte> := [];
    var i := 0;
    while !done && i < |results|
      invariant 0 <= i <= |results|
      invariant done ==> 0 < i && ReplyFrom(results, op, 0) == Accepted(i - 1, rawData)
      invariant !done ==> ReplyFrom(results, op, 0) == ReplyFrom(results, op, i)
    {
      var result := results[i];
      i := i + 1;
      if result.ReadErr? {
        continue;
      }
      rawData := result.frame;
      if |rawData| < 2 {
        continue;
      }
      if rawData[1] != op {
        continue;
      }
      done := true;
    }
    if done {
      r := Accepted(i - 1, rawData);
    } else {
      r := Waiting;
    }
  }

  /** The loop as written and the corrected one agree on every stream without one-byte frames. */
  lemma {:induction false} AgreeWithoutShortFrames(results: seq<ReadResult>, op: byte, from: nat)
    requires from <= |results|
    requires forall j :: from <= j < |results| ==> !TooShort(results[j])
    ensures ReceiveFrom(results, op, from) == ReplyFrom(results, op, from)
    decreases |results| - from
  {
    if from < |results| {
      AgreeWithoutShortFrames(results, op, from + 1);
    }
  }

  /** A one-byte frame of noise ahead of the real reply: the loop as written panics on it,
      the corrected loop passes over it and accepts the reply. */
  lemma ShortFrameBeforeReply(op: byte, status: byte)
    ensures ReceiveFrom([Data([op]), Data([0x01, op, status])], op, 0) == Panicked(0)
    ensures ReplyFrom([Data([op]), Data([0x01, op, status])], op, 0) == Accepted(1, [0x01, op, status])
  {
  }

  /** Non-replies between `from` and `to` do not change the outcome: they are simply skipped. */
  lemma {:induction false} ReplySkipsNoise(results: seq<ReadResult>, op: byte, from: nat, to: nat)
    requires from <= to <= |results|
    requires forall j :: from <= j < to ==> !Matches(results[j], op)
    ensures ReplyFrom(results, op, from) == ReplyFrom(results, op, to)
    decreases |results| - from
  {
    if from < to {
      ReplySkipsNoise(results, op, from + 1, to);
    }
  }

  /** Once a reply has been accepted, later reads do not matter: the loop stops at the first one. */
  lemma {:induction false} ReplyIgnoresLaterReads(results: seq<ReadResult>, later: seq<ReadResult>, op: byte, from: nat)
    requires from <= |results|
    requires ReplyFrom(results, op, from).Accepted?
    ensures ReplyFrom(results + later, op, from) == ReplyFrom(results, op, from)
    decreases |results| - from
  {
    assert results[from] == (results + later)[from];
    if !Matches(results[from], op) {
      ReplyIgnoresLaterReads(results, later, op, from + 1);
    }
  }

  /** In the loop as written, read errors, empty frames and mismatched opcodes between `from`
      and `to` do not change the outcome: they are simply skipped. */
  lemma {:induction false} ReceiveSkipsNoise(results: seq<ReadResult>, op: byte, from: nat, to: nat)
    requires from <= to <= |results|
    requires forall j :: from <= j < to ==> Skipped(results[j], op)
    ensures ReceiveFrom(results, op, from) == ReceiveFrom(results, op, to)
    decreases |results| - from
  {
    if from < to {
      ReceiveSkipsNoise(results, op, from + 1, to);
    }
  }

  /** In the loop as written, once a read has ended the loop (a reply or a panic), later reads
      do not matter. */
  lemma {:induction false} ReceiveIgnoresLaterReads(results: seq<ReadResult>, later: seq<ReadResult>, op: byte, from: nat)
    requires from <= |results|
    requires !ReceiveFrom(results, op, from).Waiting?
    ensures ReceiveFrom(results + later, op, from) == ReceiveFrom(results, op, from)
    decreases |results| - from
  {
    assert results[from] == (results + later)[from];
    if Skipped(results[from], op) {
      ReceiveIgnoresLaterReads(results, later, op, from + 1);
    }
  }

  /** Frames answering opcodes `x`, `y` and `z` followed by one answering `op`: only the
      last is accepted, by the loop as written and by the corrected one. */
  lemma OpcodeMatching(op: byte, x: byte, y: byte, z: byte, fx: seq<byte>, fy: seq<byte>, fz: seq<byte>, reply: seq<byte>)
    requires x != op && y != op && z != op
    requires |fx| >= 2 && fx[1] == x && |fy| >= 2 && fy[1] == y && |fz| >= 2 && fz[1] == z
    requires |reply| >= 2 && reply[1] == op
    ensures ReceiveFrom([Data(fx), Data(fy), Data(fz), Data(reply)], op, 0) == Accepted(3, reply)
    ensures ReplyFrom([Data(fx), Data(fy), Data(fz), Data(reply)], op, 0) == Accepted(3, reply)
  {
    var results := [Data(fx), Data(fy), Data(fz), Data(reply)];
    ReceiveSkipsNoise(results, op, 0, 3);
    AgreeWithoutShortFrames(results, op, 0);
  }

  /** A target that keeps timing out never ends either loop, however many reads are made. */
  lemma SilenceKeepsWaiting(n: nat, op: byte)
    ensures ReceiveFrom(seq(n, _ => ReadErr), op, 0) == Waiting
    ensures ReplyFrom(seq(n, _ => ReadErr), op, 0) == Waiting
  {
    var results := seq(n, _ => ReadErr);
    ReceiveSkipsNoise(results, op, 0, n);
    AgreeWithoutShortFrames(results, op, 0);
  }
}
