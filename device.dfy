/** The session object: the serial options record whose DTR and RTS fields `SetDTR` and
    `SetRTS` update before applying the whole record to the port, and the reset sequence of
    `Sync` built from them. */
module Device {
  import opened Bytes
  import opened Exchange

  /** The value of one control-line field of the options record. The setters only ever
      write `LineOff` or `LineOn`; `LineOther` stands for any other value the serial library
      allows (the record may hold one before the first setter runs). */
  datatype Line = LineOff | LineOn | LineOther

  /** The part of the serial options record this model follows. */
  datatype Options = Options(bitRate: int, dtr: Line, rts: Line)

  /** The (DTR, RTS) pair of every options record in `log`, in order. */
  function LinePairs(log: seq<Options>): (pairs: seq<(Line, Line)>)
    ensures |pairs| == |log|
    ensures forall k :: 0 <= k < |log| ==> pairs[k] == (log[k].dtr, log[k].rts)
  {
    if |log| == 0 then [] else LinePairs(log[..|log| - 1]) + [(log[|log| - 1].dtr, log[|log| - 1].rts)]
  }

  class Esp8266 {
    const portDevice: string
    const baudRate: int
    /** The options record of the open port. */
    var serialOpts: Options
    /** Every options record applied to the port so far, oldest first. */
    ghost var applied: seq<Options>

    /** The session after `Connect` has set its options: the library's raw defaults `raw`
        with the bit rate replaced by the session's baud rate; nothing has been applied yet. */
    constructor (portDevice: string, baudRate: int, raw: Options)
      ensures this.portDevice == portDevice && this.baudRate == baudRate
      ensures serialOpts.bitRate == baudRate
      ensures serialOpts.dtr == raw.dtr && serialOpts.rts == raw.rts
      ensures applied == []
    {
      this.portDevice := portDevice;
      this.baudRate := baudRate;
      serialOpts := raw.(bitRate := baudRate);
      applied := [];
    }

    /** The record last applied to the port is the current one. */
    ghost predicate Latched()
      reads this
    {
      |applied| > 0 && applied[|applied| - 1] == serialOpts
    }

    /** The deferred `Apply`: hands the whole current record to the port. */
    method Apply()
      modifies this`applied
      ensures applied == old(applied) + [serialOpts]
      ensures Latched()
    {
      applied := applied + [serialOpts];
    }

    /** Sets the DTR field to on or off, leaves every other field alone, then applies the record. */
    method SetDTR(v: bool)
      modifies this
      ensures serialOpts.dtr == (if v then LineOn else LineOff)
      ensures serialOpts.rts == old(serialOpts.rts) && serialOpts.bitRate == old(serialOpts.bitRate)
      ensures applied == old(applied) + [serialOpts]
      ensures Latched()
    {
      if v {
        serialOpts := serialOpts.(dtr := LineOn);
        Apply();
        return;
      }
      serialOpts := serialOpts.(dtr := LineOff);
      Apply();
    }

    /** Sets the RTS field to on or off, leaves every other field alone, then applies the record. */
    method SetRTS(v: bool)
      modifies this
      ensures serialOpts.rts == (if v then LineOn else LineOff)
      ensures serialOpts.dtr == old(serialOpts.dtr) && serialOpts.bitRate == old(serialOpts.bitRate)
      ensures applied == old(applied) + [serialOpts]
      ensures Latched()
    {
      if v {
        serialOpts := serialOpts.(rts := LineOn);
        Apply();
        return;
      }
      serialOpts := serialOpts.(rts := LineOff);
      Apply();
    }

    /** The reset into the bootloader followed by the SYNC exchange. `syncOpcode` is the opcode
        of the SYNC command and `results` are the framed reads the exchange sees. */
    method Sync(syncOpcode: byte, results: seq<ReadResult>) returns (r: Outcome)
      modifies this
      ensures |applied| == |old(applied)| + 4 && applied[..|old(applied)|] == old(applied)
      ensures LinePairs(applied[|old(applied)|..])
           == [(LineOff, old(serialOpts.rts)), (LineOff, LineOn), (LineOn, LineOn), (LineOn, LineOff)]
      ensures forall k :: |old(applied)| <= k < |applied| ==> applied[k].bitRate == old(serialOpts.bitRate)
      ensures serialOpts == old(serialOpts).(dtr := LineOn, rts := LineOff) && Latched()
      ensures r == ReceiveFrom(results, syncOpcode, 0)
    {
      ghost var before := applied;
      SetDTR(false);
      SetRTS(true);
      SetDTR(true);
      SetRTS(false);
      assert applied[|before|..] == applied[|before|..][..4];
      r := Exec(syncOpcode, results);
    }
  }
}
