/**
 * The SPI port and reset line as an abstract device: everything the writer
 * does on the wire is appended to a log, and the target's answers come from
 * a fixed stream of response bytes read through a cursor.
 */
module Port {
  import opened Isp

  /** One observable action on the wire: a frame sent, the reset line driven, or a pause. */
  datatype Event = Tx(frame: seq<byte>) | ResetLow | ResetHigh | Delay(ms: nat)

  /**
   * How a routine ended. `Stalled` stands for a wait on a target that never
   * answers (the response stream ran dry); `ValueError` and `IndexError` are
   * the Python exceptions of the same names.
   */
  datatype Status = Ok | Stalled | ValueError | IndexError

  /**
   * The state of the wire after some routine: every event so far, how many
   * response bytes have been taken, and how the routine ended.
   */
  datatype Wire = Wire(log: seq<Event>, cursor: nat, status: Status)

  /** `w` with one more event on the wire. */
  function Emit(w: Wire, e: Event): Wire
  {
    w.(log := w.log + [e])
  }

  class SpiPort {
    /** What has happened on the wire, oldest first. */
    var log: seq<Event>
    /** Every byte the target will answer with, in order. */
    const responses: seq<byte>
    /** How many of `responses` have been taken. */
    var cursor: nat

    constructor (responses: seq<byte>)
      ensures log == [] && this.responses == responses && cursor == 0
    {
      log := [];
      this.responses := responses;
      cursor := 0;
    }

    /** The port's state as a `Wire` whose routine ended with `st`. */
    function At(st: Status): Wire
      reads this
    {
      Wire(log, cursor, st)
    }

    /** `spi_interface.transmit(frame)`. */
    method Transmit(frame: seq<byte>)
      modifies this
      ensures log == old(log) + [Tx(frame)] && cursor == old(cursor)
    {
      log := log + [Tx(frame)];
    }

    /** `spi_interface.transmit_receive(frame)`: the frame goes out; its answer is the next |frame| bytes, if there are that many. */
    method TransmitReceive(frame: seq<byte>) returns (ok: bool, response: seq<byte>)
      modifies this
      ensures log == old(log) + [Tx(frame)]
      ensures ok == (old(cursor) + |frame| <= |responses|)
      ensures ok ==> response == responses[old(cursor)..old(cursor) + |frame|] && cursor == old(cursor) + |frame|
      ensures !ok ==> cursor == old(cursor)
    {
      log := log + [Tx(frame)];
      ok := cursor + |frame| <= |responses|;
      if ok {
        response := responses[cursor..cursor + |frame|];
        cursor := cursor + |frame|;
      } else {
        response := [];
      }
    }

    /** `spi_interface.receive(1)`: the next response byte, if there is one. */
    method Receive() returns (ok: bool, b: byte)
      modifies this
      ensures log == old(log)
      ensures ok == (old(cursor) < |responses|)
      ensures ok ==> b == responses[old(cursor)] && cursor == old(cursor) + 1
      ensures !ok ==> cursor == old(cursor)
    {
      ok := cursor < |responses|;
      if ok {
        b := responses[cursor];
        cursor := cursor + 1;
      } else {
        b := 0;
      }
    }

    /** `reset.status = 1` when `high`, else `reset.status = 0`. */
    method SetReset(high: bool)
      modifies this
      ensures log == old(log) + [if high then ResetHigh else ResetLow] && cursor == old(cursor)
    {
      log := log + [if high then ResetHigh else ResetLow];
    }

    /** `time.sleep`, recorded with its length in milliseconds. */
    method Sleep(ms: nat)
      modifies this
      ensures log == old(log) + [Delay(ms)] && cursor == old(cursor)
    {
      log := log + [Delay(ms)];
    }
  }
}
