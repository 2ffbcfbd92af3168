/**
 * What `write` and `process` promise about the reset line and the order of
 * a programming session: memory access first, then frames only while the
 * target is held in reset, and reset released at the end of every write
 * that completes, whether or not verification found a mismatch.
 */
module SessionProps {
  import opened Isp
  import opened Wrappers
  import opened Port
  import opened Page
  import opened FlashSpec
  import opened FlashProps
  import opened VerifyProps

  /** Every event of `log` from index `from` up to `to` is a frame. */
  ghost predicate FramesBetween(log: seq<Event>, from: nat, to: nat)
  {
    from <= to <= |log| && forall k | from <= k < to :: log[k].Tx?
  }

  /**
   * `verify` sends frames only. It ends `Ok` or with `IndexError` exactly when
   * it reached the comparison, and with `IndexError` exactly when the
   * comparison ran out of dump.
   */
  lemma VerifyEnds(chunkSize: nat, start: nat, chunk: seq<byte>, responses: seq<byte>, w: Wire)
    requires w.status == Ok
    ensures FramesOnly(w, Verify(chunkSize, start, chunk, responses, w).wire)
    ensures Verify(chunkSize, start, chunk, responses, w).verdict.Some? <==>
      Verify(chunkSize, start, chunk, responses, w).wire.status in {Ok, IndexError}
    ensures Verify(chunkSize, start, chunk, responses, w).wire.status == IndexError <==>
      Verify(chunkSize, start, chunk, responses, w).verdict.Some? && Verify(chunkSize, start, chunk, responses, w).verdict.value.OutOfRange?
  {
    var rb := ReadWords(start / 2, chunkSize / 2, None, responses, w, []);
    ReadWordsFramesOnly(start / 2, chunkSize / 2, None, responses, w, []);
    assert Verify(chunkSize, start, chunk, responses, w).wire.log == rb.wire.log;
  }

  /**
   * `write(spi, reset, device, chunk, address)` with page size `ps`. It opens
   * with reset low, memory access enabled and the settle pause. After that it
   * sends frames only. When it completes, its last event drives reset high.
   * When it fails, reset stays low. A verification mismatch still completes
   * the write. Only an exhausted dump (`IndexError`) fails it, and without
   * `verify` there is no verdict. A page size of 0 makes `range` raise
   * `ValueError` before any page is sent.
   */
  lemma WriteShape(chunk: seq<byte>, address: nat, ps: nat, mode: BusyMode, verify: bool,
                   ext: Option<nat>, responses: seq<byte>, w: Wire)
    requires w.status == Ok
    ensures |Write(chunk, address, ps, mode, verify, ext, responses, w).wire.log| >= |w.log| + 3
    ensures Write(chunk, address, ps, mode, verify, ext, responses, w).wire.log[..|w.log| + 3] == w.log + WRITE_PROLOGUE
    ensures Write(chunk, address, ps, mode, verify, ext, responses, w).wire.status == Ok ==>
      var log := Write(chunk, address, ps, mode, verify, ext, responses, w).wire.log;
      |log| > |w.log| + 3 && log[|log| - 1] == ResetHigh && FramesBetween(log, |w.log| + 3, |log| - 1)
    ensures Write(chunk, address, ps, mode, verify, ext, responses, w).wire.status != Ok ==>
      var log := Write(chunk, address, ps, mode, verify, ext, responses, w).wire.log;
      FramesBetween(log, |w.log| + 3, |log|)
    ensures !verify ==> Write(chunk, address, ps, mode, verify, ext, responses, w).verdict.None?
    ensures verify && Write(chunk, address, ps, mode, verify, ext, responses, w).wire.status == Ok ==>
      Write(chunk, address, ps, mode, verify, ext, responses, w).verdict.Some?
    ensures Write(chunk, address, ps, mode, verify, ext, responses, w).verdict.Some? ==>
      (Write(chunk, address, ps, mode, verify, ext, responses, w).wire.status == Ok <==>
       !Write(chunk, address, ps, mode, verify, ext, responses, w).verdict.value.OutOfRange?)
    ensures ps == 0 ==> Write(chunk, address, ps, mode, verify, ext, responses, w).wire == Wire(w.log + WRITE_PROLOGUE, w.cursor, ValueError)
  {
    var prologue := w.(log := w.log + WRITE_PROLOGUE);
    if ps > 0 {
      var run := RunPages(chunk, ps, 0, address, mode, ext, responses, prologue);
      PlanRunFramesOnly(Plan(chunk, ps, 0, address), mode, ext, responses, prologue);
      if run.wire.status == Ok && verify {
        VerifyEnds(|chunk|, address, chunk, responses, run.wire);
        var c := Verify(|chunk|, address, chunk, responses, run.wire);
        FramesOnlyTrans(prologue, run.wire, c.wire);
        WriteCases(w, prologue, run, c, Write(chunk, address, ps, mode, verify, ext, responses, w), verify);
      } else {
        WriteCases(w, prologue, run, Checked(run.wire, None), Write(chunk, address, ps, mode, verify, ext, responses, w), verify);
      }
    }
  }

  /** The case analysis of `WriteShape` on the page run `run`, the verification `c` and the result `s`. */
  lemma WriteCases(w: Wire, prologue: Wire, run: Paged, c: Checked, s: Session, verify: bool)
    requires prologue == w.(log := w.log + WRITE_PROLOGUE)
    requires FramesOnly(prologue, run.wire) && FramesOnly(prologue, c.wire)
    requires run.wire.status == Ok && verify ==> (c.verdict.Some? <==> c.wire.status in {Ok, IndexError})
    requires run.wire.status == Ok && verify ==> (c.wire.status == IndexError <==> c.verdict.Some? && c.verdict.value.OutOfRange?)
    requires s == if run.wire.status != Ok then Session(run.wire, run.ext, None)
      else if !verify then Session(Emit(run.wire, ResetHigh), run.ext, None)
      else if c.wire.status != Ok then Session(c.wire, run.ext, c.verdict)
      else Session(Emit(c.wire, ResetHigh), run.ext, c.verdict)
    ensures |s.wire.log| >= |w.log| + 3 && s.wire.log[..|w.log| + 3] == w.log + WRITE_PROLOGUE
    ensures s.wire.status == Ok ==>
      |s.wire.log| > |w.log| + 3 && s.wire.log[|s.wire.log| - 1] == ResetHigh && FramesBetween(s.wire.log, |w.log| + 3, |s.wire.log| - 1)
    ensures s.wire.status != Ok ==> FramesBetween(s.wire.log, |w.log| + 3, |s.wire.log|)
    ensures !verify ==> s.verdict.None?
    ensures verify && s.wire.status == Ok ==> s.verdict.Some?
    ensures s.verdict.Some? ==> (s.wire.status == Ok <==> !s.verdict.value.OutOfRange?)
  {
    var last := if run.wire.status != Ok || !verify then run.wire else c.wire;
    assert FramesOnly(prologue, last);
    if s.wire.status == Ok {
      assert s.wire.log == last.log + [ResetHigh];
      assert s.wire.log[..|last.log|] == last.log;
    }
  }

  /**
   * `verify` reads through a bank cache of its own: whatever banks it loads
   * into the target's extended-address register, the `self.extended_addr`
   * that `write` leaves is the one its page loop left, the same as without
   * `verify`. After a verification that crossed into another bank, the
   * register and `self.extended_addr` can therefore disagree.
   */
  lemma WriteCacheIgnoresVerify(chunk: seq<byte>, address: nat, ps: nat, mode: BusyMode,
                                ext: Option<nat>, responses: seq<byte>, w: Wire)
    ensures Write(chunk, address, ps, mode, true, ext, responses, w).ext == Write(chunk, address, ps, mode, false, ext, responses, w).ext
  {
  }

  /** A chunk with no byte to program and no verification: the prologue, then reset high, and nothing taken from the target. */
  lemma WriteBlankChunk(chunk: seq<byte>, address: nat, ps: nat, mode: BusyMode,
                        ext: Option<nat>, responses: seq<byte>, w: Wire)
    requires w.status == Ok && ps > 0 && BlankFrom(chunk, 0)
    ensures Write(chunk, address, ps, mode, false, ext, responses, w)
      == Session(Wire(w.log + WRITE_PROLOGUE + [ResetHigh], w.cursor, Ok), ext, None)
  {
    PlanEmptyIffBlank(chunk, ps, 0, address);
  }

  /** `r` continues `w`: the log of `w` is a prefix of the log of `r`. */
  ghost predicate Extends(w: Wire, r: Wire)
  {
    |w.log| <= |r.log| && r.log[..|w.log|] == w.log
  }

  /** `r` continues `w`, and if `r` ended `Ok` after adding events, its last event released reset. */
  ghost predicate EndsReleased(w: Wire, r: Wire)
  {
    Extends(w, r) && (r.status == Ok ==> |r.log| == |w.log| || r.log[|r.log| - 1] == ResetHigh)
  }

  /** A `write` from an `Ok` state continues that state, and releases reset when it completes. */
  lemma WriteEndsReleased(chunk: seq<byte>, address: nat, ps: nat, mode: BusyMode, verify: bool,
                          ext: Option<nat>, responses: seq<byte>, w: Wire)
    requires w.status == Ok
    ensures EndsReleased(w, Write(chunk, address, ps, mode, verify, ext, responses, w).wire)
    ensures |w.log| < |Write(chunk, address, ps, mode, verify, ext, responses, w).wire.log|
  {
    WriteShape(chunk, address, ps, mode, verify, ext, responses, w);
    var log := Write(chunk, address, ps, mode, verify, ext, responses, w).wire.log;
    assert log[..|w.log|] == log[..|w.log| + 3][..|w.log|];
  }

  lemma EndsReleasedTrans(a: Wire, b: Wire, c: Wire)
    requires EndsReleased(a, b) && b.status == Ok && EndsReleased(b, c)
    ensures EndsReleased(a, c)
  {
    assert c.log[..|a.log|] == c.log[..|b.log|][..|a.log|];
    if |c.log| == |b.log| {
      assert c.log == c.log[..|b.log|];
    }
  }

  /** A session `c` that adds events after `b`, where `b` continues `a` however `b` ended. */
  lemma EndsReleasedAfter(a: Wire, b: Wire, c: Wire)
    requires Extends(a, b) && EndsReleased(b, c) && |b.log| < |c.log|
    ensures EndsReleased(a, c)
  {
    assert c.log[..|a.log|] == c.log[..|b.log|][..|a.log|];
  }

  /** The HEX branch of `process` continues the state it starts from, and releases reset when it completes after writing. */
  lemma {:induction false} WritePartsShape(parts: seq<Part>, i: nat, ps: nat, mode: BusyMode, verify: bool,
                                          ext: Option<nat>, responses: seq<byte>, w: Wire)
    requires w.status == Ok
    ensures EndsReleased(w, WriteParts(parts, i, ps, mode, verify, ext, responses, w).wire)
    decreases |parts| - i
  {
    if i < |parts| {
      var s := Write(parts[i].data, parts[i].addr, ps, mode, verify, ext, responses, w);
      WriteEndsReleased(parts[i].data, parts[i].addr, ps, mode, verify, ext, responses, w);
      if s.wire.status == Ok {
        WritePartsShape(parts, i + 1, ps, mode, verify, s.ext, responses, s.wire);
        EndsReleasedTrans(w, s.wire, WriteParts(parts, i + 1, ps, mode, verify, s.ext, responses, s.wire).wire);
      }
    } else {
      assert w.log[..|w.log|] == w.log;
    }
  }

  /**
   * `process` once `get_device_id` has answered. Without a device it does
   * nothing. With one it drives reset high, then erases, and only then
   * writes. A session that completes ends with reset released.
   */
  lemma ProcessShape(device: Option<Device>, fw: Firmware, startAddress: nat, verify: bool,
                     ext: Option<nat>, responses: seq<byte>, w: Wire)
    requires w.status == Ok
    ensures device.None? ==> Process(device, fw, startAddress, verify, ext, responses, w) == Paged(w, ext)
    ensures device.Some? ==>
      var log := Process(device, fw, startAddress, verify, ext, responses, w).wire.log;
      var opening := w.log + [ResetHigh] + EraseEvents(device.value.eraseDelay);
      |opening| <= |log| && log[..|opening|] == opening
    ensures device.Some? && Process(device, fw, startAddress, verify, ext, responses, w).wire.status == Ok ==>
      var log := Process(device, fw, startAddress, verify, ext, responses, w).wire.log;
      |log| > 0 && log[|log| - 1] == ResetHigh
  {
    if device.Some? {
      var d := device.value;
      var erased := w.(log := w.log + [ResetHigh] + EraseEvents(d.eraseDelay));
      var mode := SelectBusyWait(d.busyPoll);
      var r := Process(device, fw, startAddress, verify, ext, responses, w).wire;
      match fw.hex
      case None =>
        WriteEndsReleased(fw.raw, startAddress, d.flashPagesize, mode, verify, ext, responses, erased);
        ProcessCases(w, erased, r, d.eraseDelay);
      case Some(parts) =>
        WritePartsShape(parts, 0, d.flashPagesize, mode, verify, ext, responses, erased);
        var h := WriteParts(parts, 0, d.flashPagesize, mode, verify, ext, responses, erased);
        if h.wire.status == ValueError {
          var h' := h.wire.(status := Ok);
          WriteEndsReleased(fw.raw, startAddress, d.flashPagesize, mode, verify, h.ext, responses, h');
          EndsReleasedAfter(erased, h', r);
        }
        ProcessCases(w, erased, r, d.eraseDelay);
    }
  }

  /** The conclusion of `ProcessShape` from a session `r` that continues the erase. */
  lemma ProcessCases(w: Wire, erased: Wire, r: Wire, eraseDelay: nat)
    requires erased.log == w.log + [ResetHigh] + EraseEvents(eraseDelay)
    requires EndsReleased(erased, r)
    ensures |erased.log| <= |r.log| && r.log[..|erased.log|] == erased.log
    ensures r.status == Ok ==> |r.log| > 0 && r.log[|r.log| - 1] == ResetHigh
  {
    if r.status == Ok && |r.log| == |erased.log| {
      assert r.log == erased.log;
    }
  }
}
