/**
 * Reference semantics of the flash writer: for each routine of
 * `FlashWrite`, the wire state it leaves when started from wire state `w`
 * (the events it appends, the response bytes it takes, how it ends), as a
 * function of its arguments, the extended-address cache and the target's
 * responses. A routine that does nothing leaves `w` as it is.
 */
module FlashSpec {
  import opened Wrappers
  import opened Isp
  import opened Port
  import opened Page

  /** The page-write completion test held in `self.busy_wait`. */
  datatype BusyMode = RdyBsyPoll | FlashPoll

  /** `process`: a `busy_poll` entry of exactly "0x00" selects the ready/busy poll, anything else read-back polling. */
  function SelectBusyWait(busyPoll: string): BusyMode
  {
    if busyPoll == "0x00" then RdyBsyPoll else FlashPoll
  }

  /** The device record the writer is given: page size in bytes, erase delay in ms, busy-poll capability. */
  datatype Device = Device(flashPagesize: nat, eraseDelay: nat, busyPoll: string)

  /** `word_addr >> 16`: the bank held in the extended-address register. */
  function Bank(wordAddr: nat): nat
  {
    wordAddr / 0x1_0000
  }

  /** `bytes([ext])` raises ValueError when `ext` does not fit a byte; otherwise the frame `4D 00 ext 00` goes out. */
  function LoadExt(w: Wire, ext: nat): Wire
  {
    if ext < 0x100 then Wire(w.log + [Tx(Encode(LoadExtendedAddress(ext)))], w.cursor, Ok)
    else w.(status := ValueError)
  }

  /** The k-th page-load frame of `program_page`: byte k of the buffer, as the low or high byte of word k / 2. */
  function LoadFrame(buf: seq<byte>, k: nat): Event
    requires k < |buf| && k / 2 < 0x100
  {
    if k % 2 == 0 then Tx(Encode(LoadLowByte(k / 2, buf[k])))
    else Tx(Encode(LoadHighByte(k / 2, buf[k])))
  }

  /** The page-load frames for words 0 .. n-1: for each word its low byte, then its high byte. */
  function LoadFrames(buf: seq<byte>, n: nat): (r: seq<Event>)
    requires n <= 0x100 && 2 * n <= |buf|
    ensures |r| == 2 * n
  {
    if n == 0 then []
    else
      LoadFrames(buf, n - 1)
        + [Tx(Encode(LoadLowByte(n - 1, buf[2 * n - 2]))), Tx(Encode(LoadHighByte(n - 1, buf[2 * n - 1])))]
  }

  /**
   * `_wait_poll_rdybsy` from wire state `w`: send `F0 00 00 00` and take its
   * 4-byte answer until the last answer byte has bit 0 clear.
   */
  function RdyBsyWait(responses: seq<byte>, w: Wire): Wire
    decreases |responses| - w.cursor
  {
    var sent := w.log + [Tx(Encode(PollReady))];
    if w.cursor + 4 > |responses| then Wire(sent, w.cursor, Stalled)
    else if responses[w.cursor + 3] % 2 == 0 then Wire(sent, w.cursor + 4, Ok)
    else RdyBsyWait(responses, Wire(sent, w.cursor + 4, Ok))
  }

  /** One polling loop of `_wait_poll_flash`: send the read frame, take one byte, stop when it is `expected`. */
  function PollRead(responses: seq<byte>, frame: seq<byte>, expected: byte, w: Wire): Wire
    decreases |responses| - w.cursor
  {
    var sent := w.log + [Tx(frame)];
    if w.cursor >= |responses| then Wire(sent, w.cursor, Stalled)
    else if responses[w.cursor] == expected then Wire(sent, w.cursor + 1, Ok)
    else PollRead(responses, frame, expected, Wire(sent, w.cursor + 1, Ok))
  }

  /**
   * The read frame `_wait_poll_flash` repeats for the first non-blank byte
   * `idx` of a page at word address `wordAddr`: a low-byte read of word
   * `wordAddr + idx // 2` when `idx` is even, a high-byte read of word
   * `wordAddr + idx // 2 - 1` when it is odd.
   */
  function ProbeFrame(wordAddr: nat, idx: nat): seq<byte>
  {
    if idx % 2 == 0 then Encode(ReadLowByte(wordAddr + idx / 2))
    else Encode(ReadHighByte(wordAddr + idx / 2 - 1))
  }

  /** `_wait_poll_flash` with `self.extended_addr == cache`. */
  function FlashPollWait(buf: seq<byte>, wordAddr: nat, cache: nat, responses: seq<byte>, w: Wire): Wire
  {
    match FirstNonBlank(buf)
    case None => w
    case Some(idx) =>
      var probe := LoadExt(w, Bank(wordAddr));
      if probe.status != Ok then probe
      else
        var polled := PollRead(responses, ProbeFrame(wordAddr, idx), buf[idx], probe);
        if polled.status != Ok then polled else LoadExt(polled, cache)
  }

  /** `self.busy_wait(spi_interface, page_buffer, page_addr)`. */
  function BusyWait(mode: BusyMode, buf: seq<byte>, wordAddr: nat, cache: nat, responses: seq<byte>, w: Wire): Wire
  {
    match mode
    case RdyBsyPoll => RdyBsyWait(responses, w)
    case FlashPoll => FlashPollWait(buf, wordAddr, cache, responses, w)
  }

  /** A wire state together with the value of `self.extended_addr` it leaves behind. */
  datatype Paged = Paged(wire: Wire, ext: Option<nat>)

  /** `program_page(spi_interface, buf, byteAddr)` from `w` with `self.extended_addr == ext`. */
  function ProgramPage(buf: seq<byte>, byteAddr: nat, mode: BusyMode, ext: Option<nat>, responses: seq<byte>, w: Wire): Paged
  {
    var wordAddr := byteAddr / 2;
    var words := |buf| / 2;
    if words > 0x100 then Paged(Wire(w.log + LoadFrames(buf, 0x100), w.cursor, ValueError), ext)
    else
      var loaded := Wire(w.log + LoadFrames(buf, words), w.cursor, Ok);
      var bank := Bank(wordAddr);
      var staged := if Some(bank) != ext then LoadExt(loaded, bank) else loaded;
      if staged.status != Ok then Paged(staged, Some(bank))
      else
        var committed := Emit(staged, Tx(Encode(WritePage(wordAddr))));
        Paged(BusyWait(mode, buf, wordAddr, bank, responses, committed), Some(bank))
  }

  /** The `program_page` calls of a page plan, one after the other, stopping at the first that does not end `Ok`. */
  function PlanRun(plan: seq<Job>, mode: BusyMode, ext: Option<nat>, responses: seq<byte>, w: Wire): Paged
    decreases |plan|, 1
  {
    if plan == [] then Paged(w, ext)
    else PlanRunAfter(plan, mode, responses, ProgramPage(plan[0].buf, plan[0].addr, mode, ext, responses, w))
  }

  /** A plan run once the `program_page` call for its first job has ended as `p`: it stops if that call failed, else it goes on with the rest. */
  function PlanRunAfter(plan: seq<Job>, mode: BusyMode, responses: seq<byte>, p: Paged): Paged
    requires plan != []
    decreases |plan|, 0
  {
    if p.wire.status != Ok then p
    else PlanRun(plan[1..], mode, p.ext, responses, p.wire)
  }

  /**
   * The page loop of `write` from byte offset `page` of the chunk on, the
   * running target address being `addr`: the run of its page plan, so each
   * page image is programmed at `addr` unless it is blank, and only a
   * programmed page advances `addr`.
   */
  function RunPages(chunk: seq<byte>, ps: nat, page: nat, addr: nat, mode: BusyMode,
                    ext: Option<nat>, responses: seq<byte>, w: Wire): Paged
    requires ps > 0
  {
    PlanRun(Plan(chunk, ps, page, addr), mode, ext, responses, w)
  }

  /** The page loop of `write` once the offset has passed the end of the chunk. */
  lemma RunPagesEnd(chunk: seq<byte>, ps: nat, page: nat, addr: nat, mode: BusyMode,
                    ext: Option<nat>, responses: seq<byte>, w: Wire)
    requires ps > 0 && page >= |chunk|
    ensures RunPages(chunk, ps, page, addr, mode, ext, responses, w) == Paged(w, ext)
  {
  }

  /** A turn of the page loop of `write` that skips a blank page: the loop goes on at offset `next`, with the same address. */
  lemma RunPagesSkip(chunk: seq<byte>, ps: nat, page: nat, next: nat, addr: nat, mode: BusyMode,
                     ext: Option<nat>, responses: seq<byte>, w: Wire)
    requires ps > 0 && page < |chunk| && next == page + ps && IsBlank(PageImage(chunk, page, ps))
    ensures RunPages(chunk, ps, page, addr, mode, ext, responses, w) == RunPages(chunk, ps, next, addr, mode, ext, responses, w)
  {
    PlanSkip(chunk, ps, page, next, addr);
  }

  /**
   * A turn of the page loop of `write` whose `program_page` call `p` ended
   * `Ok`: the loop goes on at offset `next` and address `nextAddr`, one page
   * further on each, from the state `p` left behind.
   */
  lemma RunPagesProgram(chunk: seq<byte>, ps: nat, page: nat, next: nat, addr: nat, nextAddr: nat, mode: BusyMode,
                        ext: Option<nat>, responses: seq<byte>, w: Wire, p: Paged)
    requires ps > 0 && page < |chunk| && next == page + ps && nextAddr == addr + ps
    requires !IsBlank(PageImage(chunk, page, ps))
    requires p == ProgramPage(PageImage(chunk, page, ps), addr, mode, ext, responses, w) && p.wire.status == Ok
    ensures RunPages(chunk, ps, page, addr, mode, ext, responses, w)
      == RunPages(chunk, ps, next, nextAddr, mode, p.ext, responses, p.wire)
  {
    PlanFirst(chunk, ps, page, next, addr, nextAddr);
    PlanRunStep(Plan(chunk, ps, page, addr), mode, ext, responses, w, p);
  }

  /** A turn of the page loop of `write` whose `program_page` call `p` did not end `Ok`: the loop ends with it. */
  lemma RunPagesStop(chunk: seq<byte>, ps: nat, page: nat, addr: nat, mode: BusyMode,
                     ext: Option<nat>, responses: seq<byte>, w: Wire, p: Paged)
    requires ps > 0 && page < |chunk|
    requires !IsBlank(PageImage(chunk, page, ps))
    requires p == ProgramPage(PageImage(chunk, page, ps), addr, mode, ext, responses, w) && p.wire.status != Ok
    ensures RunPages(chunk, ps, page, addr, mode, ext, responses, w) == p
  {
    PlanFirst(chunk, ps, page, page + ps, addr, addr + ps);
    PlanRunStep(Plan(chunk, ps, page, addr), mode, ext, responses, w, p);
  }

  /** The first job of a plan run, `p`, and what follows it. */
  lemma PlanRunStep(plan: seq<Job>, mode: BusyMode, ext: Option<nat>, responses: seq<byte>, w: Wire, p: Paged)
    requires plan != [] && p == ProgramPage(plan[0].buf, plan[0].addr, mode, ext, responses, w)
    ensures PlanRun(plan, mode, ext, responses, w) == if p.wire.status != Ok then p else PlanRun(plan[1..], mode, p.ext, responses, p.wire)
  {
  }

  /** A wire state together with the bytes read back so far. */
  datatype Readback = Readback(wire: Wire, dump: seq<byte>)

  /**
   * One turn of the read loop of `verify` at word address `addr` with local
   * bank cache `cache`: the bank reload when the bank changes, then a
   * low-byte read and a high-byte read, each answered by one byte. The dump
   * holds the bytes that arrived before the turn ended.
   */
  function ReadWord(addr: nat, cache: Option<nat>, responses: seq<byte>, w: Wire): Readback
  {
    var bank := Bank(addr);
    var staged := if Some(bank) != cache then LoadExt(w, bank) else w;
    if staged.status != Ok then Readback(staged, [])
    else
      var low := Emit(staged, Tx(Encode(ReadLowByte(addr))));
      if low.cursor >= |responses| then Readback(low.(status := Stalled), [])
      else
        var high := Wire(low.log + [Tx(Encode(ReadHighByte(addr)))], low.cursor + 1, Ok);
        if high.cursor >= |responses| then Readback(high.(status := Stalled), [responses[low.cursor]])
        else Readback(high.(cursor := high.cursor + 1), [responses[low.cursor], responses[high.cursor]])
  }

  /** The read loop of `verify`: `count` words from word address `addr` on, stopping at the first turn that fails. */
  function ReadWords(addr: nat, count: nat, cache: Option<nat>, responses: seq<byte>, w: Wire, dump: seq<byte>): Readback
    decreases count, 1
  {
    if count == 0 then Readback(w, dump)
    else ReadWordsAfter(addr, count, responses, ReadWord(addr, cache, responses, w), dump)
  }

  /** The read loop of `verify` once the turn for word `addr` has ended as `r`: it stops if that turn failed, else it goes on with the next word. */
  function ReadWordsAfter(addr: nat, count: nat, responses: seq<byte>, r: Readback, dump: seq<byte>): Readback
    requires count > 0
    decreases count, 0
  {
    if r.wire.status != Ok then Readback(r.wire, dump + r.dump)
    else ReadWords(addr + 1, count - 1, Some(Bank(addr)), responses, r.wire, dump + r.dump)
  }

  /** A read loop with no words left changes nothing. */
  lemma ReadWordsEnd(addr: nat, count: nat, cache: Option<nat>, responses: seq<byte>, w: Wire, dump: seq<byte>)
    requires count == 0
    ensures ReadWords(addr, count, cache, responses, w, dump) == Readback(w, dump)
  {
  }

  /**
   * The turn for word `addr` decides the loop: a turn that fails ends it
   * with that turn's wire, one that succeeds hands it on to the next word,
   * with that word's bank cached.
   */
  lemma ReadWordsTurn(addr: nat, count: nat, cache: Option<nat>, responses: seq<byte>, w: Wire, dump: seq<byte>, r: Readback)
    requires count > 0 && r == ReadWord(addr, cache, responses, w)
    ensures r.wire.status != Ok ==> ReadWords(addr, count, cache, responses, w, dump).wire == r.wire
    ensures r.wire.status == Ok ==>
      ReadWords(addr, count, cache, responses, w, dump) == ReadWords(addr + 1, count - 1, Some(Bank(addr)), responses, r.wire, dump + r.dump)
  {
  }

  /** The outcome of comparing the chunk with the read-back dump. */
  datatype Verdict = Match | Mismatch(index: nat, expected: byte, actual: byte) | OutOfRange(index: nat)

  /**
   * `v` is what the comparison loop of `verify` must report: a match when
   * every chunk byte agrees with the dump, else the first index where they
   * differ, or the first index past the end of the dump (`IndexError`).
   */
  ghost predicate FirstDivergence(chunk: seq<byte>, dump: seq<byte>, v: Verdict)
  {
    match v
    case Match => |chunk| <= |dump| && forall i | 0 <= i < |chunk| :: chunk[i] == dump[i]
    case Mismatch(i, e, a) =>
      && i < |chunk| && i < |dump| && e == chunk[i] && a == dump[i] && e != a
      && forall j | 0 <= j < i :: chunk[j] == dump[j]
    case OutOfRange(i) => i == |dump| < |chunk| && forall j | 0 <= j < i :: chunk[j] == dump[j]
  }

  /** The comparison loop of `verify` from index `i` on. */
  function CompareFrom(chunk: seq<byte>, dump: seq<byte>, i: nat): Verdict
    requires i <= |chunk|
    decreases |chunk| - i
  {
    if i == |chunk| then Match
    else if i >= |dump| then OutOfRange(i)
    else if chunk[i] != dump[i] then Mismatch(i, chunk[i], dump[i])
    else CompareFrom(chunk, dump, i + 1)
  }

  function Compare(chunk: seq<byte>, dump: seq<byte>): Verdict
  {
    CompareFrom(chunk, dump, 0)
  }

  /** A wire state together with the verdict of the comparison, when the comparison ran. */
  datatype Checked = Checked(wire: Wire, verdict: Option<Verdict>)

  /** `verify(spi_interface, chunkSize, start, chunk)` from `w`. */
  function Verify(chunkSize: nat, start: nat, chunk: seq<byte>, responses: seq<byte>, w: Wire): Checked
  {
    var rb := ReadWords(start / 2, chunkSize / 2, None, responses, w, []);
    if rb.wire.status != Ok then Checked(rb.wire, None)
    else
      var v := Compare(chunk, rb.dump);
      Checked(rb.wire.(status := if v.OutOfRange? then IndexError else Ok), Some(v))
  }

  /** `time.sleep(erase_delay // 1000)`, in milliseconds: the delay cut down to whole seconds. */
  function EraseDelayMs(eraseDelay: nat): (ms: nat)
    ensures ms % 1000 == 0 && ms <= eraseDelay < ms + 1000
  {
    eraseDelay / 1000 * 1000
  }

  /** The settle time after enabling memory access, `time.sleep(0.5)`. */
  const SETTLE_MS: nat := 500

  /** `erase`: reset low (twice), enable memory access, settle, chip erase, erase delay, reset high. */
  function EraseEvents(eraseDelay: nat): seq<Event>
  {
    [ ResetLow, ResetLow, Tx(Encode(EnableMemoryAccess)), Delay(SETTLE_MS),
      Tx(Encode(ChipErase)), Delay(EraseDelayMs(eraseDelay)), ResetHigh ]
  }

  /** The opening of every `write`: reset low, enable memory access, settle. */
  const WRITE_PROLOGUE: seq<Event> := [ResetLow, Tx(Encode(EnableMemoryAccess)), Delay(SETTLE_MS)]

  /** A wire state, the extended-address cache it leaves, and the verification verdict if one was reached. */
  datatype Session = Session(wire: Wire, ext: Option<nat>, verdict: Option<Verdict>)

  /** `write(spi_interface, reset, device, chunk, address)` from `w`, with page size `ps`. */
  function Write(chunk: seq<byte>, address: nat, ps: nat, mode: BusyMode, verify: bool,
                 ext: Option<nat>, responses: seq<byte>, w: Wire): Session
  {
    var prologue := w.(log := w.log + WRITE_PROLOGUE);
    if ps == 0 then Session(prologue.(status := ValueError), ext, None)
    else
      var run := RunPages(chunk, ps, 0, address, mode, ext, responses, prologue);
      if run.wire.status != Ok then Session(run.wire, run.ext, None)
      else if !verify then Session(Emit(run.wire, ResetHigh), run.ext, None)
      else
        var c := Verify(|chunk|, address, chunk, responses, run.wire);
        if c.wire.status != Ok then Session(c.wire, run.ext, c.verdict)
        else Session(Emit(c.wire, ResetHigh), run.ext, c.verdict)
  }

  /** One part of a HEX image: its load address and its bytes. */
  datatype Part = Part(addr: nat, data: seq<byte>)

  /** The firmware file: its HEX decoding (`None` when decoding raised) and its raw bytes. */
  datatype Firmware = Firmware(hex: Option<seq<Part>>, raw: seq<byte>)

  /** The `write` calls of the HEX branch of `process` from part `i` on, stopping at the first that does not end `Ok`. */
  function WriteParts(parts: seq<Part>, i: nat, ps: nat, mode: BusyMode, verify: bool,
                      ext: Option<nat>, responses: seq<byte>, w: Wire): Paged
    decreases |parts| - i, 1
  {
    if i >= |parts| then Paged(w, ext)
    else WritePartsAfter(parts, i, ps, mode, verify, responses, Write(parts[i].data, parts[i].addr, ps, mode, verify, ext, responses, w))
  }

  /** The HEX branch of `process` once the `write` of part `i` has ended as `s`: it stops if that write failed, else it goes on with the next part. */
  function WritePartsAfter(parts: seq<Part>, i: nat, ps: nat, mode: BusyMode, verify: bool,
                           responses: seq<byte>, s: Session): Paged
    requires i < |parts|
    decreases |parts| - i, 0
  {
    if s.wire.status != Ok then Paged(s.wire, s.ext)
    else WriteParts(parts, i + 1, ps, mode, verify, s.ext, responses, s.wire)
  }

  /**
   * The `write` of part `i`, which leaves the wire `sw` and the cached bank
   * `sext`, decides the HEX branch: it stops there on failure, else it goes
   * on with part `next`.
   */
  lemma WritePartsTurn(parts: seq<Part>, i: nat, next: nat, ps: nat, mode: BusyMode, verify: bool,
                       ext: Option<nat>, responses: seq<byte>, w: Wire, sw: Wire, sext: Option<nat>)
    requires i < |parts| && next == i + 1
    requires sw == Write(parts[i].data, parts[i].addr, ps, mode, verify, ext, responses, w).wire
    requires sext == Write(parts[i].data, parts[i].addr, ps, mode, verify, ext, responses, w).ext
    ensures sw.status != Ok ==> WriteParts(parts, i, ps, mode, verify, ext, responses, w) == Paged(sw, sext)
    ensures sw.status == Ok ==>
      WriteParts(parts, i, ps, mode, verify, ext, responses, w) == WriteParts(parts, next, ps, mode, verify, sext, responses, sw)
  {
  }

  /**
   * `process` once `get_device_id` has answered `device`: reset high, erase,
   * then the HEX parts; a ValueError inside the HEX branch falls back to
   * writing the raw file at `startAddress`, as does a file that is not HEX.
   */
  function Process(device: Option<Device>, fw: Firmware, startAddress: nat, verify: bool,
                   ext: Option<nat>, responses: seq<byte>, w: Wire): Paged
  {
    match device
    case None => Paged(w, ext)
    case Some(d) =>
      var erased := w.(log := w.log + [ResetHigh] + EraseEvents(d.eraseDelay));
      var mode := SelectBusyWait(d.busyPoll);
      match fw.hex
      case None =>
        var s := Write(fw.raw, startAddress, d.flashPagesize, mode, verify, ext, responses, erased);
        Paged(s.wire, s.ext)
      case Some(parts) =>
        var h := WriteParts(parts, 0, d.flashPagesize, mode, verify, ext, responses, erased);
        if h.wire.status != ValueError then h
        else
          var s := Write(fw.raw, startAddress, d.flashPagesize, mode, verify, h.ext, responses, h.wire.(status := Ok));
          Paged(s.wire, s.ext)
  }
}
