/**
 * The flash-writing routines of the AVR ISP module as a class over the
 * abstract SPI port. Each method is proved to do exactly what the
 * corresponding reference trace of `FlashSpec` says.
 */
module FlashWrite {
  import opened Wrappers
  import opened Isp
  import opened Port
  import opened Page
  import opened FlashSpec

  /**
   * The refill of the reused page buffer in `write`: every byte set to 0xFF,
   * then the chunk's bytes from offset `page` copied over the front.
   */
  method FillPage(pageBuffer: array<byte>, chunk: seq<byte>, page: nat)
    modifies pageBuffer
    ensures pageBuffer[..] == PageImage(chunk, page, pageBuffer.Length)
  {
    var ps := pageBuffer.Length;
    for index := 0 to ps
      invariant forall j :: 0 <= j < index ==> pageBuffer[j] == ERASED
    {
      pageBuffer[index] := ERASED;
    }
    var slice := if page < |chunk| then chunk[page..if page + ps < |chunk| then page + ps else |chunk|] else [];
    for index := 0 to |slice|
      invariant forall j :: 0 <= j < index ==> pageBuffer[j] == slice[j]
      invariant forall j :: index <= j < ps ==> pageBuffer[j] == ERASED
    {
      pageBuffer[index] := slice[index];
    }
    assert pageBuffer[..] == PageImage(chunk, page, ps) by {
      forall j | 0 <= j < ps
        ensures pageBuffer[..][j] == PageImage(chunk, page, ps)[j]
      {
        if j < |slice| {
          assert slice[j] == chunk[page + j];
        }
      }
    }
  }

  /** The comparison loop of `verify`: the first divergence of the chunk from the dump, or a match. */
  method CompareDump(chunk: seq<byte>, dump: seq<byte>) returns (v: Verdict)
    ensures v == Compare(chunk, dump)
  {
    var index := 0;
    while index < |chunk|
      invariant index <= |chunk| && CompareFrom(chunk, dump, index) == Compare(chunk, dump)
    {
      if index >= |dump| {
        return OutOfRange(index);
      }
      if chunk[index] != dump[index] {
        return Mismatch(index, chunk[index], dump[index]);
      }
      index := index + 1;
    }
    return Match;
  }

  class FlashWriter {
    /** `self.extended_addr`: the bank last loaded into the target's extended-address register. */
    var extendedAddr: Option<nat>
    /** `self.busy_wait`: the page-write completion test chosen by `process`. */
    var busyWait: Option<BusyMode>
    /** The module's `verify` option. */
    const verifyAfterWrite: bool

    constructor (verify: bool)
      ensures extendedAddr == None && busyWait == None && verifyAfterWrite == verify
    {
      extendedAddr := None;
      busyWait := None;
      verifyAfterWrite := verify;
    }

    /** `erase`: the chip-erase sequence. */
    method Erase(port: SpiPort, device: Device)
      modifies port
      ensures port.log == old(port.log) + EraseEvents(device.eraseDelay) && port.cursor == old(port.cursor)
    {
      port.SetReset(false);
      port.SetReset(false);
      port.Transmit(Encode(EnableMemoryAccess));
      port.Sleep(SETTLE_MS);
      port.Transmit(Encode(ChipErase));
      port.Sleep(EraseDelayMs(device.eraseDelay));
      port.SetReset(true);
    }

    /** `_wait_poll_rdybsy`. */
    method WaitPollRdyBsy(port: SpiPort) returns (st: Status)
      modifies port
      ensures port.At(st) == RdyBsyWait(port.responses, old(port.At(Ok)))
    {
      while true
        invariant RdyBsyWait(port.responses, old(port.At(Ok))) == RdyBsyWait(port.responses, port.At(Ok))
        decreases |port.responses| - port.cursor
      {
        var ok, response := port.TransmitReceive(Encode(PollReady));
        if !ok {
          return Stalled;
        }
        if response[|response| - 1] % 2 == 0 {
          return Ok;
        }
      }
    }

    /** One polling loop of `_wait_poll_flash`: repeat `frame` until the byte read back is `expected`. */
    method PollUntil(port: SpiPort, frame: seq<byte>, expected: byte) returns (st: Status)
      modifies port
      ensures port.At(st) == PollRead(port.responses, frame, expected, old(port.At(Ok)))
    {
      while true
        invariant PollRead(port.responses, frame, expected, old(port.At(Ok))) == PollRead(port.responses, frame, expected, port.At(Ok))
        decreases |port.responses| - port.cursor
      {
        port.Transmit(frame);
        var ok, b := port.Receive();
        if !ok {
          return Stalled;
        }
        if b == expected {
          return Ok;
        }
      }
    }

    /** `_wait_poll_flash(spi_interface, pageBuffer, pageAddr)`, `pageAddr` being a word address. */
    method WaitPollFlash(port: SpiPort, pageBuffer: array<byte>, pageAddr: nat) returns (st: Status)
      requires extendedAddr.Some?
      modifies port
      ensures port.At(st) == FlashPollWait(pageBuffer[..], pageAddr, extendedAddr.value, port.responses, old(port.At(Ok)))
    {
      var buffIndex := FirstNonBlank(pageBuffer[..]);
      if buffIndex.None? {
        return Ok;
      }
      var idx := buffIndex.value;
      if Bank(pageAddr) > 0xFF {
        return ValueError;
      }
      port.Transmit(Encode(LoadExtendedAddress(Bank(pageAddr))));
      var frame;
      if idx % 2 == 0 {
        var readAddr := pageAddr + idx / 2;
        frame := Encode(ReadLowByte(readAddr));
      } else {
        var readAddr := pageAddr + idx / 2 - 1;
        frame := Encode(ReadHighByte(readAddr));
      }
      st := PollUntil(port, frame, pageBuffer[idx]);
      if st != Ok {
        return;
      }
      if extendedAddr.value > 0xFF {
        return ValueError;
      }
      port.Transmit(Encode(LoadExtendedAddress(extendedAddr.value)));
    }

    /** `program_page(spi_interface, pageBuffer, pageAddr)`, `pageAddr` being a byte address. */
    method ProgramPage(port: SpiPort, pageBuffer: array<byte>, pageAddr: nat) returns (st: Status)
      requires busyWait.Some?
      modifies this`extendedAddr, port
      ensures Paged(port.At(st), extendedAddr)
        == FlashSpec.ProgramPage(pageBuffer[..], pageAddr, busyWait.value, old(extendedAddr), port.responses, old(port.At(Ok)))
    {
      var wordAddr := pageAddr / 2;
      var i := 0;
      while i < pageBuffer.Length / 2
        invariant i <= pageBuffer.Length / 2 && i <= 0x100
        invariant port.log == old(port.log) + LoadFrames(pageBuffer[..], i) && port.cursor == old(port.cursor)
        invariant extendedAddr == old(extendedAddr)
      {
        if i > 0xFF {
          return ValueError;
        }
        var lowByte, highByte := pageBuffer[2 * i], pageBuffer[2 * i + 1];
        port.Transmit(Encode(LoadLowByte(i, lowByte)));
        port.Transmit(Encode(LoadHighByte(i, highByte)));
        i := i + 1;
      }
      if Some(Bank(wordAddr)) != extendedAddr {
        extendedAddr := Some(Bank(wordAddr));
        if Bank(wordAddr) > 0xFF {
          return ValueError;
        }
        port.Transmit(Encode(LoadExtendedAddress(Bank(wordAddr))));
      }
      port.Transmit(Encode(WritePage(wordAddr)));
      match busyWait.value
      case RdyBsyPoll =>
        st := WaitPollRdyBsy(port);
      case FlashPoll =>
        st := WaitPollFlash(port, pageBuffer, wordAddr);
    }

    /**
     * The body of the read loop of `verify` for the word at `address`: the
     * bank reload when the word's bank is not the cached one, then the low
     * and the high byte.
     */
    method ReadBackWord(port: SpiPort, address: nat, extended: Option<nat>) returns (st: Status, lowByte: byte, highByte: byte)
      modifies port
      ensures port.At(st) == ReadWord(address, extended, port.responses, old(port.At(Ok))).wire
      ensures st == Ok ==> ReadWord(address, extended, port.responses, old(port.At(Ok))).dump == [lowByte, highByte]
    {
      highByte := 0;
      if Some(Bank(address)) != extended {
        if Bank(address) > 0xFF {
          return ValueError, 0, 0;
        }
        port.Transmit(Encode(LoadExtendedAddress(Bank(address))));
      }
      port.Transmit(Encode(ReadLowByte(address)));
      var ok;
      ok, lowByte := port.Receive();
      if !ok {
        return Stalled, lowByte, 0;
      }
      port.Transmit(Encode(ReadHighByte(address)));
      ok, highByte := port.Receive();
      if !ok {
        return Stalled, lowByte, highByte;
      }
      return Ok, lowByte, highByte;
    }

    /** The read loop of `verify`: `count` words from word address `start` on, with a bank cache of its own that starts empty. */
    method ReadBack(port: SpiPort, start: nat, count: nat) returns (st: Status, dump: seq<byte>)
      modifies port
      ensures port.At(st) == ReadWords(start, count, None, port.responses, old(port.At(Ok)), []).wire
      ensures st == Ok ==> dump == ReadWords(start, count, None, port.responses, old(port.At(Ok)), []).dump
    {
      dump := [];
      var extended: Option<nat> := None;
      var address, remaining := start, count;
      ghost var target := ReadWords(start, count, None, port.responses, port.At(Ok), []);
      while remaining > 0
        invariant target == ReadWords(address, remaining, extended, port.responses, port.At(Ok), dump)
      {
        ghost var wire0 := port.At(Ok);
        var lowByte, highByte;
        st, lowByte, highByte := ReadBackWord(port, address, extended);
        ReadWordsTurn(address, remaining, extended, port.responses, wire0, dump, ReadWord(address, extended, port.responses, wire0));
        if st != Ok {
          return;
        }
        extended := Some(Bank(address));
        dump := dump + [lowByte, highByte];
        address, remaining := address + 1, remaining - 1;
      }
      st := Ok;
    }

    /** `verify(spi_interface, chunkSize, startAddress, chunk)`; `verified` is what it returns. */
    method Verify(port: SpiPort, chunkSize: nat, startAddress: nat, chunk: seq<byte>) returns (st: Status, verified: bool)
      modifies port
      ensures port.At(st) == FlashSpec.Verify(chunkSize, startAddress, chunk, port.responses, old(port.At(Ok))).wire
      ensures st == Ok ==> verified == (FlashSpec.Verify(chunkSize, startAddress, chunk, port.responses, old(port.At(Ok))).verdict == Some(Match))
    {
      var dump;
      st, dump := ReadBack(port, startAddress / 2, chunkSize / 2);
      if st != Ok {
        return st, false;
      }
      var v := CompareDump(chunk, dump);
      if v.OutOfRange? {
        return IndexError, false;
      }
      return Ok, v.Match?;
    }

    /** `write(spi_interface, reset, device, chunk, address)`; the reset line is driven through `port`. */
    method Write(port: SpiPort, device: Device, chunk: seq<byte>, address: nat) returns (st: Status)
      requires busyWait.Some?
      modifies this`extendedAddr, port
      ensures port.At(st) == FlashSpec.Write(chunk, address, device.flashPagesize, busyWait.value, verifyAfterWrite,
                                             old(extendedAddr), port.responses, old(port.At(Ok))).wire
      ensures extendedAddr == FlashSpec.Write(chunk, address, device.flashPagesize, busyWait.value, verifyAfterWrite,
                                              old(extendedAddr), port.responses, old(port.At(Ok))).ext
    {
      var flashPagesize := device.flashPagesize;
      var pageBuffer := new byte[flashPagesize];
      port.SetReset(false);
      port.Transmit(Encode(EnableMemoryAccess));
      port.Sleep(SETTLE_MS);
      if flashPagesize == 0 {
        return ValueError;
      }
      ghost var prologue := port.At(Ok);
      assert prologue == old(port.At(Ok)).(log := old(port.log) + WRITE_PROLOGUE);
      ghost var run := RunPages(chunk, flashPagesize, 0, address, busyWait.value, extendedAddr, port.responses, prologue);
      var page, pageAddr := 0, address;
      while page < |chunk|
        invariant run == RunPages(chunk, flashPagesize, page, pageAddr, busyWait.value, extendedAddr, port.responses, port.At(Ok))
        decreases |chunk| - page
      {
        ghost var page1, pageAddr1, ext1, wire1 := page, pageAddr, extendedAddr, port.At(Ok);
        FillPage(pageBuffer, chunk, page);
        if IsBlank(pageBuffer[..]) {
          page := page + flashPagesize;
          RunPagesSkip(chunk, flashPagesize, page1, page, pageAddr, busyWait.value, extendedAddr, port.responses, port.At(Ok));
          continue;
        }
        st := ProgramPage(port, pageBuffer, pageAddr);
        if st != Ok {
          RunPagesStop(chunk, flashPagesize, page1, pageAddr1, busyWait.value, ext1, port.responses, wire1,
                       Paged(port.At(st), extendedAddr));
          return;
        }
        pageAddr := pageAddr + flashPagesize;
        page := page + flashPagesize;
        RunPagesProgram(chunk, flashPagesize, page1, page, pageAddr1, pageAddr, busyWait.value, ext1, port.responses, wire1,
                        Paged(port.At(Ok), extendedAddr));
      }
      RunPagesEnd(chunk, flashPagesize, page, pageAddr, busyWait.value, extendedAddr, port.responses, port.At(Ok));
      if verifyAfterWrite {
        var verified;
        st, verified := Verify(port, |chunk|, address, chunk);
        if st != Ok {
          return;
        }
        if !verified {
          port.SetReset(true);
          return Ok;
        }
      }
      port.SetReset(true);
      return Ok;
    }

    /** The HEX branch of `process`: `write` each part at its own address, stopping at the first that does not end `Ok`. */
    method WriteHex(port: SpiPort, device: Device, parts: seq<Part>) returns (st: Status)
      requires busyWait.Some?
      modifies this`extendedAddr, port
      ensures Paged(port.At(st), extendedAddr)
        == WriteParts(parts, 0, device.flashPagesize, busyWait.value, verifyAfterWrite, old(extendedAddr), port.responses, old(port.At(Ok)))
    {
      ghost var target := WriteParts(parts, 0, device.flashPagesize, busyWait.value, verifyAfterWrite, extendedAddr, port.responses, port.At(Ok));
      st := Ok;
      var i := 0;
      while i < |parts| && st == Ok
        invariant i <= |parts|
        invariant st == Ok ==>
          target == WriteParts(parts, i, device.flashPagesize, busyWait.value, verifyAfterWrite, extendedAddr, port.responses, port.At(Ok))
        invariant st != Ok ==> target == Paged(port.At(st), extendedAddr)
      {
        ghost var ext0, wire0 := extendedAddr, port.At(Ok);
        st := Write(port, device, parts[i].data, parts[i].addr);
        i := i + 1;
        WritePartsTurn(parts, i - 1, i, device.flashPagesize, busyWait.value, verifyAfterWrite, ext0, port.responses, wire0,
                       port.At(st), extendedAddr);
      }
    }

    /**
     * `process` after `get_device_id` has answered `device`: erase, choose
     * the busy wait, then write each HEX part, falling back to the raw file
     * written at `startAddress` when the file is not HEX or a HEX write
     * raises ValueError.
     */
    method Process(port: SpiPort, device: Option<Device>, firmware: Firmware, startAddress: nat) returns (st: Status)
      modifies this, port
      ensures Paged(port.At(st), extendedAddr)
        == FlashSpec.Process(device, firmware, startAddress, verifyAfterWrite, old(extendedAddr), port.responses, old(port.At(Ok)))
      ensures device.Some? ==> busyWait == Some(SelectBusyWait(device.value.busyPoll))
      ensures device.None? ==> busyWait == old(busyWait)
    {
      if device.None? {
        return Ok;
      }
      var d := device.value;
      port.SetReset(true);
      Erase(port, d);
      busyWait := Some(SelectBusyWait(d.busyPoll));
      ghost var erased := port.At(Ok);
      assert erased == old(port.At(Ok)).(log := old(port.log) + [ResetHigh] + EraseEvents(d.eraseDelay));
      match firmware.hex
      case None =>
        st := Write(port, d, firmware.raw, startAddress);
      case Some(parts) =>
        st := WriteHex(port, d, parts);
        if st == ValueError {
          st := Write(port, d, firmware.raw, startAddress);
        }
    }
  }
}
