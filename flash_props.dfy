/**
 * What the flash writer's routines promise about the wire: the order of
 * the frames each one sends, when it stops, what it reads back, and which
 * state it leaves behind. Every property is proved about the reference
 * functions of `FlashSpec`, which the methods of `FlashWrite` follow.
 */
module FlashProps {
  import opened Wrappers
  import opened Isp
  import opened Port
  import opened Page
  import opened FlashSpec

  /** `n` copies of the event `e`. */
  function Repeat(e: Event, n: nat): (r: seq<Event>)
    ensures |r| == n && forall k :: 0 <= k < n ==> r[k] == e
  {
    seq(n, _ => e)
  }

  lemma RepeatCons(e: Event, n: nat)
    ensures [e] + Repeat(e, n) == Repeat(e, n + 1)
  {
    assert ([e] + Repeat(e, n))[0] == e;
  }

  /** The `k`-th ready/busy answer taken from cursor `start` on says the target is still busy (bit 0 of its last byte set). */
  predicate Busy(responses: seq<byte>, start: nat, k: nat)
  {
    start + 4 * k + 4 <= |responses| && responses[start + 4 * k + 3] % 2 == 1
  }

  /**
   * What `_wait_poll_rdybsy` from `w` to `r` looks like: nothing but
   * `F0 00 00 00` frames, at least one, four response bytes per frame; `Ok`
   * exactly on an answer whose last byte has bit 0 clear, after every
   * earlier answer said busy; `Stalled` only when fewer than four response
   * bytes are left.
   */
  ghost predicate RdyBsyShape(responses: seq<byte>, w: Wire, r: Wire)
  {
    var n := |r.log| - |w.log|;
    && n >= 1 && r.log == w.log + Repeat(Tx(Encode(PollReady)), n)
    && (r.status == Ok || r.status == Stalled)
    && (r.status == Ok ==> r.cursor == w.cursor + 4 * n <= |responses| && responses[r.cursor - 1] % 2 == 0)
    && (r.status == Stalled ==> r.cursor == w.cursor + 4 * (n - 1) && r.cursor + 4 > |responses|)
    && forall k | 0 <= k < n - 1 :: Busy(responses, w.cursor, k)
  }

  lemma RdyBsyWaitPolls(responses: seq<byte>, w: Wire)
    ensures RdyBsyShape(responses, w, RdyBsyWait(responses, w))
  {
    RdyBsyWaitLog(responses, w);
    RdyBsyWaitEnd(responses, w);
    RdyBsyWaitBusy(responses, w);
  }

  /** The frames of `_wait_poll_rdybsy`: one or more `F0 00 00 00`. */
  lemma {:induction false} RdyBsyWaitLog(responses: seq<byte>, w: Wire)
    ensures var r := RdyBsyWait(responses, w);
      |r.log| - |w.log| >= 1 && r.log == w.log + Repeat(Tx(Encode(PollReady)), |r.log| - |w.log|)
    decreases |responses| - w.cursor
  {
    var sent := w.log + [Tx(Encode(PollReady))];
    assert sent == w.log + Repeat(Tx(Encode(PollReady)), 1);
    if w.cursor + 4 <= |responses| && responses[w.cursor + 3] % 2 != 0 {
      var w' := Wire(sent, w.cursor + 4, Ok);
      RdyBsyWaitLog(responses, w');
      var r := RdyBsyWait(responses, w');
      var n := |r.log| - |w.log|;
      RepeatCons(Tx(Encode(PollReady)), n - 1);
    }
  }

  /** Where `_wait_poll_rdybsy` stops: four response bytes per frame, `Ok` on a ready answer, `Stalled` when they run out. */
  lemma {:induction false} RdyBsyWaitEnd(responses: seq<byte>, w: Wire)
    ensures var r := RdyBsyWait(responses, w);
      var n := |r.log| - |w.log|;
      && n >= 1 && (r.status == Ok || r.status == Stalled)
      && (r.status == Ok ==> r.cursor == w.cursor + 4 * n <= |responses| && responses[r.cursor - 1] % 2 == 0)
      && (r.status == Stalled ==> r.cursor == w.cursor + 4 * (n - 1) && r.cursor + 4 > |responses|)
    decreases |responses| - w.cursor
  {
    if w.cursor + 4 <= |responses| && responses[w.cursor + 3] % 2 != 0 {
      RdyBsyWaitEnd(responses, Wire(w.log + [Tx(Encode(PollReady))], w.cursor + 4, Ok));
    }
  }

  /** Every answer `_wait_poll_rdybsy` takes before its last one said busy. */
  lemma {:induction false} RdyBsyWaitBusy(responses: seq<byte>, w: Wire)
    ensures var r := RdyBsyWait(responses, w);
      forall k | 0 <= k < |r.log| - |w.log| - 1 :: Busy(responses, w.cursor, k)
    decreases |responses| - w.cursor
  {
    if w.cursor + 4 <= |responses| && responses[w.cursor + 3] % 2 != 0 {
      var w' := Wire(w.log + [Tx(Encode(PollReady))], w.cursor + 4, Ok);
      RdyBsyWaitBusy(responses, w');
      var r := RdyBsyWait(responses, w');
      assert Busy(responses, w.cursor, 0);
      forall k | 1 <= k < |r.log| - |w.log| - 1
        ensures Busy(responses, w.cursor, k)
      {
        assert Busy(responses, w'.cursor, k - 1);
      }
    }
  }

  /**
   * What a polling loop of `_wait_poll_flash` from `w` to `r` looks like:
   * nothing but its read frame, at least once, one response byte per frame;
   * `Ok` exactly on the first byte equal to `expected`, `Stalled` only when
   * the responses ran out.
   */
  ghost predicate PollShape(responses: seq<byte>, frame: seq<byte>, expected: byte, w: Wire, r: Wire)
  {
    var n := |r.log| - |w.log|;
    && n >= 1 && r.log == w.log + Repeat(Tx(frame), n)
    && (r.status == Ok || r.status == Stalled)
    && (r.status == Ok ==> r.cursor == w.cursor + n <= |responses| && responses[r.cursor - 1] == expected)
    && (r.status == Stalled ==> r.cursor == w.cursor + n - 1 && r.cursor >= |responses|)
    && forall c | w.cursor <= c < w.cursor + n - 1 :: Differs(responses, c, expected)
  }

  /** The response byte at cursor `c` is there and is not `expected`. */
  predicate Differs(responses: seq<byte>, c: nat, expected: byte)
  {
    c < |responses| && responses[c] != expected
  }

  lemma {:induction false} PollReadPolls(responses: seq<byte>, frame: seq<byte>, expected: byte, w: Wire)
    ensures PollShape(responses, frame, expected, w, PollRead(responses, frame, expected, w))
    decreases |responses| - w.cursor
  {
    var sent := w.log + [Tx(frame)];
    assert sent == w.log + Repeat(Tx(frame), 1);
    if w.cursor < |responses| && responses[w.cursor] != expected {
      var w' := Wire(sent, w.cursor + 1, Ok);
      PollReadPolls(responses, frame, expected, w');
      var r := PollRead(responses, frame, expected, w');
      var n := |r.log| - |w.log|;
      assert |w'.log| == |w.log| + 1;
      RepeatCons(Tx(frame), n - 1);
      assert r.log == w.log + Repeat(Tx(frame), n);
      forall c | w.cursor <= c < w.cursor + n - 1
        ensures Differs(responses, c, expected)
      {
        if c > w.cursor {
          assert w'.cursor <= c < w'.cursor + (|r.log| - |w'.log|) - 1;
        }
      }
    }
  }

  /** The read frame for byte `j` of the page at word address `wordAddr`: the low or high byte of word `wordAddr + j / 2`. */
  function ByteReadFrame(wordAddr: int, j: int): seq<byte>
  {
    if j % 2 == 0 then Encode(ReadLowByte(wordAddr + j / 2)) else Encode(ReadHighByte(wordAddr + j / 2))
  }

  /**
   * Which byte the polling loop of `_wait_poll_flash` reads back for the
   * first non-blank byte `idx` of the page: byte `idx` itself when `idx` is
   * even, but byte `idx - 2` when it is odd, the high byte of the previous
   * word.
   */
  lemma ProbeTarget(wordAddr: nat, idx: nat)
    ensures idx % 2 == 0 ==> ProbeFrame(wordAddr, idx) == ByteReadFrame(wordAddr, idx)
    ensures idx % 2 == 1 ==> ProbeFrame(wordAddr, idx) == ByteReadFrame(wordAddr, idx - 2)
  {
    if idx % 2 == 1 {
      assert (idx - 2) / 2 == idx / 2 - 1 && (idx - 2) % 2 == 1;
    }
  }

  /** For an odd `idx` the probe does not read byte `idx`: the two frames name different words. */
  lemma ProbeMissesOddByte(wordAddr: nat, idx: nat)
    requires idx % 2 == 1
    ensures ProbeFrame(wordAddr, idx) != ByteReadFrame(wordAddr, idx)
  {
    var a := wordAddr + idx / 2;
    assert Be16(a - 1) != Be16(a) by {
      Be16Inverse(a - 1);
      Be16Inverse(a);
    }
    assert ProbeFrame(wordAddr, idx)[1..] == Be16(a - 1);
    assert ByteReadFrame(wordAddr, idx)[1..] == Be16(a);
  }

  /**
   * Byte `idx - 2` of the page comes before the first non-blank byte `idx`,
   * so it is erased: for an odd `idx >= 3` the probe reads back an erased
   * location and compares it with a byte that is not 0xFF.
   */
  lemma ProbeReadsErasedByte(buf: seq<byte>, idx: nat)
    requires FirstNonBlank(buf) == Some(idx) && idx >= 2
    ensures buf[idx - 2] == ERASED && buf[idx] != ERASED
  {
    assert buf[..idx][idx - 2] == buf[idx - 2];
  }

  /**
   * What `_wait_poll_flash` for a page that is not blank looks like from `w`
   * to `r`: nothing at all when the page's bank does not fit a byte (the
   * ValueError of `bytes([page_addr >> 16])`); otherwise the frame loading
   * the page's bank, then the probe frame once per response byte until one
   * equals the first non-blank byte, then, on success, the frame reloading
   * the cached bank `cache` (a ValueError instead when that does not fit a byte).
   */
  ghost predicate FlashPollShape(buf: seq<byte>, wordAddr: nat, cache: nat, responses: seq<byte>, w: Wire, r: Wire)
    requires !IsBlank(buf)
  {
    var idx := FirstNonBlank(buf).value;
    if Bank(wordAddr) >= 0x100 then r == w.(status := ValueError)
    else
      var n := |r.log| - |w.log| - (if r.status == Ok then 2 else 1);
      && n >= 1
      && r.log == w.log + [Tx(Encode(LoadExtendedAddress(Bank(wordAddr))))] + Repeat(Tx(ProbeFrame(wordAddr, idx)), n)
                  + (if r.status == Ok && cache < 0x100 then [Tx(Encode(LoadExtendedAddress(cache)))] else [])
      && r.cursor == w.cursor + (if r.status == Stalled then n - 1 else n)
      && (r.status == Ok || r.status == Stalled || r.status == ValueError)
      && (r.status == Ok ==> cache < 0x100 && r.cursor <= |responses| && responses[r.cursor - 1] == buf[idx])
      && (r.status == ValueError ==> cache >= 0x100 && r.cursor <= |responses| && responses[r.cursor - 1] == buf[idx])
      && (r.status == Stalled ==> r.cursor >= |responses|)
      && forall c | w.cursor <= c < w.cursor + n - 1 :: Differs(responses, c, buf[idx])
  }

  /** `_wait_poll_flash` does nothing for a blank page and otherwise has the shape above. */
  lemma FlashPollWaitFrames(buf: seq<byte>, wordAddr: nat, cache: nat, responses: seq<byte>, w: Wire)
    ensures IsBlank(buf) ==> FlashPollWait(buf, wordAddr, cache, responses, w) == w
    ensures !IsBlank(buf) ==> FlashPollShape(buf, wordAddr, cache, responses, w, FlashPollWait(buf, wordAddr, cache, responses, w))
  {
    if !IsBlank(buf) && Bank(wordAddr) < 0x100 {
      var idx := FirstNonBlank(buf).value;
      var probe := LoadExt(w, Bank(wordAddr));
      var polled := PollRead(responses, ProbeFrame(wordAddr, idx), buf[idx], probe);
      PollReadPolls(responses, ProbeFrame(wordAddr, idx), buf[idx], probe);
      assert |probe.log| == |w.log| + 1;
    }
  }

  /** A frame that commits the page buffer to flash (`4C hi lo 00`). */
  ghost predicate IsCommit(e: Event)
  {
    e.Tx? && Decode(e.frame).Some? && Decode(e.frame).value.WritePage?
  }

  /** A frame that loads the extended-address register. */
  ghost predicate IsLoadExt(e: Event)
  {
    e.Tx? && Decode(e.frame).Some? && Decode(e.frame).value.LoadExtendedAddress?
  }

  /** A frame that reads a program-memory byte back. */
  ghost predicate IsRead(e: Event)
  {
    e.Tx? && Decode(e.frame).Some? && (Decode(e.frame).value.ReadLowByte? || Decode(e.frame).value.ReadHighByte?)
  }

  /** The frames a busy-wait of mode `mode` may send. */
  ghost predicate BusyFrame(mode: BusyMode, e: Event)
  {
    match mode
    case RdyBsyPoll => e == Tx(Encode(PollReady))
    case FlashPoll => IsLoadExt(e) || IsRead(e)
  }

  /** How each frame the writer sends is told apart from a commit. */
  lemma FrameKinds(buf: seq<byte>, k: nat, ext: byte, a: nat, idx: nat)
    requires k < |buf| && k / 2 < 0x100
    ensures !IsCommit(LoadFrame(buf, k))
    ensures IsCommit(Tx(Encode(WritePage(a))))
    ensures IsLoadExt(Tx(Encode(LoadExtendedAddress(ext)))) && !IsCommit(Tx(Encode(LoadExtendedAddress(ext))))
    ensures IsRead(Tx(ProbeFrame(a, idx))) && !IsCommit(Tx(ProbeFrame(a, idx)))
    ensures !IsCommit(Tx(Encode(PollReady)))
  {
  }

  /** A busy-wait only adds frames of its own kind to the log. */
  lemma BusyWaitFrames(mode: BusyMode, buf: seq<byte>, wordAddr: nat, cache: nat, responses: seq<byte>, w: Wire)
    ensures var r := BusyWait(mode, buf, wordAddr, cache, responses, w);
      && |w.log| <= |r.log| && r.log[..|w.log|] == w.log
      && forall k | |w.log| <= k < |r.log| :: BusyFrame(mode, r.log[k])
  {
    match mode
    case RdyBsyPoll =>
      RdyBsyWaitPolls(responses, w);
    case FlashPoll =>
      FlashPollFrames(buf, wordAddr, cache, responses, w);
  }

  /** `_wait_poll_flash` only adds bank loads and read frames to the log. */
  lemma FlashPollFrames(buf: seq<byte>, wordAddr: nat, cache: nat, responses: seq<byte>, w: Wire)
    ensures var r := FlashPollWait(buf, wordAddr, cache, responses, w);
      && |w.log| <= |r.log| && r.log[..|w.log|] == w.log
      && forall k | |w.log| <= k < |r.log| :: IsLoadExt(r.log[k]) || IsRead(r.log[k])
  {
    var r := FlashPollWait(buf, wordAddr, cache, responses, w);
    FlashPollWaitFrames(buf, wordAddr, cache, responses, w);
    if !IsBlank(buf) && Bank(wordAddr) < 0x100 {
      var idx := FirstNonBlank(buf).value;
      FrameKinds([0], 0, Bank(wordAddr), wordAddr, idx);
      if cache < 0x100 {
        FrameKinds([0], 0, cache, wordAddr, idx);
      }
      forall k | |w.log| <= k < |r.log|
        ensures IsLoadExt(r.log[k]) || IsRead(r.log[k])
      {
        var n := |r.log| - |w.log| - (if r.status == Ok then 2 else 1);
        if k == |w.log| {
          assert r.log[k] == Tx(Encode(LoadExtendedAddress(Bank(wordAddr))));
        } else if k <= |w.log| + n {
          assert r.log[k] == Repeat(Tx(ProbeFrame(wordAddr, idx)), n)[k - |w.log| - 1];
        } else {
          assert r.log[k] == Tx(Encode(LoadExtendedAddress(cache)));
        }
      }
    }
  }

  lemma BusyFrameNotCommit(mode: BusyMode, e: Event)
    requires BusyFrame(mode, e)
    ensures !IsCommit(e)
  {
    if mode.RdyBsyPoll? {
      FrameKinds([0], 0, 0, 0, 0);
    }
  }

  /** The page-load frames in order: frame k carries byte k of the buffer, as the low byte of word k / 2 when k is even, else its high byte. */
  lemma {:induction false} LoadFramesOrder(buf: seq<byte>, n: nat)
    requires n <= 0x100 && 2 * n <= |buf|
    ensures forall k | 0 <= k < 2 * n :: LoadFrames(buf, n)[k] == LoadFrame(buf, k)
  {
    if n > 0 {
      LoadFramesOrder(buf, n - 1);
      var r := LoadFrames(buf, n);
      forall k | 0 <= k < 2 * n
        ensures r[k] == LoadFrame(buf, k)
      {
        if k < 2 * n - 2 {
          assert r[k] == LoadFrames(buf, n - 1)[k];
        }
      }
    }
  }

  /** No page-load frame among the first `n` words is a commit. */
  lemma LoadFramesNoCommit(buf: seq<byte>, n: nat)
    requires n <= 0x100 && 2 * n <= |buf|
    ensures forall k | 0 <= k < 2 * n :: !IsCommit(LoadFrames(buf, n)[k])
  {
    LoadFramesOrder(buf, n);
    forall k | 0 <= k < 2 * n
      ensures !IsCommit(LoadFrames(buf, n)[k])
    {
      FrameKinds(buf, k, 0, 0, 0);
    }
  }

  /** The frames `program_page` sends before its commit: the page load, then the bank load if the bank changed. */
  function PageHead(buf: seq<byte>, wordAddr: nat, ext: Option<nat>): seq<Event>
    requires |buf| / 2 <= 0x100
  {
    var bank := Bank(wordAddr);
    LoadFrames(buf, |buf| / 2) + (if ext != Some(bank) && bank < 0x100 then [Tx(Encode(LoadExtendedAddress(bank)))] else [])
  }

  /** `program_page` for a page it can program is its head, the commit, then the busy-wait for the page's bank. */
  lemma ProgramPageSplit(buf: seq<byte>, byteAddr: nat, mode: BusyMode, ext: Option<nat>, responses: seq<byte>, w: Wire)
    requires |buf| / 2 <= 0x100
    requires Bank(byteAddr / 2) < 0x100 || ext == Some(Bank(byteAddr / 2))
    ensures ProgramPage(buf, byteAddr, mode, ext, responses, w)
      == Paged(BusyWait(mode, buf, byteAddr / 2, Bank(byteAddr / 2), responses,
                        Wire(w.log + PageHead(buf, byteAddr / 2, ext) + [Tx(Encode(WritePage(byteAddr / 2)))], w.cursor, Ok)),
               Some(Bank(byteAddr / 2)))
  {
    var wordAddr := byteAddr / 2;
    var bank := Bank(wordAddr);
    var loaded := Wire(w.log + LoadFrames(buf, |buf| / 2), w.cursor, Ok);
    var staged := if Some(bank) != ext then LoadExt(loaded, bank) else loaded;
    assert staged == Wire(w.log + PageHead(buf, wordAddr, ext), w.cursor, Ok);
  }

  /** No frame before the commit is a commit. */
  lemma PageHeadNoCommit(buf: seq<byte>, wordAddr: nat, ext: Option<nat>)
    requires |buf| / 2 <= 0x100
    ensures forall k | 0 <= k < |PageHead(buf, wordAddr, ext)| :: !IsCommit(PageHead(buf, wordAddr, ext)[k])
  {
    var loads := LoadFrames(buf, |buf| / 2);
    var head := PageHead(buf, wordAddr, ext);
    LoadFramesNoCommit(buf, |buf| / 2);
    forall k | 0 <= k < |head|
      ensures !IsCommit(head[k])
    {
      if k < |loads| {
        assert head[k] == loads[k];
      } else {
        FrameKinds([0], 0, Bank(wordAddr), 0, 0);
      }
    }
  }

  /** After the commit frame, the busy-wait adds only frames of its kind, none of them a commit. */
  lemma CommitThenBusy(mode: BusyMode, buf: seq<byte>, wordAddr: nat, cache: nat, responses: seq<byte>, log: seq<Event>, cursor: nat)
    ensures var r := BusyWait(mode, buf, wordAddr, cache, responses, Wire(log + [Tx(Encode(WritePage(wordAddr)))], cursor, Ok));
      && |log| < |r.log| && r.log[..|log|] == log && r.log[|log|] == Tx(Encode(WritePage(wordAddr)))
      && forall k | |log| < k < |r.log| :: BusyFrame(mode, r.log[k]) && !IsCommit(r.log[k])
  {
    var committed := Wire(log + [Tx(Encode(WritePage(wordAddr)))], cursor, Ok);
    var r := BusyWait(mode, buf, wordAddr, cache, responses, committed);
    BusyWaitFrames(mode, buf, wordAddr, cache, responses, committed);
    assert r.log[..|log|] == committed.log[..|log|];
    assert r.log[|log|] == committed.log[|log|];
    forall k | |log| < k < |r.log|
      ensures BusyFrame(mode, r.log[k]) && !IsCommit(r.log[k])
    {
      BusyFrameNotCommit(mode, r.log[k]);
    }
  }

  /**
   * `program_page` for a page it can program: the page-load frames (low
   * byte, then high byte of each word), the extended-address frame exactly
   * when the page's bank differs from the cached one, exactly one commit
   * frame for the page's word address, then only busy-wait frames. The
   * cache afterwards holds the page's bank.
   */
  lemma ProgramPageFrames(buf: seq<byte>, byteAddr: nat, mode: BusyMode, ext: Option<nat>, responses: seq<byte>, w: Wire)
    requires |buf| / 2 <= 0x100
    requires Bank(byteAddr / 2) < 0x100 || ext == Some(Bank(byteAddr / 2))
    ensures var p := ProgramPage(buf, byteAddr, mode, ext, responses, w);
      var head := w.log + PageHead(buf, byteAddr / 2, ext);
      && p.ext == Some(Bank(byteAddr / 2))
      && |head| < |p.wire.log| && p.wire.log[..|head|] == head
      && p.wire.log[|head|] == Tx(Encode(WritePage(byteAddr / 2)))
      && (forall k | |w.log| <= k < |p.wire.log| :: IsCommit(p.wire.log[k]) <==> k == |head|)
      && forall k | |head| < k < |p.wire.log| :: BusyFrame(mode, p.wire.log[k])
  {
    var wordAddr := byteAddr / 2;
    var pageHead := PageHead(buf, wordAddr, ext);
    var head := w.log + pageHead;
    ProgramPageSplit(buf, byteAddr, mode, ext, responses, w);
    CommitThenBusy(mode, buf, wordAddr, Bank(wordAddr), responses, head, w.cursor);
    PageHeadNoCommit(buf, wordAddr, ext);
    FrameKinds([0], 0, 0, wordAddr, 0);
    var log := ProgramPage(buf, byteAddr, mode, ext, responses, w).wire.log;
    forall k | |w.log| <= k < |head|
      ensures !IsCommit(log[k])
    {
      assert log[k] == log[..|head|][k] == head[k] == pageHead[k - |w.log|];
    }
  }

  /**
   * `program_page` when it raises ValueError: a page of more than 256 words
   * fails after loading 256 of them (`bytes([256])`), with the cache
   * untouched; a page whose bank does not fit a byte fails after loading
   * the page, with the cache already set to that bank. Neither commits.
   */
  lemma ProgramPageFails(buf: seq<byte>, byteAddr: nat, mode: BusyMode, ext: Option<nat>, responses: seq<byte>, w: Wire)
    ensures var p := ProgramPage(buf, byteAddr, mode, ext, responses, w);
      |buf| / 2 > 0x100 ==>
        && p.wire == Wire(w.log + LoadFrames(buf, 0x100), w.cursor, ValueError) && p.ext == ext
        && forall k | |w.log| <= k < |p.wire.log| :: !IsCommit(p.wire.log[k])
    ensures var p := ProgramPage(buf, byteAddr, mode, ext, responses, w); var bank := Bank(byteAddr / 2);
      |buf| / 2 <= 0x100 && bank >= 0x100 && ext != Some(bank) ==>
        && p.wire == Wire(w.log + LoadFrames(buf, |buf| / 2), w.cursor, ValueError) && p.ext == Some(bank)
        && forall k | |w.log| <= k < |p.wire.log| :: !IsCommit(p.wire.log[k])
  {
    var p := ProgramPage(buf, byteAddr, mode, ext, responses, w);
    var n := if |buf| / 2 > 0x100 then 0x100 else |buf| / 2;
    LoadFramesNoCommit(buf, n);
    if |buf| / 2 > 0x100 || (Bank(byteAddr / 2) >= 0x100 && ext != Some(Bank(byteAddr / 2))) {
      forall k | |w.log| <= k < |p.wire.log|
        ensures !IsCommit(p.wire.log[k])
      {
        assert p.wire.log[k] == LoadFrames(buf, n)[k - |w.log|];
      }
    }
  }

  /** `r` is `w` with only frames appended: no reset-line change and no pause. */
  ghost predicate FramesOnly(w: Wire, r: Wire)
  {
    && |w.log| <= |r.log| && r.log[..|w.log|] == w.log
    && forall k | |w.log| <= k < |r.log| :: r.log[k].Tx?
  }

  lemma FramesOnlyTrans(a: Wire, b: Wire, c: Wire)
    requires FramesOnly(a, b) && FramesOnly(b, c)
    ensures FramesOnly(a, c)
  {
    assert c.log[..|a.log|] == c.log[..|b.log|][..|a.log|];
    forall k | |a.log| <= k < |c.log|
      ensures c.log[k].Tx?
    {
      if k < |b.log| {
        assert c.log[k] == c.log[..|b.log|][k];
      }
    }
  }

  /** Appending frames only. */
  lemma AppendFrames(w: Wire, r: Wire, frames: seq<Event>)
    requires r.log == w.log + frames && forall k | 0 <= k < |frames| :: frames[k].Tx?
    ensures FramesOnly(w, r)
  {
    assert r.log[..|w.log|] == w.log;
    forall k | |w.log| <= k < |r.log|
      ensures r.log[k].Tx?
    {
      assert r.log[k] == frames[k - |w.log|];
    }
  }

  /** The page-load frames are frames. */
  lemma LoadFramesTx(buf: seq<byte>, n: nat)
    requires n <= 0x100 && 2 * n <= |buf|
    ensures forall k | 0 <= k < |LoadFrames(buf, n)| :: LoadFrames(buf, n)[k].Tx?
  {
    LoadFramesOrder(buf, n);
  }

  /** The head of `program_page` is frames. */
  lemma PageHeadFrames(buf: seq<byte>, wordAddr: nat, ext: Option<nat>)
    requires |buf| / 2 <= 0x100
    ensures forall k | 0 <= k < |PageHead(buf, wordAddr, ext)| :: PageHead(buf, wordAddr, ext)[k].Tx?
  {
    LoadFramesTx(buf, |buf| / 2);
    var loads := LoadFrames(buf, |buf| / 2);
    var head := PageHead(buf, wordAddr, ext);
    forall k | 0 <= k < |head|
      ensures head[k].Tx?
    {
      if k < |loads| {
        assert head[k] == loads[k];
      }
    }
  }

  /** A head of frames, a commit, then busy-wait frames: frames only. */
  lemma HeadCommitBusyFrames(w: Wire, r: Wire, mode: BusyMode, pageHead: seq<Event>)
    requires forall k | 0 <= k < |pageHead| :: pageHead[k].Tx?
    requires |w.log + pageHead| < |r.log| && r.log[..|w.log + pageHead|] == w.log + pageHead
    requires r.log[|w.log + pageHead|].Tx?
    requires forall k | |w.log + pageHead| < k < |r.log| :: BusyFrame(mode, r.log[k])
    ensures FramesOnly(w, r)
  {
    var head := w.log + pageHead;
    assert r.log[..|w.log|] == head[..|w.log|];
    forall k | |w.log| <= k < |r.log|
      ensures r.log[k].Tx?
    {
      if k < |head| {
        assert r.log[k] == head[k] == pageHead[k - |w.log|];
      }
    }
  }

  /** `program_page` only sends frames, however it ends. */
  lemma ProgramPageFramesOnly(buf: seq<byte>, byteAddr: nat, mode: BusyMode, ext: Option<nat>, responses: seq<byte>, w: Wire)
    ensures FramesOnly(w, ProgramPage(buf, byteAddr, mode, ext, responses, w).wire)
  {
    var p := ProgramPage(buf, byteAddr, mode, ext, responses, w);
    var bank := Bank(byteAddr / 2);
    if |buf| / 2 > 0x100 {
      ProgramPageFails(buf, byteAddr, mode, ext, responses, w);
      LoadFramesTx(buf, 0x100);
      AppendFrames(w, p.wire, LoadFrames(buf, 0x100));
    } else if bank >= 0x100 && ext != Some(bank) {
      ProgramPageFails(buf, byteAddr, mode, ext, responses, w);
      LoadFramesTx(buf, |buf| / 2);
      AppendFrames(w, p.wire, LoadFrames(buf, |buf| / 2));
    } else {
      ProgramPageFrames(buf, byteAddr, mode, ext, responses, w);
      PageHeadFrames(buf, byteAddr / 2, ext);
      HeadCommitBusyFrames(w, p.wire, mode, PageHead(buf, byteAddr / 2, ext));
    }
  }

  /** A run of `program_page` calls only sends frames. */
  lemma {:induction false} PlanRunFramesOnly(plan: seq<Job>, mode: BusyMode, ext: Option<nat>, responses: seq<byte>, w: Wire)
    ensures FramesOnly(w, PlanRun(plan, mode, ext, responses, w).wire)
    decreases |plan|
  {
    if plan != [] {
      var p := ProgramPage(plan[0].buf, plan[0].addr, mode, ext, responses, w);
      ProgramPageFramesOnly(plan[0].buf, plan[0].addr, mode, ext, responses, w);
      PlanRunStep(plan, mode, ext, responses, w, p);
      if p.wire.status == Ok {
        PlanRunFramesOnly(plan[1..], mode, p.ext, responses, p.wire);
        FramesOnlyTrans(w, p.wire, PlanRun(plan[1..], mode, p.ext, responses, p.wire).wire);
      }
    }
  }

  /** Every byte of `chunk` from offset `page` on is erased. */
  ghost predicate BlankFrom(chunk: seq<byte>, page: nat)
  {
    forall i | page <= i < |chunk| :: chunk[i] == ERASED
  }

  /** The page plan is empty exactly when the rest of the chunk is erased: then `write` programs nothing. */
  lemma {:induction false} PlanEmptyIffBlank(chunk: seq<byte>, ps: nat, page: nat, addr: nat)
    requires ps > 0
    ensures Plan(chunk, ps, page, addr) == [] <==> BlankFrom(chunk, page)
    decreases |chunk| - page
  {
    if page < |chunk| {
      var image := PageImage(chunk, page, ps);
      PageImageBytes(chunk, page, ps);
      if IsBlank(image) {
        PlanEmptyIffBlank(chunk, ps, page + ps, addr);
        if BlankFrom(chunk, page + ps) {
          forall i | page <= i < |chunk|
            ensures chunk[i] == ERASED
          {
            if i < page + ps {
              assert image[i - page] == chunk[i];
            }
          }
        }
      } else {
        var j :| 0 <= j < ps && image[j] != ERASED;
        assert chunk[page + j] != ERASED;
      }
    }
  }
}
