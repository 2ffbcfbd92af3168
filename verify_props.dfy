/**
 * What `verify` promises: the read loop takes two response bytes per word
 * with a bank cache of its own, and the comparison reports the first byte
 * where the chunk and the read-back dump part ways.
 */
module VerifyProps {
  import opened Isp
  import opened Wrappers
  import opened Port
  import opened FlashSpec
  import opened FlashProps

  /** A single read turn succeeds exactly when the bank fits a byte and two answers remain, and then it takes those two. */
  lemma ReadWordOutcome(addr: nat, cache: Option<nat>, responses: seq<byte>, w: Wire)
    requires w.status == Ok
    requires cache.None? || cache.value < 0x100
    ensures ReadWord(addr, cache, responses, w).wire.status == Ok <==> w.cursor + 2 <= |responses| && addr < 0x100_0000
    ensures ReadWord(addr, cache, responses, w).wire.status != IndexError
    ensures ReadWord(addr, cache, responses, w).wire.status == Ok ==>
      && ReadWord(addr, cache, responses, w).wire.cursor == w.cursor + 2
      && ReadWord(addr, cache, responses, w).dump == responses[w.cursor .. w.cursor + 2]
      && Bank(addr) < 0x100
  {
    assert Bank(addr) < 0x100 <==> addr < 0x100_0000;
  }

  /**
   * The frames of one successful read turn at word `addr`: the extended-address
   * load of the word's bank when `reload` holds, then the low-byte read and the
   * high-byte read of the word.
   */
  function TurnFrames(addr: nat, reload: bool): (frames: seq<Event>)
    requires reload ==> Bank(addr) < 0x100
    ensures |frames| == if reload then 3 else 2
  {
    (if reload then [Tx(Encode(LoadExtendedAddress(Bank(addr))))] else [])
      + [Tx(Encode(ReadLowByte(addr))), Tx(Encode(ReadHighByte(addr)))]
  }

  /** A single read turn sends frames only; `ReadWordLog` gives the exact frames. */
  lemma ReadWordFramesOnly(addr: nat, cache: Option<nat>, responses: seq<byte>, w: Wire)
    requires w.status == Ok
    ensures FramesOnly(w, ReadWord(addr, cache, responses, w).wire)
  {
    var bank := Bank(addr);
    var low := Tx(Encode(ReadLowByte(addr)));
    var high := Tx(Encode(ReadHighByte(addr)));
    var r := ReadWord(addr, cache, responses, w);
    if Some(bank) != cache {
      if bank < 0x100 {
        var load := Tx(Encode(LoadExtendedAddress(bank)));
        if w.cursor >= |responses| {
          AppendFrames(w, r.wire, [load, low]);
        } else {
          AppendFrames(w, r.wire, [load, low, high]);
        }
      } else {
        AppendFrames(w, r.wire, []);
      }
    } else {
      if w.cursor >= |responses| {
        AppendFrames(w, r.wire, [low]);
      } else {
        AppendFrames(w, r.wire, [low, high]);
      }
    }
  }

  /**
   * The exact frames of one read turn. It raises ValueError, before any
   * frame, exactly when the word's bank is not the cached one and does not
   * fit a byte. Otherwise it sends the bank reload when the bank is not the
   * cached one, then the low and the high read; when the answers run out at
   * the low read it stops short of the high read.
   */
  lemma ReadWordLog(addr: nat, cache: Option<nat>, responses: seq<byte>, w: Wire)
    requires w.status == Ok
    ensures ReadWord(addr, cache, responses, w).wire.status == ValueError <==> Some(Bank(addr)) != cache && Bank(addr) >= 0x100
    ensures ReadWord(addr, cache, responses, w).wire.status == ValueError ==> ReadWord(addr, cache, responses, w).wire.log == w.log
    ensures ReadWord(addr, cache, responses, w).wire.status != ValueError ==>
      var frames := TurnFrames(addr, Some(Bank(addr)) != cache);
      ReadWord(addr, cache, responses, w).wire.log == w.log + if w.cursor < |responses| then frames else frames[..|frames| - 1]
  {
    var low := Tx(Encode(ReadLowByte(addr)));
    var high := Tx(Encode(ReadHighByte(addr)));
    if Some(Bank(addr)) != cache {
      if Bank(addr) < 0x100 {
        var load := Tx(Encode(LoadExtendedAddress(Bank(addr))));
        assert TurnFrames(addr, true) == [load, low, high];
        assert TurnFrames(addr, true)[..2] == [load, low];
      }
    } else {
      assert TurnFrames(addr, false) == [low, high];
      assert TurnFrames(addr, false)[..1] == [low];
    }
  }

  /**
   * Whether the read loop started at word `start` with cache `cache` reloads
   * the bank before its word `k`: the first word when its bank is not the
   * cached one, a later word when its bank differs from the previous word's.
   */
  predicate ReloadBefore(start: nat, k: nat, cache: Option<nat>)
  {
    if k == 0 then Some(Bank(start)) != cache else Bank(start + k) != Bank(start + k - 1)
  }

  /** The bank cache the read loop started at word `start` holds when it reaches its word `k`. */
  function CacheAt(start: nat, k: nat, cache: Option<nat>): Option<nat>
  {
    if k == 0 then cache else Some(Bank(start + k - 1))
  }

  /** The frames the read loop started at word `start` sends for its words `i .. j-1`, word by word. */
  function FramesFrom(start: nat, i: nat, j: nat, cache: Option<nat>): seq<Event>
    requires i < j ==> start + j <= 0x100_0000
    decreases j - i
  {
    if i >= j then [] else TurnFrames(start + i, ReloadBefore(start, i, cache)) + FramesFrom(start, i + 1, j, cache)
  }

  /** The read loop from its word `i` (at `addr`, with cache `c`) to its word `j`, when it ends `Ok`, sends `FramesFrom`. */
  lemma {:induction false} ReadWordsFramesFrom(start: nat, i: nat, j: nat, addr: nat, count: nat, cache: Option<nat>, c: Option<nat>,
                                               responses: seq<byte>, w: Wire, dump: seq<byte>)
    requires w.status == Ok && addr == start + i && i + count == j && c == CacheAt(start, i, cache)
    requires c.None? || c.value < 0x100
    ensures ReadWords(addr, count, c, responses, w, dump).wire.status == Ok ==>
      && (i < j ==> start + j <= 0x100_0000)
      && ReadWords(addr, count, c, responses, w, dump).wire.log == w.log + FramesFrom(start, i, j, cache)
    decreases count
  {
    if count == 0 {
      ReadWordsEnd(addr, count, c, responses, w, dump);
    } else {
      var r := ReadWord(addr, c, responses, w);
      TurnFacts(start, i, cache, addr, c, responses, w);
      ReadWordsTurn(addr, count, c, responses, w, dump, r);
      if r.wire.status == Ok {
        ReadWordsFramesFrom(start, i + 1, j, addr + 1, count - 1, cache, Some(Bank(addr)), responses, r.wire, dump + r.dump);
        FramesFromOkCase(start, i, j, cache, addr, w.log, r.wire,
                         ReadWords(addr + 1, count - 1, Some(Bank(addr)), responses, r.wire, dump + r.dump).wire);
      }
    }
  }

  /** A successful turn at word `i` of the loop sends that word's frames and leaves its bank in the cache. */
  lemma TurnFacts(start: nat, i: nat, cache: Option<nat>, addr: nat, c: Option<nat>, responses: seq<byte>, w: Wire)
    requires w.status == Ok && addr == start + i && c == CacheAt(start, i, cache)
    requires c.None? || c.value < 0x100
    ensures ReadWord(addr, c, responses, w).wire.status == Ok ==>
      && addr < 0x100_0000 && Bank(addr) < 0x100
      && ReadWord(addr, c, responses, w).wire.log == w.log + TurnFrames(addr, ReloadBefore(start, i, cache))
      && CacheAt(start, i + 1, cache) == Some(Bank(addr))
  {
    ReadWordOutcome(addr, c, responses, w);
    ReadWordLog(addr, c, responses, w);
    ReloadBeforeCache(start, i, cache, addr, c);
    CacheAtNext(start, i, cache, addr);
  }

  /** `ReloadBefore` is the cache test of the turn the loop is at. */
  lemma ReloadBeforeCache(start: nat, i: nat, cache: Option<nat>, addr: nat, c: Option<nat>)
    requires addr == start + i && c == CacheAt(start, i, cache)
    ensures ReloadBefore(start, i, cache) == (Some(Bank(addr)) != c)
  {
  }

  /** After word `i`, the cache holds word `i`'s bank. */
  lemma CacheAtNext(start: nat, i: nat, cache: Option<nat>, addr: nat)
    requires addr == start + i
    ensures CacheAt(start, i + 1, cache) == Some(Bank(addr))
  {
  }

  /** The successful-turn case of `ReadWordsFramesFrom`, on the wire `mid` after the turn and the wire `last` after the rest of the loop. */
  lemma FramesFromOkCase(start: nat, i: nat, j: nat, cache: Option<nat>, addr: nat, log0: seq<Event>, mid: Wire, last: Wire)
    requires addr == start + i && i < j && addr < 0x100_0000
    requires mid.log == log0 + TurnFrames(addr, ReloadBefore(start, i, cache))
    requires last.status == Ok ==>
      && (i + 1 < j ==> start + j <= 0x100_0000)
      && last.log == mid.log + FramesFrom(start, i + 1, j, cache)
    ensures last.status == Ok ==> start + j <= 0x100_0000 && last.log == log0 + FramesFrom(start, i, j, cache)
  {
    if last.status == Ok {
      FramesFromStep(start, i, j, cache, addr, ReloadBefore(start, i, cache), log0, mid.log, last.log);
    }
  }

  /** One turn's frames followed by the frames of the later words are the frames from this word on. */
  lemma FramesFromStep(start: nat, i: nat, j: nat, cache: Option<nat>, addr: nat, reload: bool,
                       log0: seq<Event>, log1: seq<Event>, log2: seq<Event>)
    requires i < j && start + j <= 0x100_0000 && addr == start + i && reload == ReloadBefore(start, i, cache)
    requires log1 == log0 + TurnFrames(addr, reload)
    requires log2 == log1 + FramesFrom(start, i + 1, j, cache)
    ensures log2 == log0 + FramesFrom(start, i, j, cache)
  {
    assert log2 == log0 + (TurnFrames(start + i, ReloadBefore(start, i, cache)) + FramesFrom(start, i + 1, j, cache));
  }

  /** The `m`-th read frame of a read loop started at word `start`: low byte, then high byte, word after word. */
  function ReadAt(start: nat, m: nat): Event
  {
    if m % 2 == 0 then Tx(Encode(ReadLowByte(start + m / 2))) else Tx(Encode(ReadHighByte(start + m / 2)))
  }

  /** A frame `4D 00 ext 00`, the extended-address load. */
  predicate IsLoadFrame(e: Event)
  {
    e.Tx? && |e.frame| == 4 && e.frame[0] == 0x4D
  }

  /** A sequence of events with its `4D` frames removed. */
  function Reads(s: seq<Event>): seq<Event>
    decreases |s|
  {
    if s == [] then [] else (if IsLoadFrame(s[0]) then [] else [s[0]]) + Reads(s[1..])
  }

  lemma {:induction false} ReadsAppend(a: seq<Event>, b: seq<Event>)
    ensures Reads(a + b) == Reads(a) + Reads(b)
    decreases |a|
  {
    if a == [] {
      assert a + b == b;
    } else {
      assert (a + b)[1..] == a[1..] + b;
      ReadsAppend(a[1..], b);
    }
  }

  /** Removing the bank reload from one turn leaves its two reads. */
  lemma ReadsOfTurn(addr: nat, reload: bool)
    requires reload ==> Bank(addr) < 0x100
    ensures Reads(TurnFrames(addr, reload)) == [Tx(Encode(ReadLowByte(addr))), Tx(Encode(ReadHighByte(addr)))]
  {
    var low, high := Tx(Encode(ReadLowByte(addr))), Tx(Encode(ReadHighByte(addr)));
    assert !IsLoadFrame(low) && !IsLoadFrame(high);
    assert Reads([high]) == [high] by {
      assert [high][1..] == [];
    }
    assert Reads([low, high]) == [low, high] by {
      assert [low, high][1..] == [high];
    }
    if reload {
      var load := Tx(Encode(LoadExtendedAddress(Bank(addr))));
      assert IsLoadFrame(load);
      assert TurnFrames(addr, reload) == [load, low, high];
      assert [load, low, high][1..] == [low, high];
    } else {
      assert TurnFrames(addr, reload) == [low, high];
    }
  }

  lemma ReadAtShift(start: nat, m: nat)
    requires m >= 2
    ensures ReadAt(start + 1, m - 2) == ReadAt(start, m)
  {
    assert (m - 2) % 2 == m % 2 && start + 1 + (m - 2) / 2 == start + m / 2;
  }

  /** The first two reads of a loop started at word `a` are the low and the high byte of `a`. */
  lemma ReadAtPair(a: nat)
    ensures ReadAt(a, 0) == Tx(Encode(ReadLowByte(a))) && ReadAt(a, 1) == Tx(Encode(ReadHighByte(a)))
  {
  }

  /** With the bank reloads removed, the frames from word `i` on are word `i`'s two reads, then those from word `i + 1` on. */
  lemma ReadsStep(start: nat, i: nat, j: nat, cache: Option<nat>)
    requires i < j && start + j <= 0x100_0000
    ensures Reads(FramesFrom(start, i, j, cache)) == [ReadAt(start + i, 0), ReadAt(start + i, 1)] + Reads(FramesFrom(start, i + 1, j, cache))
  {
    var turn := TurnFrames(start + i, ReloadBefore(start, i, cache));
    var rest := FramesFrom(start, i + 1, j, cache);
    assert FramesFrom(start, i, j, cache) == turn + rest;
    ReadsAppend(turn, rest);
    ReadsOfTurn(start + i, ReloadBefore(start, i, cache));
    ReadAtPair(start + i);
  }

  /** The reads of `n` words from word `a` on: low byte then high byte, word after word. */
  function ReadPairs(a: nat, n: nat): seq<Event>
    decreases n
  {
    if n == 0 then [] else [ReadAt(a, 0), ReadAt(a, 1)] + ReadPairs(a + 1, n - 1)
  }

  /** With the bank reloads removed, the frames of words `i .. j-1` are their reads in ascending order. */
  lemma {:induction false} ReadsOfFramesFrom(start: nat, i: nat, j: nat, cache: Option<nat>)
    requires i <= j && (i < j ==> start + j <= 0x100_0000)
    ensures Reads(FramesFrom(start, i, j, cache)) == ReadPairs(start + i, j - i)
    decreases j - i
  {
    if i < j {
      ReadsStep(start, i, j, cache);
      ReadsOfFramesFrom(start, i + 1, j, cache);
    }
  }

  /** `ReadPairs(a, n)` holds two reads per word. */
  lemma {:induction false} ReadPairsLength(a: nat, n: nat)
    ensures |ReadPairs(a, n)| == 2 * n
    decreases n
  {
    if n > 0 {
      ReadPairsLength(a + 1, n - 1);
    }
  }

  /** Read `m` of `ReadPairs(a, n)` is `ReadAt(a, m)`. */
  lemma {:induction false} ReadPairsAt(a: nat, n: nat, m: nat)
    requires m < 2 * n
    ensures m < |ReadPairs(a, n)| && ReadPairs(a, n)[m] == ReadAt(a, m)
    decreases n
  {
    ReadPairsLength(a, n);
    ReadPairsLength(a + 1, n - 1);
    if m >= 2 {
      ReadPairsAt(a + 1, n - 1, m - 2);
      ReadAtShift(a, m);
    }
  }

  /**
   * The frames of the read loop of `verify` when it ends `Ok`: word `k` of
   * the loop (at word address `start + k`) sends the extended-address load
   * of its bank exactly when `ReloadBefore` holds, that is for the first word
   * when its bank is not the cached one and for a later word when its bank
   * differs from the previous word's, then its low-byte and high-byte read.
   * With the reloads removed, the loop reads low byte then high byte of
   * `start`, `start + 1`, ... in ascending order.
   */
  lemma ReadWordsFrames(start: nat, count: nat, cache: Option<nat>, responses: seq<byte>, w: Wire, dump: seq<byte>)
    requires w.status == Ok
    requires cache.None? || cache.value < 0x100
    ensures ReadWords(start, count, cache, responses, w, dump).wire.status == Ok ==>
      && (count > 0 ==> start + count <= 0x100_0000)
      && ReadWords(start, count, cache, responses, w, dump).wire.log == w.log + FramesFrom(start, 0, count, cache)
      && |Reads(FramesFrom(start, 0, count, cache))| == 2 * count
      && forall m | 0 <= m < 2 * count :: Reads(FramesFrom(start, 0, count, cache))[m] == ReadAt(start, m)
  {
    ReadWordsFramesFrom(start, 0, count, start, count, cache, cache, responses, w, dump);
    if ReadWords(start, count, cache, responses, w, dump).wire.status == Ok {
      FramesFromReads(start, count, cache);
    }
  }

  /** With the bank reloads removed, the frames of `count` words from `start` are their reads in ascending order. */
  lemma FramesFromReads(start: nat, count: nat, cache: Option<nat>)
    requires count > 0 ==> start + count <= 0x100_0000
    ensures |Reads(FramesFrom(start, 0, count, cache))| == 2 * count
    ensures forall m | 0 <= m < 2 * count :: Reads(FramesFrom(start, 0, count, cache))[m] == ReadAt(start, m)
  {
    ReadsOfFramesFrom(start, 0, count, cache);
    ReadPairsLength(start, count);
    forall m | 0 <= m < 2 * count
      ensures ReadPairs(start, count)[m] == ReadAt(start, m)
    {
      ReadPairsAt(start, count, m);
    }
  }

  /** The read loop of `verify` sends frames only, and never raises `IndexError`. */
  lemma {:induction false} ReadWordsFramesOnly(addr: nat, count: nat, cache: Option<nat>, responses: seq<byte>, w: Wire, dump: seq<byte>)
    requires w.status == Ok
    requires cache.None? || cache.value < 0x100
    ensures FramesOnly(w, ReadWords(addr, count, cache, responses, w, dump).wire)
    ensures ReadWords(addr, count, cache, responses, w, dump).wire.status != IndexError
    decreases count
  {
    if count == 0 {
      ReadWordsEnd(addr, count, cache, responses, w, dump);
      AppendFrames(w, w, []);
    } else {
      var r := ReadWord(addr, cache, responses, w);
      ReadWordOutcome(addr, cache, responses, w);
      ReadWordFramesOnly(addr, cache, responses, w);
      ReadWordsTurn(addr, count, cache, responses, w, dump, r);
      if r.wire.status == Ok {
        ReadWordsFramesOnly(addr + 1, count - 1, Some(Bank(addr)), responses, r.wire, dump + r.dump);
        FramesOnlyTrans(w, r.wire, ReadWords(addr + 1, count - 1, Some(Bank(addr)), responses, r.wire, dump + r.dump).wire);
      }
    }
  }

  /**
   * The read loop of `verify` ends `Ok` exactly when the target answers two
   * bytes for every word and every word's bank fits the extended-address
   * byte, and then the dump is the next `2 * count` response bytes.
   */
  lemma {:induction false} ReadWordsOutcome(addr: nat, count: nat, cache: Option<nat>, responses: seq<byte>, w: Wire, dump: seq<byte>)
    requires w.status == Ok && w.cursor <= |responses|
    requires cache.None? || cache.value < 0x100
    ensures ReadWords(addr, count, cache, responses, w, dump).wire.status == Ok <==>
      w.cursor + 2 * count <= |responses| && (count == 0 || addr + count <= 0x100_0000)
    ensures ReadWords(addr, count, cache, responses, w, dump).wire.status == Ok ==>
      && ReadWords(addr, count, cache, responses, w, dump).wire.cursor == w.cursor + 2 * count
      && ReadWords(addr, count, cache, responses, w, dump).dump == dump + responses[w.cursor .. w.cursor + 2 * count]
    decreases count
  {
    if count == 0 {
      ReadWordsEnd(addr, count, cache, responses, w, dump);
      assert responses[w.cursor .. w.cursor] == [];
    } else {
      var r := ReadWord(addr, cache, responses, w);
      ReadWordOutcome(addr, cache, responses, w);
      ReadWordsTurn(addr, count, cache, responses, w, dump, r);
      if r.wire.status != Ok {
        ReadWordsFailCase(responses, w, r.wire, addr, count);
      } else {
        ReadWordsOutcome(addr + 1, count - 1, Some(Bank(addr)), responses, r.wire, dump + r.dump);
        ReadWordsOkCase(responses, w, r, ReadWords(addr + 1, count - 1, Some(Bank(addr)), responses, r.wire, dump + r.dump), addr, count, dump);
      }
    }
  }

  /** A first turn that fails fails the whole loop. */
  lemma ReadWordsFailCase(responses: seq<byte>, w: Wire, r: Wire, addr: nat, count: nat)
    requires count > 0 && r.status != Ok
    requires r.status == Ok <==> w.cursor + 2 <= |responses| && addr < 0x100_0000
    ensures !(w.cursor + 2 * count <= |responses| && (count == 0 || addr + count <= 0x100_0000))
  {
  }

  /** A first turn that succeeds, followed by the rest of the loop. */
  lemma ReadWordsOkCase(responses: seq<byte>, w: Wire, r: Readback, rest: Readback, addr: nat, count: nat, dump: seq<byte>)
    requires count > 0 && w.cursor <= |responses|
    requires r.wire.status == Ok && r.wire.cursor == w.cursor + 2 && addr < 0x100_0000
    requires w.cursor + 2 <= |responses| && r.dump == responses[w.cursor .. w.cursor + 2]
    requires rest.wire.status == Ok <==>
      r.wire.cursor + 2 * (count - 1) <= |responses| && (count - 1 == 0 || addr + 1 + (count - 1) <= 0x100_0000)
    requires rest.wire.status == Ok ==>
      && rest.wire.cursor == r.wire.cursor + 2 * (count - 1)
      && rest.dump == dump + r.dump + responses[r.wire.cursor .. r.wire.cursor + 2 * (count - 1)]
    ensures rest.wire.status == Ok <==> w.cursor + 2 * count <= |responses| && addr + count <= 0x100_0000
    ensures rest.wire.status == Ok ==>
      rest.wire.cursor == w.cursor + 2 * count && rest.dump == dump + responses[w.cursor .. w.cursor + 2 * count]
  {
    if rest.wire.status == Ok {
      assert responses[w.cursor .. w.cursor + 2 * count]
        == responses[w.cursor .. w.cursor + 2] + responses[w.cursor + 2 .. w.cursor + 2 * count];
    }
  }

  /** The comparison loop from index `i` on, when bytes `0 .. i-1` already agree, reports the first divergence. */
  lemma {:induction false} CompareFromDiverges(chunk: seq<byte>, dump: seq<byte>, i: nat)
    requires i <= |chunk| && i <= |dump|
    requires forall j | 0 <= j < i :: chunk[j] == dump[j]
    ensures FirstDivergence(chunk, dump, CompareFrom(chunk, dump, i))
    decreases |chunk| - i
  {
    if i < |chunk| && i < |dump| && chunk[i] == dump[i] {
      CompareFromDiverges(chunk, dump, i + 1);
    }
  }

  /** Two verdicts that both describe the first divergence are the same verdict. */
  lemma FirstDivergenceUnique(chunk: seq<byte>, dump: seq<byte>, v: Verdict, u: Verdict)
    requires FirstDivergence(chunk, dump, v) && FirstDivergence(chunk, dump, u)
    ensures v == u
  {
  }

  /** The comparison loop of `verify` reports exactly the first divergence of the chunk from the dump. */
  lemma CompareIsFirstDivergence(chunk: seq<byte>, dump: seq<byte>, v: Verdict)
    ensures Compare(chunk, dump) == v <==> FirstDivergence(chunk, dump, v)
  {
    CompareFromDiverges(chunk, dump, 0);
    if FirstDivergence(chunk, dump, v) {
      FirstDivergenceUnique(chunk, dump, v, Compare(chunk, dump));
    }
  }

  /**
   * `verify(spi, len(chunk), start, chunk)` as `write` calls it. It sends frames
   * only. It reaches the comparison exactly when the read loop completes. The
   * comparison is the first divergence of the chunk from the next
   * `2 * (len(chunk) // 2)` response bytes. It raises `IndexError` exactly
   * when the dump ran out first. Then the chunk has odd length, and the index
   * is its last byte. An odd chunk never matches.
   */
  lemma VerifyOutcome(start: nat, chunk: seq<byte>, responses: seq<byte>, w: Wire)
    requires w.status == Ok && w.cursor <= |responses|
    ensures FramesOnly(w, Verify(|chunk|, start, chunk, responses, w).wire)
    ensures Verify(|chunk|, start, chunk, responses, w).verdict.Some? <==>
      w.cursor + 2 * (|chunk| / 2) <= |responses| && (|chunk| / 2 == 0 || start / 2 + |chunk| / 2 <= 0x100_0000)
    ensures Verify(|chunk|, start, chunk, responses, w).verdict.None? ==> Verify(|chunk|, start, chunk, responses, w).wire.status != Ok
    ensures Verify(|chunk|, start, chunk, responses, w).verdict.Some? ==>
      FirstDivergence(chunk, responses[w.cursor .. w.cursor + 2 * (|chunk| / 2)], Verify(|chunk|, start, chunk, responses, w).verdict.value)
    ensures Verify(|chunk|, start, chunk, responses, w).wire.status == IndexError <==>
      Verify(|chunk|, start, chunk, responses, w).verdict.Some? && Verify(|chunk|, start, chunk, responses, w).verdict.value.OutOfRange?
    ensures Verify(|chunk|, start, chunk, responses, w).verdict == Some(Match) ==> |chunk| % 2 == 0
    ensures Verify(|chunk|, start, chunk, responses, w).wire.status == IndexError ==>
      |chunk| % 2 == 1 && Verify(|chunk|, start, chunk, responses, w).verdict.value.index == |chunk| - 1
  {
    var rb := ReadWords(start / 2, |chunk| / 2, None, responses, w, []);
    ReadWordsOutcome(start / 2, |chunk| / 2, None, responses, w, []);
    ReadWordsFramesOnly(start / 2, |chunk| / 2, None, responses, w, []);
    if rb.wire.status == Ok {
      CompareIsFirstDivergence(chunk, rb.dump, Compare(chunk, rb.dump));
    }
    VerifyCases(start, chunk, responses, w, rb, Verify(|chunk|, start, chunk, responses, w));
  }

  /** The case analysis of `VerifyOutcome`, on the read-back `rb` and the result `c`. */
  lemma VerifyCases(start: nat, chunk: seq<byte>, responses: seq<byte>, w: Wire, rb: Readback, c: Checked)
    requires w.cursor <= |responses|
    requires FramesOnly(w, rb.wire) && rb.wire.status != IndexError
    requires rb.wire.status == Ok <==>
      w.cursor + 2 * (|chunk| / 2) <= |responses| && (|chunk| / 2 == 0 || start / 2 + |chunk| / 2 <= 0x100_0000)
    requires rb.wire.status == Ok ==> rb.dump == responses[w.cursor .. w.cursor + 2 * (|chunk| / 2)]
    requires rb.wire.status == Ok ==> FirstDivergence(chunk, rb.dump, Compare(chunk, rb.dump))
    requires c == if rb.wire.status != Ok then Checked(rb.wire, None)
      else Checked(rb.wire.(status := if Compare(chunk, rb.dump).OutOfRange? then IndexError else Ok), Some(Compare(chunk, rb.dump)))
    ensures FramesOnly(w, c.wire)
    ensures c.verdict.Some? <==>
      w.cursor + 2 * (|chunk| / 2) <= |responses| && (|chunk| / 2 == 0 || start / 2 + |chunk| / 2 <= 0x100_0000)
    ensures c.verdict.None? ==> c.wire.status != Ok
    ensures c.verdict.Some? ==> FirstDivergence(chunk, responses[w.cursor .. w.cursor + 2 * (|chunk| / 2)], c.verdict.value)
    ensures c.wire.status == IndexError <==> c.verdict.Some? && c.verdict.value.OutOfRange?
    ensures c.verdict == Some(Match) ==> |chunk| % 2 == 0
    ensures c.wire.status == IndexError ==> |chunk| % 2 == 1 && c.verdict.value.index == |chunk| - 1
  {
  }

  /**
   * `verify` keeps its own bank cache, starting empty: its first frame always
   * loads the bank of the start address, whatever `program_page` left in
   * `self.extended_addr`.
   */
  lemma VerifyLoadsBankFirst(chunkSize: nat, start: nat, chunk: seq<byte>, responses: seq<byte>, w: Wire)
    requires w.status == Ok && w.cursor <= |responses|
    requires chunkSize >= 2 && Bank(start / 2) < 0x100
    ensures |Verify(chunkSize, start, chunk, responses, w).wire.log| > |w.log|
    ensures Verify(chunkSize, start, chunk, responses, w).wire.log[|w.log|] == Tx(Encode(LoadExtendedAddress(Bank(start / 2))))
  {
    var addr, count := start / 2, chunkSize / 2;
    var first := ReadWord(addr, None, responses, w);
    var loaded := Wire(w.log + [Tx(Encode(LoadExtendedAddress(Bank(addr))))], w.cursor, Ok);
    assert first.wire.log[..|loaded.log|] == loaded.log;
    var rb := ReadWords(addr, count, None, responses, w, []);
    ReadWordsTurn(addr, count, None, responses, w, [], first);
    if first.wire.status == Ok {
      ReadWordOutcome(addr, None, responses, w);
      ReadWordsFramesOnly(addr + 1, count - 1, Some(Bank(addr)), responses, first.wire, [] + first.dump);
      assert rb.wire.log[..|first.wire.log|] == first.wire.log;
    }
    assert rb.wire.log[|w.log|] == loaded.log[|w.log|];
  }
}
