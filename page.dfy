/**
 * The page buffers of `write`: how a chunk of firmware is cut into
 * flash pages, which pages are skipped as blank, and at which address each
 * remaining page is programmed.
 */
module Page {
  import opened Wrappers
  import opened Isp

  /** The value of an erased flash byte. */
  const ERASED: byte := 0xFF

  /** `all(v == 0xFF for v in page_buffer)`. */
  predicate IsBlank(s: seq<byte>)
  {
    forall i | 0 <= i < |s| :: s[i] == ERASED
  }

  /** `next((i for i, j in enumerate(buf) if j != 0xFF), None)`. */
  function FirstNonBlank(s: seq<byte>): (r: Option<nat>)
    ensures r.None? <==> IsBlank(s)
    ensures r.Some? ==> r.value < |s| && s[r.value] != ERASED && IsBlank(s[..r.value])
  {
    if |s| == 0 then None
    else if s[0] != ERASED then Some(0)
    else
      match FirstNonBlank(s[1..])
      case None => None
      case Some(i) =>
        assert s[..i + 1] == [s[0]] + s[1..][..i];
        Some(i + 1)
  }

  /** `n` erased bytes. */
  function Erased(n: nat): (r: seq<byte>)
    ensures |r| == n && IsBlank(r)
  {
    seq(n, _ => ERASED)
  }

  /**
   * The page buffer after the refill at byte offset `page`: `chunk[page:page+ps]`
   * followed by 0xFF up to the full page size.
   */
  function PageImage(chunk: seq<byte>, page: nat, ps: nat): (buf: seq<byte>)
    ensures |buf| == ps
  {
    var lo := if page < |chunk| then page else |chunk|;
    var hi := if page + ps < |chunk| then page + ps else |chunk|;
    chunk[lo..hi] + Erased(ps - (hi - lo))
  }

  /** Byte `i` of the page buffer is byte `page + i` of the chunk, or 0xFF past the chunk's end. */
  lemma PageImageBytes(chunk: seq<byte>, page: nat, ps: nat)
    ensures forall i :: 0 <= i < ps ==> PageImage(chunk, page, ps)[i] == if page + i < |chunk| then chunk[page + i] else ERASED
  {
  }

  /** One call of `program_page`: the page's byte offset in the chunk, its buffer, and the target byte address passed. */
  datatype Job = Job(page: nat, buf: seq<byte>, addr: nat)

  /**
   * The calls of `program_page` that the page loop of `write` makes, from the
   * page at byte offset `page` on, when the running address is `addr`. A blank
   * page is skipped by `continue`, which also skips the address increment.
   */
  function Plan(chunk: seq<byte>, ps: nat, page: nat, addr: nat): seq<Job>
    requires ps > 0
    decreases |chunk| - page
  {
    if page >= |chunk| then []
    else
      var img := PageImage(chunk, page, ps);
      if IsBlank(img) then Plan(chunk, ps, page + ps, addr)
      else [Job(page, img, addr)] + Plan(chunk, ps, page + ps, addr + ps)
  }

  /** One turn of the page loop: the page at offset `page` is skipped when blank, else programmed at `addr`. */
  lemma PlanStep(chunk: seq<byte>, ps: nat, page: nat, addr: nat)
    requires ps > 0 && page < |chunk|
    ensures IsBlank(PageImage(chunk, page, ps)) ==> Plan(chunk, ps, page, addr) == Plan(chunk, ps, page + ps, addr)
    ensures !IsBlank(PageImage(chunk, page, ps)) ==>
      Plan(chunk, ps, page, addr) == [Job(page, PageImage(chunk, page, ps), addr)] + Plan(chunk, ps, page + ps, addr + ps)
  {
  }

  /** A blank page at offset `page` is skipped: the plan is the one from offset `next`, one page further on, at the same address. */
  lemma PlanSkip(chunk: seq<byte>, ps: nat, page: nat, next: nat, addr: nat)
    requires ps > 0 && page < |chunk| && next == page + ps && IsBlank(PageImage(chunk, page, ps))
    ensures Plan(chunk, ps, page, addr) == Plan(chunk, ps, next, addr)
  {
    PlanStep(chunk, ps, page, addr);
  }

  /**
   * A non-blank page at offset `page` is the plan's first job, and the rest
   * of the plan starts at offset `next` and address `nextAddr`, one page
   * further on each.
   */
  lemma PlanFirst(chunk: seq<byte>, ps: nat, page: nat, next: nat, addr: nat, nextAddr: nat)
    requires ps > 0 && page < |chunk| && next == page + ps && nextAddr == addr + ps
    requires !IsBlank(PageImage(chunk, page, ps))
    ensures Plan(chunk, ps, page, addr) != []
    ensures Plan(chunk, ps, page, addr)[0] == Job(page, PageImage(chunk, page, ps), addr)
    ensures Plan(chunk, ps, page, addr)[1..] == Plan(chunk, ps, next, nextAddr)
  {
    PlanStep(chunk, ps, page, addr);
  }

  /** The j-th programmed page goes to `addr + ps * j`: only programmed pages advance the address. */
  lemma {:induction false} PlanAddresses(chunk: seq<byte>, ps: nat, page: nat, addr: nat)
    requires ps > 0
    ensures forall j :: 0 <= j < |Plan(chunk, ps, page, addr)| ==> Plan(chunk, ps, page, addr)[j].addr == addr + ps * j
    decreases |chunk| - page
  {
    if page < |chunk| {
      var img := PageImage(chunk, page, ps);
      if IsBlank(img) {
        assert Plan(chunk, ps, page, addr) == Plan(chunk, ps, page + ps, addr);
        PlanAddresses(chunk, ps, page + ps, addr);
      } else {
        PlanAddresses(chunk, ps, page + ps, addr + ps);
        var plan := Plan(chunk, ps, page, addr);
        var rest := Plan(chunk, ps, page + ps, addr + ps);
        assert plan == [Job(page, img, addr)] + rest;
        forall j | 0 <= j < |plan|
          ensures plan[j].addr == addr + ps * j
        {
          if j > 0 {
            assert plan[j] == rest[j - 1];
            assert ps * j == ps * (j - 1) + ps;
          }
        }
      }
    }
  }

  /**
   * Every programmed page is a full, non-blank page image of the chunk at an
   * offset inside it.
   */
  lemma {:induction false} PlanPages(chunk: seq<byte>, ps: nat, page: nat, addr: nat)
    requires ps > 0
    ensures forall j :: 0 <= j < |Plan(chunk, ps, page, addr)| ==>
      && Plan(chunk, ps, page, addr)[j].page < |chunk|
      && Plan(chunk, ps, page, addr)[j].buf == PageImage(chunk, Plan(chunk, ps, page, addr)[j].page, ps)
      && !IsBlank(Plan(chunk, ps, page, addr)[j].buf)
    decreases |chunk| - page
  {
    if page < |chunk| {
      PlanStep(chunk, ps, page, addr);
      if IsBlank(PageImage(chunk, page, ps)) {
        PlanPages(chunk, ps, page + ps, addr);
      } else {
        PlanPages(chunk, ps, page + ps, addr + ps);
        var plan := Plan(chunk, ps, page, addr);
        var rest := Plan(chunk, ps, page + ps, addr + ps);
        forall j | 0 < j < |plan|
          ensures plan[j] == rest[j - 1]
        {
        }
      }
    }
  }

  /** Every programmed page sits on a page boundary of the loop: `page`, `page + ps`, `page + 2 * ps`, ... */
  lemma {:induction false} PlanBoundaries(chunk: seq<byte>, ps: nat, page: nat, addr: nat)
    requires ps > 0
    ensures forall j :: 0 <= j < |Plan(chunk, ps, page, addr)| ==> OnBoundary(Plan(chunk, ps, page, addr)[j].page, page, ps)
    decreases |chunk| - page
  {
    if page < |chunk| {
      PlanStep(chunk, ps, page, addr);
      if IsBlank(PageImage(chunk, page, ps)) {
        PlanBoundaries(chunk, ps, page + ps, addr);
      } else {
        PlanBoundaries(chunk, ps, page + ps, addr + ps);
        PlanAscending(chunk, ps, page + ps, addr + ps);
        var plan := Plan(chunk, ps, page, addr);
        var rest := Plan(chunk, ps, page + ps, addr + ps);
        forall j | 0 < j < |plan|
          ensures OnBoundary(plan[j].page, page, ps)
        {
          assert plan[j] == rest[j - 1];
        }
      }
    }
  }

  /** The pages are programmed in ascending order of their offsets. */
  lemma {:induction false} PlanAscending(chunk: seq<byte>, ps: nat, page: nat, addr: nat)
    requires ps > 0
    ensures forall j :: 0 <= j < |Plan(chunk, ps, page, addr)| ==> page <= Plan(chunk, ps, page, addr)[j].page
    ensures forall i, j :: 0 <= i < j < |Plan(chunk, ps, page, addr)| ==>
      Plan(chunk, ps, page, addr)[i].page < Plan(chunk, ps, page, addr)[j].page
    decreases |chunk| - page
  {
    if page < |chunk| {
      PlanStep(chunk, ps, page, addr);
      if IsBlank(PageImage(chunk, page, ps)) {
        PlanAscending(chunk, ps, page + ps, addr);
      } else {
        PlanAscending(chunk, ps, page + ps, addr + ps);
        var plan := Plan(chunk, ps, page, addr);
        var rest := Plan(chunk, ps, page + ps, addr + ps);
        forall j | 0 < j < |plan|
          ensures plan[j] == rest[j - 1]
        {
        }
      }
    }
  }

  /** `q` is one of `page`, `page + ps`, `page + 2 * ps`, ...: an offset that the page loop visits. */
  predicate OnBoundary(q: nat, page: nat, ps: nat)
    requires ps > 0
    decreases q - page
  {
    q == page || (q > page && OnBoundary(q, page + ps, ps))
  }

  /** Every non-blank page of the chunk is programmed: the loop visits each page boundary below |chunk|. */
  lemma {:induction false} PlanCovers(chunk: seq<byte>, ps: nat, page: nat, addr: nat, q: nat)
    requires ps > 0
    requires q < |chunk| && OnBoundary(q, page, ps)
    requires !IsBlank(PageImage(chunk, q, ps))
    ensures exists j :: 0 <= j < |Plan(chunk, ps, page, addr)| && Plan(chunk, ps, page, addr)[j].page == q
    decreases |chunk| - page
  {
    var plan := Plan(chunk, ps, page, addr);
    var img := PageImage(chunk, page, ps);
    if q == page {
      assert plan[0].page == q;
    } else {
      var addr' := if IsBlank(img) then addr else addr + ps;
      PlanCovers(chunk, ps, page + ps, addr', q);
      var rest := Plan(chunk, ps, page + ps, addr');
      var j :| 0 <= j < |rest| && rest[j].page == q;
      if IsBlank(img) {
        assert plan == rest;
        assert plan[j].page == q;
      } else {
        assert plan == [Job(page, img, addr)] + rest;
        assert plan[j + 1].page == q;
      }
    }
  }

  /** The offset of the `k`-th page the loop visits from `page` on. */
  function Offset(page: nat, ps: nat, k: nat): nat
  {
    page + k * ps
  }

  /** The offsets the page loop visits from `page` on are `page`, `page + ps`, `page + 2 * ps`, ... and nothing else. */
  lemma {:induction false} OnBoundaryIff(q: nat, page: nat, ps: nat)
    requires ps > 0
    ensures OnBoundary(q, page, ps) <==> exists k: nat :: q == Offset(page, ps, k)
    decreases q - page
  {
    if q > page {
      OnBoundaryIff(q, page + ps, ps);
      if OnBoundary(q, page, ps) {
        var k: nat :| q == Offset(page + ps, ps, k);
        assert q == Offset(page, ps, k + 1);
      }
      if k: nat :| q == Offset(page, ps, k) {
        assert k >= 1;
        assert q == Offset(page + ps, ps, k - 1);
      }
    } else if q == page {
      assert q == Offset(page, ps, 0);
    } else {
      if k: nat :| q == Offset(page, ps, k) {
        assert false;
      }
    }
  }

  /**
   * The pages `write` programs are exactly the non-blank page images at the
   * offsets `0, ps, 2 * ps, ...` below the chunk's length.
   */
  lemma PlanProgramsNonBlankPages(chunk: seq<byte>, ps: nat, addr: nat, q: nat)
    requires ps > 0
    ensures (exists j :: 0 <= j < |Plan(chunk, ps, 0, addr)| && Plan(chunk, ps, 0, addr)[j].page == q)
      <==> q < |chunk| && (exists k: nat :: q == Offset(0, ps, k)) && !IsBlank(PageImage(chunk, q, ps))
  {
    OnBoundaryIff(q, 0, ps);
    var plan := Plan(chunk, ps, 0, addr);
    if q < |chunk| && OnBoundary(q, 0, ps) && !IsBlank(PageImage(chunk, q, ps)) {
      PlanCovers(chunk, ps, 0, addr, q);
    }
    if j :| 0 <= j < |plan| && plan[j].page == q {
      PlanPages(chunk, ps, 0, addr);
      PlanBoundaries(chunk, ps, 0, addr);
    }
  }

  /**
   * The consequence of the skipped increment: when the first page of a chunk
   * is blank and the second is not, the second page's bytes are programmed
   * at the chunk's start address rather than one page further on.
   */
  lemma BlankFirstPageShiftsNext(chunk: seq<byte>, ps: nat, addr: nat)
    requires ps > 0 && ps < |chunk|
    requires IsBlank(PageImage(chunk, 0, ps)) && !IsBlank(PageImage(chunk, ps, ps))
    ensures |Plan(chunk, ps, 0, addr)| > 0
    ensures Plan(chunk, ps, 0, addr)[0] == Job(ps, PageImage(chunk, ps, ps), addr)
  {
    assert Plan(chunk, ps, 0, addr) == Plan(chunk, ps, ps, addr);
    assert Plan(chunk, ps, ps, addr) == [Job(ps, PageImage(chunk, ps, ps), addr)] + Plan(chunk, ps, ps + ps, addr + ps);
  }
}
