/** build_dmatable (linux/src/drivers/block/triton.c:137-196): turning a
    block request into a Physical Region Descriptor table for a bus-master
    IDE controller.

    Following the Bus Master Programming Interface for IDE ATA Controllers
    (SFF-8038i), a PRD entry is 8 bytes: a 32-bit physical address and a
    32-bit word whose low 16 bits hold the byte count (0 standing for 64 KiB)
    and whose bit 31 marks the End Of Table; no entry may cross a 64 KiB
    boundary.  `virt_to_bus` is the identity here, so buffer addresses are
    bus addresses. */
module Prd {

  /** PAGE_SIZE of the i386 port. */
  const PAGE_SIZE: nat := 4096
  /** Bytes per PRD entry (triton.c:99). */
  const PRD_BYTES: nat := 8
  /** Entries in the half page given to each interface (triton.c:100): 256. */
  const PRD_ENTRIES: nat := PAGE_SIZE / (2 * PRD_BYTES)
  /** The 64 KiB window no entry may cross. */
  const WINDOW: nat := 0x10000
  /** The End-Of-Table bit of the length word. */
  const EOT: nat := 0x8000_0000
  /** A sector is 512 bytes (`nr_sectors << 9`). */
  const SECTOR_BYTES: nat := 512

  /** A `buffer_head` of the request's chain: its data address and size. */
  datatype Buffer = Buffer(data: nat, size: nat)

  /** The request: its buffer chain (empty for paging requests, which have
      `rq->bh == NULL`), and the flat buffer and sector count used then. */
  datatype Request = Request(bh: seq<Buffer>, buffer: nat, nrSectors: nat)

  /** A physically contiguous area, the unit the table is filled from. */
  datatype Run = Run(addr: nat, size: nat)

  /** A PRD entry as written: the address word, the 16-bit byte count field
      and the End-Of-Table flag of the length word. */
  datatype Entry = Entry(addr: nat, count: nat, eot: bool)

  /** The 32-bit length word of an entry as the controller reads it: the
      count ORed with bit 31 when the entry ends the table. */
  function Word(e: Entry): nat
    requires e.count < WINDOW
  {
    e.count + (if e.eot then EOT else 0)
  }

  /** The length word carries the count in its low 16 bits and the flag in
      bit 31 (bits 16 to 30 stay clear), so the controller decodes exactly
      what was written. */
  lemma WordDecodes(e: Entry)
    requires e.count < WINDOW
    ensures Word(e) < 0x1_0000_0000
    ensures Word(e) % WINDOW == e.count
    ensures (Word(e) / EOT == 1) <==> e.eot
    ensures Word(e) % EOT < WINDOW
  {
  }

  /** The number of bytes an entry describes: a count of 0 means 64 KiB. */
  function ByteCount(e: Entry): nat
  {
    if e.count % WINDOW == 0 then WINDOW else e.count % WINDOW
  }

  /** The total of the bytes a sequence of entries describes. */
  function Bytes(es: seq<Entry>): nat
  {
    if |es| == 0 then 0 else ByteCount(es[0]) + Bytes(es[1..])
  }

  lemma {:induction false} BytesAppend(a: seq<Entry>, b: seq<Entry>)
    ensures Bytes(a + b) == Bytes(a) + Bytes(b)
    decreases |a|
  {
    if |a| != 0 {
      assert (a + b)[0] == a[0];
      assert (a + b)[1..] == a[1..] + b;
      BytesAppend(a[1..], b);
    } else {
      assert a + b == b;
    }
  }

  /** The entry's bytes lie inside one 64 KiB window. */
  predicate InOneWindow(e: Entry)
  {
    e.addr / WINDOW == (e.addr + ByteCount(e) - 1) / WINDOW
  }

  /** An entry as the fill loop writes it: within a window, no EOT yet. */
  predicate Plain(e: Entry)
  {
    e.count < WINDOW && !e.eot && InOneWindow(e)
  }

  /** The bytes one step of the fill loop takes at `addr`:
      `min(size, 0x10000 - (addr & 0xffff))`. */
  function Chunk(addr: nat, size: nat): nat
  {
    var room := WINDOW - addr % WINDOW;
    if room > size then size else room
  }

  /** One step stores a plain entry for a non-empty part of what is left,
      and when it does not finish the run it stops on a 64 KiB boundary. */
  lemma ChunkFits(addr: nat, size: nat)
    requires size > 0
    ensures 0 < Chunk(addr, size) <= size
    ensures ByteCount(Entry(addr, Chunk(addr, size) % WINDOW, false)) == Chunk(addr, size)
    ensures Plain(Entry(addr, Chunk(addr, size) % WINDOW, false))
    ensures Chunk(addr, size) < size ==> (addr + Chunk(addr, size)) % WINDOW == 0
  {
    var b := Chunk(addr, size);
    assert addr == (addr / WINDOW) * WINDOW + addr % WINDOW;
    assert addr + b - 1 == (addr / WINDOW) * WINDOW + (addr % WINDOW + b - 1);
  }

  /** The fill loop of triton.c:175-188 on one run: each step stores the
      address and `bcount & 0xffff`, then moves on by `bcount` bytes. */
  function Split(addr: nat, size: nat): (es: seq<Entry>)
    ensures Bytes(es) == size
    ensures |es| == 0 <==> size == 0
    ensures |es| > 0 ==> es[0].addr == addr
    decreases size
  {
    if size == 0 then []
    else
      var bcount := Chunk(addr, size);
      ChunkFits(addr, size);
      var e := Entry(addr, bcount % WINDOW, false);
      var rest := Split(addr + bcount, size - bcount);
      var es := [e] + rest;
      assert es[0] == e && es[1..] == rest;
      es
  }

  /** The first entry of a run and the entries after it. */
  lemma SplitUnfold(addr: nat, size: nat)
    requires size > 0
    ensures 0 < Chunk(addr, size) <= size
    ensures Split(addr, size)
      == [Entry(addr, Chunk(addr, size) % WINDOW, false)] + Split(addr + Chunk(addr, size), size - Chunk(addr, size))
  {
    ChunkFits(addr, size);
  }

  /** Every entry of a run stays inside one 64 KiB window and has no EOT. */
  lemma {:induction false} SplitStaysInWindows(addr: nat, size: nat)
    ensures forall k :: 0 <= k < |Split(addr, size)| ==> Plain(Split(addr, size)[k])
    decreases size
  {
    if size > 0 {
      var b := Chunk(addr, size);
      SplitUnfold(addr, size);
      ChunkFits(addr, size);
      SplitStaysInWindows(addr + b, size - b);
      var es, rest := Split(addr, size), Split(addr + b, size - b);
      forall k | 0 < k < |es|
        ensures Plain(es[k])
      {
        assert es[k] == rest[k - 1];
      }
    }
  }

  /** Every entry of a run but the first starts on a 64 KiB boundary. */
  lemma {:induction false} SplitAligned(addr: nat, size: nat)
    ensures forall k :: 0 < k < |Split(addr, size)| ==> Split(addr, size)[k].addr % WINDOW == 0
    decreases size
  {
    if size > 0 {
      var b := Chunk(addr, size);
      SplitUnfold(addr, size);
      ChunkFits(addr, size);
      SplitAligned(addr + b, size - b);
      var es, rest := Split(addr, size), Split(addr + b, size - b);
      forall k | 0 < k < |es|
        ensures es[k].addr % WINDOW == 0
      {
        assert es[k] == rest[k - 1];
      }
    }
  }

  /** Each entry of a run starts where the previous one ends: the run is
      covered in order, with no gap and no overlap. */
  lemma SplitContiguous(addr: nat, size: nat)
    ensures forall j, k :: 0 <= j < k < |Split(addr, size)| && k == j + 1 ==>
      Split(addr, size)[j].addr + ByteCount(Split(addr, size)[j]) == Split(addr, size)[k].addr
  {
    forall j, k | 0 <= j < k < |Split(addr, size)| && k == j + 1
      ensures Split(addr, size)[j].addr + ByteCount(Split(addr, size)[j]) == Split(addr, size)[k].addr
    {
      SplitContiguousAt(addr, size, j);
    }
  }

  /** Entry `j + 1` of a run starts where entry `j` ends. */
  lemma {:induction false} SplitContiguousAt(addr: nat, size: nat, j: nat)
    requires j + 1 < |Split(addr, size)|
    ensures Split(addr, size)[j].addr + ByteCount(Split(addr, size)[j]) == Split(addr, size)[j + 1].addr
    decreases size
  {
    var b := Chunk(addr, size);
    SplitUnfold(addr, size);
    ChunkFits(addr, size);
    var rest := Split(addr + b, size - b);
    if j == 0 {
      assert Split(addr, size)[1] == rest[0];
    } else {
      SplitContiguousAt(addr + b, size - b, j - 1);
      assert Split(addr, size)[j] == rest[j - 1];
      assert Split(addr, size)[j + 1] == rest[j];
    }
  }

  /** The entries of a sequence of runs, one run after the other, with no
      limit on their number. */
  function Entries(runs: seq<Run>): seq<Entry>
  {
    if |runs| == 0 then [] else Split(runs[0].addr, runs[0].size) + Entries(runs[1..])
  }

  function RunBytes(runs: seq<Run>): nat
  {
    if |runs| == 0 then 0 else runs[0].size + RunBytes(runs[1..])
  }

  /** The entries describe every byte of the runs and nothing else, each
      inside one 64 KiB window, and there are none exactly when the runs
      hold no bytes. */
  lemma {:induction false} EntriesCover(runs: seq<Run>)
    ensures Bytes(Entries(runs)) == RunBytes(runs)
    ensures forall k :: 0 <= k < |Entries(runs)| ==> Plain(Entries(runs)[k])
    ensures |Entries(runs)| == 0 <==> RunBytes(runs) == 0
    decreases |runs|
  {
    if |runs| != 0 {
      EntriesCover(runs[1..]);
      SplitStaysInWindows(runs[0].addr, runs[0].size);
      var a, b := Split(runs[0].addr, runs[0].size), Entries(runs[1..]);
      forall k | 0 <= k < |a + b|
        ensures Plain((a + b)[k])
      {
        if k >= |a| {
          assert (a + b)[k] == b[k - |a|];
        } else {
          assert (a + b)[k] == a[k];
        }
      }
      BytesAppend(Split(runs[0].addr, runs[0].size), Entries(runs[1..]));
    }
  }

  lemma {:induction false} EntriesAppend(a: seq<Run>, b: seq<Run>)
    ensures Entries(a + b) == Entries(a) + Entries(b)
    decreases |a|
  {
    if |a| != 0 {
      assert (a + b)[0] == a[0];
      assert (a + b)[1..] == a[1..] + b;
      EntriesAppend(a[1..], b);
    } else {
      assert a + b == b;
    }
  }
  /** Run `i` contributes exactly its own split, in place: the entries of
      the runs before it, then the entries of run `i` (starting at its
      address and following on from each other), then those of the rest. */
  lemma {:induction false} EntriesFollowRuns(runs: seq<Run>, i: nat)
    requires i < |runs|
    ensures Entries(runs)
      == Entries(runs[..i]) + Split(runs[i].addr, runs[i].size) + Entries(runs[i + 1..])
  {
    assert runs == runs[..i] + ([runs[i]] + runs[i + 1..]);
    EntriesAppend(runs[..i], [runs[i]] + runs[i + 1..]);
    assert ([runs[i]] + runs[i + 1..])[0] == runs[i];
    assert ([runs[i]] + runs[i + 1..])[1..] == runs[i + 1..];
  }


  // ---------------------------------------------------------------------
  // Coalescing the buffer chain (triton.c:152-169)
  // ---------------------------------------------------------------------

  function BufferBytes(bh: seq<Buffer>): nat
  {
    if |bh| == 0 then 0 else bh[0].size + BufferBytes(bh[1..])
  }

  /** The coalescing loop as the C code runs it: `cur` is the run being
      grown, `i` the next buffer; a buffer joins the run exactly when it
      starts where the run ends, and otherwise the run is closed and the
      buffer starts the next one. */
  function Scan(bh: seq<Buffer>, i: nat, cur: Run): seq<Run>
    requires i <= |bh|
    decreases |bh| - i
  {
    if i == |bh| then [cur]
    else if cur.addr + cur.size == bh[i].data then
      Scan(bh, i + 1, Run(cur.addr, cur.size + bh[i].size))
    else
      [cur] + Scan(bh, i + 1, Run(bh[i].data, bh[i].size))
  }

  /** The runs of a non-empty buffer chain. */
  function Coalesce(bh: seq<Buffer>): seq<Run>
  {
    if |bh| == 0 then [] else Scan(bh, 1, Run(bh[0].data, bh[0].size))
  }

  /** Adding one buffer to the runs built so far: it extends the last run
      when it starts at that run's end, and starts a new run otherwise. */
  function Join(runs: seq<Run>, b: Buffer): (r: seq<Run>)
  {
    if |runs| > 0 && runs[|runs| - 1].addr + runs[|runs| - 1].size == b.data then
      runs[..|runs| - 1] + [Run(runs[|runs| - 1].addr, runs[|runs| - 1].size + b.size)]
    else
      runs + [Run(b.data, b.size)]
  }

  /** The reference grouping: the buffers folded one by one with `Join`. */
  function MergeAll(bh: seq<Buffer>): seq<Run>
  {
    if |bh| == 0 then [] else Join(MergeAll(bh[..|bh| - 1]), bh[|bh| - 1])
  }

  lemma {:induction false} ScanFolds(bh: seq<Buffer>, i: nat, done: seq<Run>, cur: Run)
    requires 1 <= i <= |bh|
    requires MergeAll(bh[..i]) == done + [cur]
    ensures done + Scan(bh, i, cur) == MergeAll(bh)
    decreases |bh| - i
  {
    if i == |bh| {
      assert bh[..i] == bh;
    } else {
      MergeStep(bh, i);
      JoinLast(done, cur, bh[i]);
      if cur.addr + cur.size == bh[i].data {
        var grown := Run(cur.addr, cur.size + bh[i].size);
        assert MergeAll(bh[..i + 1]) == done + [grown];
        assert Scan(bh, i, cur) == Scan(bh, i + 1, grown);
        ScanFolds(bh, i + 1, done, grown);
      } else {
        var next := Run(bh[i].data, bh[i].size);
        assert MergeAll(bh[..i + 1]) == (done + [cur]) + [next];
        assert Scan(bh, i, cur) == [cur] + Scan(bh, i + 1, next);
        ScanFolds(bh, i + 1, done + [cur], next);
        assert done + ([cur] + Scan(bh, i + 1, next)) == (done + [cur]) + Scan(bh, i + 1, next);
      }
    }
  }

  /** The fold over one more buffer is one more `Join`. */
  lemma MergeStep(bh: seq<Buffer>, i: nat)
    requires i < |bh|
    ensures MergeAll(bh[..i + 1]) == Join(MergeAll(bh[..i]), bh[i])
  {
    var m := bh[..i + 1];
    assert m[..|m| - 1] == bh[..i];
    assert m[|m| - 1] == bh[i];
  }

  /** `Join` on runs whose last one is `cur`. */
  lemma JoinLast(done: seq<Run>, cur: Run, b: Buffer)
    ensures cur.addr + cur.size == b.data ==>
      Join(done + [cur], b) == done + [Run(cur.addr, cur.size + b.size)]
    ensures cur.addr + cur.size != b.data ==>
      Join(done + [cur], b) == done + [cur] + [Run(b.data, b.size)]
  {
    var rs := done + [cur];
    assert rs[|rs| - 1] == cur;
    assert rs[..|rs| - 1] == done;
  }

  /** The C coalescing loop computes the left fold of `Join` over the chain. */
  lemma CoalesceIsFold(bh: seq<Buffer>)
    ensures Coalesce(bh) == MergeAll(bh)
  {
    if |bh| != 0 {
      assert bh[..1][..0] == [];
      ScanFolds(bh, 1, [], Run(bh[0].data, bh[0].size));
    }
  }

  lemma {:induction false} ScanKeepsBytes(bh: seq<Buffer>, i: nat, cur: Run)
    requires i <= |bh|
    ensures RunBytes(Scan(bh, i, cur)) == cur.size + BufferBytes(bh[i..])
    decreases |bh| - i
  {
    if i < |bh| {
      assert bh[i..][1..] == bh[i + 1..];
      ScanKeepsBytes(bh, i + 1, Run(cur.addr, cur.size + bh[i].size));
      ScanKeepsBytes(bh, i + 1, Run(bh[i].data, bh[i].size));
    }
  }

  /** Two runs in a row never abut: each run is as long as the chain allows. */
  ghost predicate Separated(runs: seq<Run>)
  {
    forall j, k :: 0 <= j < k < |runs| && k == j + 1 ==> runs[j].addr + runs[j].size != runs[k].addr
  }

  lemma {:induction false} ScanSeparated(bh: seq<Buffer>, i: nat, cur: Run)
    requires i <= |bh|
    ensures |Scan(bh, i, cur)| > 0 && Scan(bh, i, cur)[0].addr == cur.addr
    ensures Separated(Scan(bh, i, cur))
    decreases |bh| - i
  {
    if i < |bh| {
      if cur.addr + cur.size == bh[i].data {
        ScanSeparated(bh, i + 1, Run(cur.addr, cur.size + bh[i].size));
      } else {
        var rest := Scan(bh, i + 1, Run(bh[i].data, bh[i].size));
        ScanSeparated(bh, i + 1, Run(bh[i].data, bh[i].size));
        assert Scan(bh, i, cur) == [cur] + rest;
      }
    }
  }

  /** Coalescing keeps every byte of the chain and leaves no two adjacent
      runs that could have been joined. */
  lemma CoalesceKeepsBytes(bh: seq<Buffer>)
    ensures RunBytes(Coalesce(bh)) == BufferBytes(bh)
    ensures Separated(Coalesce(bh))
    ensures |bh| > 0 ==> |Coalesce(bh)| > 0
  {
    if |bh| != 0 {
      ScanKeepsBytes(bh, 1, Run(bh[0].data, bh[0].size));
      ScanSeparated(bh, 1, Run(bh[0].data, bh[0].size));
    }
  }

  // ---------------------------------------------------------------------
  // Coalescing never costs entries
  // ---------------------------------------------------------------------

  /** The number of 64 KiB windows the bytes `[addr, addr + size)` touch. */
  function Windows(addr: nat, size: nat): nat
  {
    if size == 0 then 0 else (addr + size - 1) / WINDOW - addr / WINDOW + 1
  }

  /** A run is split into one entry per 64 KiB window it touches. */
  lemma {:induction false} SplitLength(addr: nat, size: nat)
    ensures |Split(addr, size)| == Windows(addr, size)
    decreases size
  {
    if size > 0 {
      var b := Chunk(addr, size);
      SplitUnfold(addr, size);
      SplitLength(addr + b, size - b);
      var q, r := addr / WINDOW, addr % WINDOW;
      assert addr == q * WINDOW + r;
      if b == size {
        assert addr + size - 1 == q * WINDOW + (r + size - 1);
      } else {
        assert addr + b == (q + 1) * WINDOW;
        assert (addr + b) / WINDOW == q + 1;
      }
    }
  }

  /** Two abutting runs touch no fewer windows than the single run they
      form: the window holding their meeting point counts once or twice. */
  lemma WindowsJoin(addr: nat, s1: nat, s2: nat)
    ensures Windows(addr, s1 + s2) <= Windows(addr, s1) + Windows(addr + s1, s2)
  {
    if s1 > 0 && s2 > 0 {
      var x := addr + s1;
      assert x == (x / WINDOW) * WINDOW + x % WINDOW;
      assert x - 1 == (x - 1) / WINDOW * WINDOW + (x - 1) % WINDOW;
      assert x / WINDOW <= (x - 1) / WINDOW + 1;
    }
  }

  /** The windows touched by each run of a sequence, added up. */
  function WindowCount(runs: seq<Run>): nat
  {
    if |runs| == 0 then 0 else Windows(runs[0].addr, runs[0].size) + WindowCount(runs[1..])
  }

  /** The entries of a sequence of runs are one per window each run touches. */
  lemma {:induction false} EntriesLength(runs: seq<Run>)
    ensures |Entries(runs)| == WindowCount(runs)
    decreases |runs|
  {
    if |runs| != 0 {
      SplitLength(runs[0].addr, runs[0].size);
      EntriesLength(runs[1..]);
    }
  }

  lemma {:induction false} WindowCountSnoc(init: seq<Run>, r: Run)
    ensures WindowCount(init + [r]) == WindowCount(init) + Windows(r.addr, r.size)
    decreases |init|
  {
    if |init| == 0 {
      assert init + [r] == [r];
      assert [r][1..] == [];
    } else {
      assert (init + [r])[0] == init[0];
      assert (init + [r])[1..] == init[1..] + [r];
      WindowCountSnoc(init[1..], r);
    }
  }

  /** Every buffer as a run of its own: the chain without coalescing. */
  function Separate(bh: seq<Buffer>): (runs: seq<Run>)
    ensures |runs| == |bh|
  {
    if |bh| == 0 then [] else Separate(bh[..|bh| - 1]) + [Run(bh[|bh| - 1].data, bh[|bh| - 1].size)]
  }

  /** Folding one more buffer in with `Join` adds at most the windows that
      buffer touches as a run of its own. */
  lemma JoinNoMore(runs: seq<Run>, b: Buffer)
    ensures WindowCount(Join(runs, b)) <= WindowCount(runs) + Windows(b.data, b.size)
  {
    if |runs| > 0 && runs[|runs| - 1].addr + runs[|runs| - 1].size == b.data {
      var init, last := runs[..|runs| - 1], runs[|runs| - 1];
      assert runs == init + [last];
      WindowCountSnoc(init, last);
      WindowCountSnoc(init, Run(last.addr, last.size + b.size));
      WindowsJoin(last.addr, last.size, b.size);
    } else {
      WindowCountSnoc(runs, Run(b.data, b.size));
    }
  }

  /** The reference grouping never touches more windows, counted run by
      run, than one run per buffer. */
  lemma {:induction false} MergeAllNoMore(bh: seq<Buffer>)
    ensures WindowCount(MergeAll(bh)) <= WindowCount(Separate(bh))
    decreases |bh|
  {
    if |bh| != 0 {
      var init, b := bh[..|bh| - 1], bh[|bh| - 1];
      MergeAllNoMore(init);
      JoinNoMore(MergeAll(init), b);
      WindowCountSnoc(Separate(init), Run(b.data, b.size));
    }
  }

  /** Coalescing contiguous buffers never increases the number of table
      entries compared with giving every buffer runs of its own. */
  lemma CoalesceNeverAddsEntries(bh: seq<Buffer>)
    ensures |Entries(Coalesce(bh))| <= |Entries(Separate(bh))|
  {
    CoalesceIsFold(bh);
    MergeAllNoMore(bh);
    EntriesLength(Coalesce(bh));
    EntriesLength(Separate(bh));
  }

  /** The runs a request is transferred from: the coalesced chain, or one
      run of `nr_sectors << 9` bytes at `rq->buffer` when there is no chain. */
  function Runs(rq: Request): (runs: seq<Run>)
    ensures |runs| > 0
  {
    CoalesceKeepsBytes(rq.bh);
    if |rq.bh| == 0 then [Run(rq.buffer, rq.nrSectors * SECTOR_BYTES)] else Coalesce(rq.bh)
  }

  /** The bytes the request asks to move. */
  function RequestBytes(rq: Request): nat
  {
    if |rq.bh| == 0 then rq.nrSectors * SECTOR_BYTES else BufferBytes(rq.bh)
  }

  lemma RunsKeepBytes(rq: Request)
    ensures RunBytes(Runs(rq)) == RequestBytes(rq)
  {
    CoalesceKeepsBytes(rq.bh);
  }

  // ---------------------------------------------------------------------
  // The table and the return code (triton.c:176-178, 190-195)
  // ---------------------------------------------------------------------

  /** What build_dmatable leaves behind: its return code and the entries it
      has written into the interface's table memory. */
  datatype Built = Built(rc: int, table: seq<Entry>)

  /** Every entry before the last is plain and the last carries EOT. */
  predicate Terminated(table: seq<Entry>)
  {
    |table| > 0
    && (forall k :: 0 <= k < |table| - 1 ==> Plain(table[k]))
    && table[|table| - 1].eot && table[|table| - 1].count < WINDOW
    && InOneWindow(table[|table| - 1])
  }

  /** `*--table |= 0x80000000`: the last entry written gets the EOT flag. */
  function MarkLast(es: seq<Entry>): (r: seq<Entry>)
    requires |es| > 0
  {
    es[..|es| - 1] + [es[|es| - 1].(eot := true)]
  }

  /** Marking the last of a run of plain entries terminates the table and
      changes no byte count. */
  lemma MarkLastTerminates(es: seq<Entry>)
    requires |es| > 0 && forall k :: 0 <= k < |es| ==> Plain(es[k])
    ensures Terminated(MarkLast(es)) && Bytes(MarkLast(es)) == Bytes(es)
  {
    MarkLastPlainBefore(es);
    MarkLastKeepsBytes(es);
  }

  lemma MarkLastPlainBefore(es: seq<Entry>)
    requires |es| > 0 && forall k :: 0 <= k < |es| ==> Plain(es[k])
    ensures Terminated(MarkLast(es))
  {
    var n := |es| - 1;
    var m := MarkLast(es);
    assert m[n] == es[n].(eot := true);
    forall k | 0 <= k < n
      ensures Plain(m[k])
    {
      assert m[k] == es[k];
    }
    assert Plain(es[n]);
    EotKeepsBytes(es[n]);
  }

  lemma MarkLastKeepsBytes(es: seq<Entry>)
    requires |es| > 0
    ensures Bytes(MarkLast(es)) == Bytes(es)
  {
    var n := |es| - 1;
    var last := es[n].(eot := true);
    assert MarkLast(es) == es[..n] + [last];
    EotKeepsBytes(es[n]);
    assert es == es[..n] + [es[n]];
    BytesSnoc(es[..n], es[n]);
    BytesSnoc(es[..n], last);
  }

  /** Setting the flag changes neither the bytes nor the window. */
  lemma EotKeepsBytes(e: Entry)
    ensures ByteCount(e.(eot := true)) == ByteCount(e)
    ensures InOneWindow(e.(eot := true)) == InOneWindow(e)
  {
  }

  lemma BytesSnoc(a: seq<Entry>, x: Entry)
    ensures Bytes(a + [x]) == Bytes(a) + ByteCount(x)
  {
    BytesAppend(a, [x]);
    assert [x][1..] == [];
  }

  /** Entries straight from the fill loop never terminate a table. */
  lemma PlainUnterminated(es: seq<Entry>)
    requires forall k :: 0 <= k < |es| ==> Plain(es[k])
    ensures !Terminated(es)
  {
    if |es| > 0 {
      assert Plain(es[|es| - 1]);
    }
  }

  /** build_dmatable.  The capacity test comes before each entry is written
      and increments first, so a table needing `PRD_ENTRIES` entries or more
      fails after `PRD_ENTRIES - 1` of them are in memory; a request with no
      bytes fails with nothing written; otherwise the last entry is marked. */
  function Build(rq: Request): (b: Built)
    ensures b.rc == 0 || b.rc == 1
    ensures |b.table| < PRD_ENTRIES
    ensures b.rc == 1 <==> RequestBytes(rq) == 0 || |Entries(Runs(rq))| >= PRD_ENTRIES
    ensures b.rc == 0 ==> Terminated(b.table) && Bytes(b.table) == RequestBytes(rq)
    ensures b.rc == 0 ==> |Entries(Runs(rq))| > 0 && b.table == MarkLast(Entries(Runs(rq)))
    ensures b.rc == 1 ==> !Terminated(b.table) && b.table <= Entries(Runs(rq))
  {
    var all := Entries(Runs(rq));
    EntriesCover(Runs(rq));
    RunsKeepBytes(rq);
    if |all| >= PRD_ENTRIES then
      var t := all[..PRD_ENTRIES - 1];
      PlainUnterminated(t);
      Built(1, t)
    else if |all| == 0 then
      Built(1, [])
    else
      MarkLastTerminates(all);
      Built(0, MarkLast(all))
  }

  /** The inner fill loop of build_dmatable (triton.c:175-188) on one run,
      appending to the `count` entries already written: one entry per step
      until the run is used up, giving up as soon as the incremented count
      reaches `PRD_ENTRIES`. */
  method FillRun(addr0: nat, size0: nat, table0: seq<Entry>) returns (full: bool, table: seq<Entry>)
    requires |table0| < PRD_ENTRIES
    ensures full <==> |table0 + Split(addr0, size0)| >= PRD_ENTRIES
    ensures full ==> table == (table0 + Split(addr0, size0))[..PRD_ENTRIES - 1]
    ensures !full ==> table == table0 + Split(addr0, size0)
  {
    ghost var all := table0 + Split(addr0, size0);
    table := table0;
    var count: nat := |table0|;
    var addr: nat, size: nat := addr0, size0;
    while size > 0
      invariant count == |table| < PRD_ENTRIES
      invariant table + Split(addr, size) == all
      decreases size
    {
      count := count + 1;
      if count >= PRD_ENTRIES {
        TableIsPrefix(table, Split(addr, size), all);
        return true, table;
      }
      var bcount: nat := WINDOW - addr % WINDOW;
      if bcount > size {
        bcount := size;
      }
      assert bcount == Chunk(addr, size);
      var e := Entry(addr, bcount % WINDOW, false);
      FillStepInRun(table, addr, size);
      table := table + [e];
      addr := addr + bcount;
      size := size - bcount;
    }
    assert table == all by {
      assert Split(addr, size) == [];
    }
    return false, table;
  }

  /** One entry of the fill loop moves from the run to the table. */
  lemma FillStepInRun(table: seq<Entry>, addr: nat, size: nat)
    requires size > 0
    ensures table + Split(addr, size)
      == (table + [Entry(addr, Chunk(addr, size) % WINDOW, false)]) + Split(addr + Chunk(addr, size), size - Chunk(addr, size))
  {
    SplitUnfold(addr, size);
  }

  /** The outer loop of build_dmatable (triton.c:144-189): the runs one
      after the other, as long as the table has room. */
  method FillTable(runs: seq<Run>) returns (full: bool, table: seq<Entry>)
    ensures full <==> |Entries(runs)| >= PRD_ENTRIES
    ensures full ==> table == Entries(runs)[..PRD_ENTRIES - 1]
    ensures !full ==> table == Entries(runs)
  {
    ghost var all := Entries(runs);
    table := [];
    var i := 0;
    while i < |runs|
      invariant 0 <= i <= |runs|
      invariant |table| < PRD_ENTRIES
      invariant table + Entries(runs[i..]) == all
    {
      ghost var t0 := table;
      full, table := FillRun(runs[i].addr, runs[i].size, table);
      FillStep(runs, i, t0, all);
      if full {
        return;
      }
      i := i + 1;
    }
    assert table == all;
    return false, table;
  }

  /** What one run's fill contributes to the whole table. */
  lemma FillStep(runs: seq<Run>, i: nat, t0: seq<Entry>, all: seq<Entry>)
    requires i < |runs| && t0 + Entries(runs[i..]) == all
    ensures var s := t0 + Split(runs[i].addr, runs[i].size);
      all == s + Entries(runs[i + 1..])
      && (|s| >= PRD_ENTRIES ==> |all| >= PRD_ENTRIES && all[..PRD_ENTRIES - 1] == s[..PRD_ENTRIES - 1])
  {
    EntriesFrom(runs, i);
    var s := t0 + Split(runs[i].addr, runs[i].size);
    assert all == s + Entries(runs[i + 1..]);
    if |s| >= PRD_ENTRIES {
      assert all[..|s|] == s;
    }
  }

  lemma EntriesFrom(runs: seq<Run>, i: nat)
    requires i < |runs|
    ensures Entries(runs[i..]) == Split(runs[i].addr, runs[i].size) + Entries(runs[i + 1..])
  {
    assert runs[i..][1..] == runs[i + 1..];
  }

  lemma TableIsPrefix(table: seq<Entry>, rest: seq<Entry>, all: seq<Entry>)
    requires table + rest == all && |table| == PRD_ENTRIES - 1 && |rest| > 0
    ensures |all| >= PRD_ENTRIES && all[..PRD_ENTRIES - 1] == table
  {
    assert all[..|table|] == table;
  }

  /** build_dmatable as the C code runs it: fill, then either give up or
      set EOT on the last entry written. */
  method BuildDmaTable(rq: Request) returns (rc: int, table: seq<Entry>)
    ensures rc == Build(rq).rc && table == Build(rq).table
  {
    var full;
    full, table := FillTable(Runs(rq));
    if full {
      return 1, table;
    }
    if |table| > 0 {
      table := MarkLast(table);
      return 0, table;
    }
    return 1, table;
  }

  /** A buffer crossing a 64 KiB boundary is split there: 0x200 bytes at
      0xFF00 become 0x100 bytes at 0xFF00 and 0x100 bytes at 0x10000, the
      second one ending the table. */
  lemma SplitAtBoundaryExample()
    ensures Build(Request([Buffer(0xFF00, 0x200)], 0, 0)).rc == 0
    ensures Build(Request([Buffer(0xFF00, 0x200)], 0, 0)).table
      == [Entry(0xFF00, 0x100, false), Entry(0x10000, 0x100, true)]
  {
    var rq := Request([Buffer(0xFF00, 0x200)], 0, 0);
    assert Runs(rq) == [Run(0xFF00, 0x200)];
    assert Split(0x10000, 0x100) == [Entry(0x10000, 0x100, false)];
    assert Split(0xFF00, 0x200) == [Entry(0xFF00, 0x100, false), Entry(0x10000, 0x100, false)];
    assert Entries(Runs(rq)) == Split(0xFF00, 0x200);
  }

  /** Two abutting 32 KiB buffers form one run of a full 64 KiB window, which
      is stored with a count field of 0. */
  lemma FullWindowExample()
    ensures Build(Request([Buffer(0x20000, 0x8000), Buffer(0x28000, 0x8000)], 0, 0)).table
      == [Entry(0x20000, 0, true)]
  {
    var rq := Request([Buffer(0x20000, 0x8000), Buffer(0x28000, 0x8000)], 0, 0);
    assert Scan(rq.bh, 2, Run(0x20000, 0x10000)) == [Run(0x20000, 0x10000)];
    assert Runs(rq) == [Run(0x20000, 0x10000)];
    assert Split(0x30000, 0) == [];
    assert Split(0x20000, 0x10000) == [Entry(0x20000, 0, false)];
    assert Entries(Runs(rq)) == Split(0x20000, 0x10000);
  }

  /** Two contiguous buffers of 0x9000 bytes at 0x1000 and 0x4000 bytes at
      0xA000 form a single run of 0xD000 bytes, which stays below the
      0x10000 boundary and is stored as one entry ending the table. */
  lemma CoalescedExample()
    ensures Build(Request([Buffer(0x1000, 0x9000), Buffer(0xA000, 0x4000)], 0, 0)).rc == 0
    ensures Build(Request([Buffer(0x1000, 0x9000), Buffer(0xA000, 0x4000)], 0, 0)).table
      == [Entry(0x1000, 0xD000, true)]
  {
    var rq := Request([Buffer(0x1000, 0x9000), Buffer(0xA000, 0x4000)], 0, 0);
    assert Scan(rq.bh, 2, Run(0x1000, 0xD000)) == [Run(0x1000, 0xD000)];
    assert Runs(rq) == [Run(0x1000, 0xD000)];
    assert Split(0xE000, 0) == [];
    assert Split(0x1000, 0xD000) == [Entry(0x1000, 0xD000, false)];
    assert Entries(Runs(rq)) == Split(0x1000, 0xD000);
  }
}
