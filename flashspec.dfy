/**
 * What each part of the programming script sends and what the device
 * looks like afterwards, as functions of the device's state, with the
 * properties the script relies on proved about them.
 */
module FlashSpec {
  import opened Wire
  import opened Paging
  import opened Device

  /** The device after a part of the script, and the exchanges that part made. */
  datatype Effect = Effect(chip: Chip, trace: seq<Transfer>)

  /** The exchanges of the busy-wait `while get_status() & 0x1 == 1`. */
  function PollTrace(polls: seq<Byte>): seq<Transfer>
    decreases |polls|
  {
    [Transfer([READ_ID], [NextPoll(polls)])]
      + if polls != [] && Busy(polls[0]) then PollTrace(polls[1..]) else []
  }

  /** The poll stream left once the busy-wait has ended. */
  function PollsLeft(polls: seq<Byte>): seq<Byte>
    decreases |polls|
  {
    if polls != [] && Busy(polls[0]) then PollsLeft(polls[1..]) else Drop(polls)
  }

  /** One poll of the busy-wait, unfolded. */
  lemma PollStep(polls: seq<Byte>)
    ensures PollTrace(polls)
         == [Transfer([READ_ID], [NextPoll(polls)])] + if Busy(NextPoll(polls)) then PollTrace(Drop(polls)) else []
    ensures PollsLeft(polls) == if Busy(NextPoll(polls)) then PollsLeft(Drop(polls)) else Drop(polls)
  {
  }

  /**
   * One pass of the program loop: wait until ready, then send the
   * page-program frame, which the device stores at the address modulo 2^24.
   */
  function ProgramPage(chip: Chip, address: nat, page: seq<Byte>): Effect
  {
    Effect(chip.(polls := PollsLeft(chip.polls), store := Program(chip.store, address % ADDRESS_SPACE, page)),
           PollTrace(chip.polls) + [Transfer(PageProgram(address, page), [])])
  }

  /** The whole program loop: each page at the summed length of the pages before it. */
  function Programming(chip: Chip, pages: seq<seq<Byte>>): Effect
    decreases |pages|
  {
    if pages == [] then Effect(chip, [])
    else
      var n := |pages| - 1;
      var done := Programming(chip, pages[..n]);
      var last := ProgramPage(done.chip, Offset(pages, n), pages[n]);
      Effect(last.chip, done.trace + last.trace)
  }

  /** The read-back loop: one Fast Read per page, at the page's address, of the page's length. */
  function ReadBackTrace(chip: Chip, pages: seq<seq<Byte>>): seq<Transfer>
  {
    seq(|pages|, k requires 0 <= k < |pages| =>
      Transfer(FastRead(Offset(pages, k)), Reply(chip, FastRead(Offset(pages, k)), |pages[k]|)))
  }

  /** Every page read back equals the page. */
  predicate PagesMatch(readBack: seq<Transfer>, pages: seq<seq<Byte>>) {
    |readBack| == |pages| && forall k :: 0 <= k < |pages| ==> readBack[k].received == pages[k]
  }

  /** The read-back of the first k + 1 pages matches iff that of the first k does and page k matches. */
  lemma PagesMatchStep(readBack: seq<Transfer>, pages: seq<seq<Byte>>, k: nat)
    requires k < |readBack| == |pages|
    ensures PagesMatch(readBack[..k + 1], pages[..k + 1])
        <==> PagesMatch(readBack[..k], pages[..k]) && readBack[k].received == pages[k]
  {
    var r, p := readBack[..k], pages[..k];
    var r', p' := readBack[..k + 1], pages[..k + 1];
    assert forall j :: 0 <= j < k ==> r'[j] == r[j] && p'[j] == p[j];
    assert r'[k] == readBack[k] && p'[k] == pages[k];
  }

  /** Identification read, write enable, status read: the exchanges before programming. */
  function GateTrace(chip: Chip): seq<Transfer> {
    [Transfer([READ_ID], Fit(chip.id, 2)), Transfer([WRITE_ENABLE], []), Transfer([READ_STATUS], [chip.status])]
  }

  predicate IsWrite(t: Transfer) {
    |t.sent| > 0 && t.sent[0] == PAGE_PROGRAM
  }

  /** The page-program commands of a trace, in order. */
  function Writes(trace: seq<Transfer>): seq<seq<Byte>>
  {
    if trace == [] then []
    else Writes(trace[..|trace| - 1]) + if IsWrite(trace[|trace| - 1]) then [trace[|trace| - 1].sent] else []
  }

  /** A status poll that found the device ready. */
  predicate ReadyPoll(t: Transfer) {
    t.sent == [READ_ID] && |t.received| == 1 && !Busy(t.received[0])
  }

  /** A status poll that found the device busy. */
  predicate BusyPoll(t: Transfer) {
    t.sent == [READ_ID] && |t.received| == 1 && Busy(t.received[0])
  }

  /** Every page-program command comes right after a poll that found the device ready. */
  predicate WritesAfterReady(trace: seq<Transfer>) {
    forall i :: 0 <= i < |trace| && IsWrite(trace[i]) ==> 0 < i && ReadyPoll(trace[i - 1])
  }

  lemma {:induction false} WritesAppend(a: seq<Transfer>, b: seq<Transfer>)
    ensures Writes(a + b) == Writes(a) + Writes(b)
    decreases |b|
  {
    if b != [] {
      var n := |b| - 1;
      assert (a + b)[..|a + b| - 1] == a + b[..n];
      WritesAppend(a, b[..n]);
    } else {
      assert a + b == a;
    }
  }

  lemma NoWrites(trace: seq<Transfer>)
    requires forall i :: 0 <= i < |trace| ==> !IsWrite(trace[i])
    ensures Writes(trace) == []
    decreases |trace|
  {
    if trace != [] {
      NoWrites(trace[..|trace| - 1]);
    }
  }

  /**
   * The busy-wait polls until a poll finds the device ready: every poll
   * but the last found it busy, and none of them is a page program.
   */
  lemma {:induction false} PollTraceShape(polls: seq<Byte>)
    ensures |PollTrace(polls)| >= 1
    ensures ReadyPoll(PollTrace(polls)[|PollTrace(polls)| - 1])
    ensures forall i :: 0 <= i < |PollTrace(polls)| - 1 ==> BusyPoll(PollTrace(polls)[i])
    ensures forall i :: 0 <= i < |PollTrace(polls)| ==> !IsWrite(PollTrace(polls)[i])
    decreases |polls|
  {
    if polls != [] && Busy(polls[0]) {
      PollTraceShape(polls[1..]);
    }
  }

  /**
   * Against a poll stream that reports busy for its first K bytes and
   * then ready (or runs out), the busy-wait makes exactly K + 1 polls
   * and leaves the rest of the stream unread.
   */
  lemma {:induction false} PollsUntilReady(polls: seq<Byte>, K: nat)
    requires K <= |polls|
    requires forall i :: 0 <= i < K ==> Busy(polls[i])
    requires K < |polls| ==> !Busy(polls[K])
    ensures |PollTrace(polls)| == K + 1
    ensures forall i :: 0 <= i < K ==> PollTrace(polls)[i] == Transfer([READ_ID], [polls[i]])
    ensures PollTrace(polls)[K] == Transfer([READ_ID], [NextPoll(polls[K..])])
    ensures PollsLeft(polls) == Drop(polls[K..])
    decreases K
  {
    if K > 0 {
      PollsUntilReady(polls[1..], K - 1);
      assert polls[1..][K - 1..] == polls[K..];
    }
  }

  /** The program loop over the first k + 1 pages is the loop over the first k, then page k. */
  lemma ProgrammingStep(chip: Chip, pages: seq<seq<Byte>>, k: nat)
    requires k < |pages|
    ensures var done := Programming(chip, pages[..k]);
      var last := ProgramPage(done.chip, Offset(pages, k), pages[k]);
      Programming(chip, pages[..k + 1]) == Effect(last.chip, done.trace + last.trace)
  {
    assert pages[..k + 1][..k] == pages[..k];
    OffsetOfPrefix(pages, k + 1, k);
  }

  /** The last pass of the program loop, unfolded: polls, then one frame that the device stores. */
  lemma ProgrammingLast(chip: Chip, pages: seq<seq<Byte>>)
    requires pages != []
    ensures var n := |pages| - 1;
      var done := Programming(chip, pages[..n]);
      var frame := PageProgram(Offset(pages, n), pages[n]);
      && Programming(chip, pages).trace == done.trace + (PollTrace(done.chip.polls) + [Transfer(frame, [])])
      && Programming(chip, pages).chip
         == done.chip.(polls := PollsLeft(done.chip.polls),
                       store := Program(done.chip.store, Offset(pages, n) % ADDRESS_SPACE, pages[n]))
  {
    var n := |pages| - 1;
  }

  /** The last pass of the program loop writes exactly one frame, the last page's. */
  lemma ProgrammingLastWrite(chip: Chip, pages: seq<seq<Byte>>)
    requires pages != []
    ensures Writes(Programming(chip, pages).trace)
         == Writes(Programming(chip, pages[..|pages| - 1]).trace) + [PageProgram(Offset(pages, |pages| - 1), pages[|pages| - 1])]
  {
    var n := |pages| - 1;
    var done := Programming(chip, pages[..n]);
    var frame := PageProgram(Offset(pages, n), pages[n]);
    var polls := PollTrace(done.chip.polls);
    ProgrammingLast(chip, pages);
    PollTraceShape(done.chip.polls);
    NoWrites(polls);
    WritesAppend(done.trace, polls + [Transfer(frame, [])]);
    WritesAppend(polls, [Transfer(frame, [])]);
    assert Writes([Transfer(frame, [])]) == [frame];
  }

  /** Frames for the first n pages, then page n's frame: frames for the first n + 1 pages. */
  lemma FramesStep(pages: seq<seq<Byte>>, prev: seq<seq<Byte>>, w: seq<seq<Byte>>)
    requires pages != []
    requires |prev| == |pages| - 1
    requires forall k :: 0 <= k < |prev| ==> prev[k] == PageProgram(Offset(pages[..|prev|], k), pages[..|prev|][k])
    requires w == prev + [PageProgram(Offset(pages, |prev|), pages[|prev|])]
    ensures |w| == |pages|
    ensures forall k :: 0 <= k < |pages| ==> w[k] == PageProgram(Offset(pages, k), pages[k])
  {
    var n := |prev|;
    forall k | 0 <= k < |pages|
      ensures w[k] == PageProgram(Offset(pages, k), pages[k])
    {
      if k < n {
        assert w[k] == prev[k];
        assert pages[..n][k] == pages[k];
        OffsetOfPrefix(pages, n, k);
      }
    }
  }

  /** The program loop sends page k as the frame for address `Offset(pages, k)`, and nothing else is written. */
  lemma {:induction false} ProgrammingWrites(chip: Chip, pages: seq<seq<Byte>>)
    ensures |Writes(Programming(chip, pages).trace)| == |pages|
    ensures forall k :: 0 <= k < |pages| ==> Writes(Programming(chip, pages).trace)[k] == PageProgram(Offset(pages, k), pages[k])
    decreases |pages|
  {
    if pages != [] {
      var n := |pages| - 1;
      ProgrammingLastWrite(chip, pages);
      ProgrammingWrites(chip, pages[..n]);
      FramesStep(pages, Writes(Programming(chip, pages[..n]).trace), Writes(Programming(chip, pages).trace));
    }
  }

  lemma WritesAfterReadyAppend(a: seq<Transfer>, b: seq<Transfer>)
    requires WritesAfterReady(a) && WritesAfterReady(b)
    requires b != [] ==> !IsWrite(b[0])
    ensures WritesAfterReady(a + b)
  {
    forall i | 0 <= i < |a + b| && IsWrite((a + b)[i])
      ensures 0 < i && ReadyPoll((a + b)[i - 1])
    {
      if i >= |a| {
        assert (a + b)[i] == b[i - |a|];
        assert (a + b)[i - 1] == b[i - 1 - |a|];
      }
    }
  }

  /** A page-program command is only ever sent right after a poll that found the device ready. */
  lemma {:induction false} ProgrammingWaitsForReady(chip: Chip, pages: seq<seq<Byte>>)
    ensures WritesAfterReady(Programming(chip, pages).trace)
    decreases |pages|
  {
    if pages != [] {
      var n := |pages| - 1;
      var done := Programming(chip, pages[..n]);
      var frame := PageProgram(Offset(pages, n), pages[n]);
      var polls := PollTrace(done.chip.polls);
      ProgrammingLast(chip, pages);
      ProgrammingWaitsForReady(chip, pages[..n]);
      PollTraceShape(done.chip.polls);
      var last := polls + [Transfer(frame, [])];
      assert WritesAfterReady(last) by {
        forall i | 0 <= i < |last| && IsWrite(last[i])
          ensures 0 < i && ReadyPoll(last[i - 1])
        {
          if i == |polls| {
            assert last[i - 1] == polls[|polls| - 1];
          }
        }
      }
      assert last[0] == polls[0];
      WritesAfterReadyAppend(done.trace, last);
    }
  }

  /**
   * After the program loop, each cell the pages cover holds the old cell
   * ANDed with the image byte written there; every other cell is unchanged.
   */
  lemma {:induction false} ProgrammedCells(chip: Chip, pages: seq<seq<Byte>>, a: nat)
    requires |Concat(pages)| <= ADDRESS_SPACE
    ensures Cell(Programming(chip, pages).chip.store, a)
         == if a < |Concat(pages)| then And(Cell(chip.store, a), Concat(pages)[a]) else Cell(chip.store, a)
    decreases |pages|
  {
    if pages != [] {
      var n := |pages| - 1;
      var done := Programming(chip, pages[..n]);
      var off := Offset(pages, n);
      var start := off % ADDRESS_SPACE;
      var whole := Concat(pages);
      assert whole == Concat(pages[..n]) + pages[n];
      assert off == |Concat(pages[..n])|;
      ProgrammingLast(chip, pages);
      ProgrammedCells(chip, pages[..n], a);
      CellAfterProgram(done.chip.store, start, pages[n], a);
      assert |whole| == off + |pages[n]|;
      assert start == off || pages[n] == [] by {
        if off < ADDRESS_SPACE {
          SmallAddress(off);
        } else {
          assert off == ADDRESS_SPACE;
        }
      }
      var before := Cell(done.chip.store, a);
      var after := Cell(Programming(chip, pages).chip.store, a);
      assert after == if start <= a < start + |pages[n]| then And(before, pages[n][a - start]) else before;
      if a < off {
        assert whole[a] == Concat(pages[..n])[a];
        assert before == And(Cell(chip.store, a), whole[a]);
      } else if a < off + |pages[n]| {
        assert whole[a] == pages[n][a - off];
      }
    }
  }

  lemma SmallAddress(address: nat)
    requires address < ADDRESS_SPACE
    ensures address % ADDRESS_SPACE == address
  {
  }

  /** Page k is read from `PAGE_SIZE * k`, and is the image's bytes from there on. */
  lemma ReadOfPage(chip: Chip, image: seq<Byte>, k: nat)
    requires |image| <= ADDRESS_SPACE && k < |Pages(image)|
    ensures ReadBackTrace(chip, Pages(image))[k].received == ReadBack(chip.store, PAGE_SIZE * k, |Pages(image)[k]|)
    ensures Pages(image)[k] == image[PAGE_SIZE * k .. PAGE_SIZE * k + |Pages(image)[k]|]
  {
    PagesShape(image, k);
    PageOffsets(image, k);
    var command := FastRead(PAGE_SIZE * k);
    assert command[1..] == AddressBytes(PAGE_SIZE * k);
  }

  /** If the device holds the image from address 0, every page reads back equal. */
  lemma StoredImageReadsBack(chip: Chip, image: seq<Byte>)
    requires |image| <= ADDRESS_SPACE
    requires forall a :: 0 <= a < |image| ==> Cell(chip.store, a) == image[a]
    ensures PagesMatch(ReadBackTrace(chip, Pages(image)), Pages(image))
  {
    var pages := Pages(image);
    forall k | 0 <= k < |pages|
      ensures ReadBackTrace(chip, pages)[k].received == pages[k]
    {
      ReadOfPage(chip, image, k);
      PagesShape(image, k);
    }
  }

  /** A byte of the image that the device does not hold makes its page read back different. */
  lemma MismatchDetected(chip: Chip, image: seq<Byte>, a: nat)
    requires |image| <= ADDRESS_SPACE && a < |image|
    requires Cell(chip.store, a) != image[a]
    ensures !PagesMatch(ReadBackTrace(chip, Pages(image)), Pages(image))
  {
    var pages := Pages(image);
    var k, i := a / PAGE_SIZE, a % PAGE_SIZE;
    assert a == PAGE_SIZE * k + i;
    PageStartsInImage(|image|, k);
    PagesShape(image, k);
    ReadOfPage(chip, image, k);
    assert ReadBackTrace(chip, pages)[k].received[i] != pages[k][i];
  }

  /**
   * The read-back of an image succeeds on every page if and only if the
   * device holds the image byte for byte from address 0.
   */
  lemma ReadBackMatchesIffStored(chip: Chip, image: seq<Byte>)
    requires |image| <= ADDRESS_SPACE
    ensures PagesMatch(ReadBackTrace(chip, Pages(image)), Pages(image))
        <==> forall a :: 0 <= a < |image| ==> Cell(chip.store, a) == image[a]
  {
    if forall a :: 0 <= a < |image| ==> Cell(chip.store, a) == image[a] {
      StoredImageReadsBack(chip, image);
    } else {
      var a :| 0 <= a < |image| && Cell(chip.store, a) != image[a];
      MismatchDetected(chip, image, a);
    }
  }

  /**
   * With no erase, programming makes every page read back equal exactly
   * when each image byte, ANDed into the cell it lands on, comes out
   * unchanged; a region that was blank under the image always qualifies.
   */
  lemma ProgrammedImageVerifies(chip: Chip, image: seq<Byte>)
    requires |image| <= ADDRESS_SPACE
    ensures PagesMatch(ReadBackTrace(Programming(chip, Pages(image)).chip, Pages(image)), Pages(image))
        <==> forall a :: 0 <= a < |image| ==> And(Cell(chip.store, a), image[a]) == image[a]
    ensures (forall a :: 0 <= a < |image| ==> Cell(chip.store, a) == ERASED)
        ==> PagesMatch(ReadBackTrace(Programming(chip, Pages(image)).chip, Pages(image)), Pages(image))
  {
    var after := Programming(chip, Pages(image)).chip;
    ConcatPages(image);
    forall a | 0 <= a < |image|
      ensures Cell(after.store, a) == And(Cell(chip.store, a), image[a])
      ensures And(ERASED, image[a]) == image[a]
    {
      ProgrammedCells(chip, Pages(image), a);
      AndErased(image[a]);
    }
    ReadBackMatchesIffStored(after, image);
  }

  /**
   * The script erases nothing: if some cell already has a bit cleared that
   * the image needs set, programming cannot restore it and the read-back fails.
   */
  lemma ProgrammingUnerasedFails(chip: Chip, image: seq<Byte>, a: nat)
    requires |image| <= ADDRESS_SPACE && a < |image|
    requires And(Cell(chip.store, a), image[a]) != image[a]
    ensures !PagesMatch(ReadBackTrace(Programming(chip, Pages(image)).chip, Pages(image)), Pages(image))
  {
    var after := Programming(chip, Pages(image)).chip;
    ConcatPages(image);
    ProgrammedCells(chip, Pages(image), a);
    ReadBackMatchesIffStored(after, image);
  }

  /**
   * The frame for page k of an image is opcode 0x02, the address
   * `256 * k` in three bytes and the image's bytes from there: at most
   * 260 bytes, one frame per page, in page order.
   */
  lemma ImageFrames(chip: Chip, image: seq<Byte>, k: nat)
    requires k < |Pages(image)|
    ensures |Writes(Programming(chip, Pages(image)).trace)| == |Pages(image)|
    ensures Writes(Programming(chip, Pages(image)).trace)[k]
         == [PAGE_PROGRAM] + AddressBytes(PAGE_SIZE * k) + image[PAGE_SIZE * k .. PAGE_SIZE * k + |Pages(image)[k]|]
    ensures |Writes(Programming(chip, Pages(image)).trace)[k]| <= 4 + PAGE_SIZE
  {
    ProgrammingWrites(chip, Pages(image));
    PageOffsets(image, k);
    PagesShape(image, k);
  }

  /**
   * The read-back loop reads page k at the address the program loop wrote
   * it to (the same three address bytes) and reads as many bytes as it wrote.
   */
  lemma ReadsFollowWrites(chip: Chip, later: Chip, pages: seq<seq<Byte>>, k: nat)
    requires k < |pages|
    ensures |Writes(Programming(chip, pages).trace)| == |ReadBackTrace(later, pages)|
    ensures |Writes(Programming(chip, pages).trace)[k]| == 4 + |ReadBackTrace(later, pages)[k].received|
    ensures Writes(Programming(chip, pages).trace)[k][1..4] == ReadBackTrace(later, pages)[k].sent[1..4]
  {
    ProgrammingWrites(chip, pages);
  }

  /** The identification, write-enable and status exchanges send no page program. */
  lemma GatesWriteNothing(chip: Chip)
    ensures Writes(GateTrace(chip)) == []
    ensures Writes(GateTrace(chip)[..1]) == []
  {
    NoWrites(GateTrace(chip));
    NoWrites(GateTrace(chip)[..1]);
  }
}
