/**
 * The programming script itself: the identification and write-enable
 * checks, the program loop with its busy-wait, and the read-back loop.
 * Each method is proved against the functions of FlashSpec, whose
 * properties are proved there.
 */
module Flasher {
  import opened Wire
  import opened Paging
  import opened Device
  import opened FlashSpec

  /** How a run of the script ends. */
  datatype Outcome =
    | DeviceNotDetected        // the identification reply was not 0x2020
    | WriteEnableFailed        // the write-enable latch read back clear
    | Completed(equal: bool)   // programmed and read back; `equal` as the script leaves it

  /** `get_status()`: a one-byte Read Identification, which the script uses as its status poll. */
  method GetStatus(bus: Bus) returns (status: Byte)
    modifies bus
    ensures status == NextPoll(old(bus.chip.polls))
    ensures bus.chip == old(bus.chip).(polls := Drop(old(bus.chip.polls)))
    ensures bus.log == old(bus.log) + [Transfer([READ_ID], [status])]
  {
    var reply := bus.Exchange([READ_ID], 1);
    status := reply[0];
  }

  /**
   * A poll of the busy-wait that finds the device busy: if the polls so
   * far plus the busy-wait over `rest` make up the whole busy-wait, the
   * polls so far, this one, and the busy-wait over the rest still do.
   */
  lemma PollBusyStep(whole: seq<Transfer>, left: seq<Byte>, done: seq<Transfer>, rest: seq<Byte>)
    requires whole == done + PollTrace(rest) && left == PollsLeft(rest)
    requires Busy(NextPoll(rest))
    ensures whole == done + [Transfer([READ_ID], [NextPoll(rest)])] + PollTrace(Drop(rest))
    ensures left == PollsLeft(Drop(rest))
  {
    PollStep(rest);
    var t := [Transfer([READ_ID], [NextPoll(rest)])];
    AppendAssoc(done, t, PollTrace(Drop(rest)));
  }

  /** A poll of the busy-wait that finds the device ready ends it. */
  lemma PollReadyStep(whole: seq<Transfer>, left: seq<Byte>, done: seq<Transfer>, rest: seq<Byte>)
    requires whole == done + PollTrace(rest) && left == PollsLeft(rest)
    requires !Busy(NextPoll(rest))
    ensures whole == done + [Transfer([READ_ID], [NextPoll(rest)])]
    ensures left == Drop(rest)
  {
    PollStep(rest);
    var t := [Transfer([READ_ID], [NextPoll(rest)])];
    assert t + [] == t;
  }

  /** `while get_status() & 0x1 == 1: sleep(0.01)`, each poll one step. */
  method WaitReady(bus: Bus)
    modifies bus
    ensures bus.chip == old(bus.chip).(polls := PollsLeft(old(bus.chip.polls)))
    ensures bus.log == old(bus.log) + PollTrace(old(bus.chip.polls))
  {
    ghost var whole, left, before := PollTrace(bus.chip.polls), PollsLeft(bus.chip.polls), bus.log;
    ghost var done: seq<Transfer> := [];
    assert whole == done + PollTrace(bus.chip.polls);
    if Busy(NextPoll(bus.chip.polls)) {
      PollBusyStep(whole, left, done, bus.chip.polls);
    } else {
      PollReadyStep(whole, left, done, bus.chip.polls);
    }
    var status := GetStatus(bus);
    AppendAssoc(before, done, [Transfer([READ_ID], [status])]);
    done := done + [Transfer([READ_ID], [status])];
    while Busy(status)
      invariant bus.chip == old(bus.chip).(polls := bus.chip.polls)
      invariant bus.log == before + done
      invariant Busy(status) ==> left == PollsLeft(bus.chip.polls) && whole == done + PollTrace(bus.chip.polls)
      invariant !Busy(status) ==> left == bus.chip.polls && whole == done
      decreases |bus.chip.polls| + if Busy(status) then 1 else 0
    {
      if Busy(NextPoll(bus.chip.polls)) {
        PollBusyStep(whole, left, done, bus.chip.polls);
      } else {
        PollReadyStep(whole, left, done, bus.chip.polls);
      }
      status := GetStatus(bus);
      AppendAssoc(before, done, [Transfer([READ_ID], [status])]);
      done := done + [Transfer([READ_ID], [status])];
    }
  }

  /** The body of the program loop: wait until ready, then send `page` at `address`. */
  method WritePage(bus: Bus, address: nat, page: seq<Byte>)
    modifies bus
    ensures bus.chip == ProgramPage(old(bus.chip), address, page).chip
    ensures bus.log == old(bus.log) + ProgramPage(old(bus.chip), address, page).trace
  {
    WaitReady(bus);
    var pageWrite := [PAGE_PROGRAM];
    pageWrite := pageWrite + AddressBytes(address);
    pageWrite := pageWrite + page;
    assert pageWrite == PageProgram(address, page);
    var _ := bus.Exchange(pageWrite, 0);
  }

  /** One turn of the program loop extends the log by the page's part of `Programming`. */
  lemma ProgramLoopStep(start: Chip, pages: seq<seq<Byte>>, k: nat, before: seq<Transfer>, mid: seq<Transfer>, after: seq<Transfer>)
    requires k < |pages|
    requires mid == before + Programming(start, pages[..k]).trace
    requires after == mid + ProgramPage(Programming(start, pages[..k]).chip, Offset(pages, k), pages[k]).trace
    ensures after == before + Programming(start, pages[..k + 1]).trace
    ensures ProgramPage(Programming(start, pages[..k]).chip, Offset(pages, k), pages[k]).chip == Programming(start, pages[..k + 1]).chip
  {
    ProgrammingStep(start, pages, k);
    var done := Programming(start, pages[..k]).trace;
    var last := ProgramPage(Programming(start, pages[..k]).chip, Offset(pages, k), pages[k]).trace;
    AppendAssoc(before, done, last);
  }

  /**
   * The program loop: for each page, wait until ready and send it at
   * `address`, then advance `address` by the page's length. Returns the
   * final `address`.
   */
  method ProgramImage(bus: Bus, pages: seq<seq<Byte>>) returns (address: nat)
    modifies bus
    ensures bus.chip == Programming(old(bus.chip), pages).chip
    ensures bus.log == old(bus.log) + Programming(old(bus.chip), pages).trace
    ensures address == |Concat(pages)|
  {
    ghost var start, before := bus.chip, bus.log;
    address := 0;
    for k := 0 to |pages|
      invariant address == Offset(pages, k)
      invariant bus.chip == Programming(start, pages[..k]).chip
      invariant bus.log == before + Programming(start, pages[..k]).trace
    {
      ghost var mid := bus.log;
      var page := pages[k];
      WritePage(bus, address, page);
      ProgramLoopStep(start, pages, k, before, mid, bus.log);
      OffsetStep(pages, k);
      address := address + |page|;
    }
    assert pages[..|pages|] == pages;
  }

  /** The inner comparison loop: clear `equal` if any byte of the page differs from the one read back. */
  method ComparePage(page: seq<Byte>, readPage: seq<Byte>, equal: bool) returns (stillEqual: bool)
    requires |page| <= |readPage|
    ensures stillEqual <==> equal && page == readPage[..|page|]
  {
    stillEqual := equal;
    for i := 0 to |page|
      invariant stillEqual <==> equal && page[..i] == readPage[..i]
    {
      assert page[..i + 1] == page[..i] + [page[i]];
      assert readPage[..i + 1] == readPage[..i] + [readPage[i]];
      if page[i] != readPage[i] {
        stillEqual := false;
      }
    }
    assert page[..|page|] == page;
  }

  /**
   * The read-back loop: for each page, a Fast Read at the page's address
   * of the page's length, compared byte by byte; every page is read,
   * whatever the earlier ones gave.
   */
  method VerifyImage(bus: Bus, pages: seq<seq<Byte>>) returns (equal: bool)
    modifies bus
    ensures bus.chip == old(bus.chip)
    ensures bus.log == old(bus.log) + ReadBackTrace(old(bus.chip), pages)
    ensures equal <==> PagesMatch(ReadBackTrace(old(bus.chip), pages), pages)
  {
    ghost var expected, before := ReadBackTrace(bus.chip, pages), bus.log;
    var address := 0;
    equal := true;
    for k := 0 to |pages|
      invariant address == Offset(pages, k)
      invariant bus.chip == old(bus.chip)
      invariant bus.log == before + expected[..k]
      invariant equal <==> PagesMatch(expected[..k], pages[..k])
    {
      var page := pages[k];
      var readPage := bus.Exchange(FastRead(address), |page|);
      assert expected[k] == Transfer(FastRead(address), readPage);
      ghost var wasEqual := equal;
      equal := ComparePage(page, readPage, equal);
      assert readPage[..|page|] == readPage;
      assert equal <==> wasEqual && expected[k].received == pages[k];
      PagesMatchStep(expected, pages, k);
      TakeOneMore(expected, k);
      AppendAssoc(before, expected[..k], [expected[k]]);
      OffsetStep(pages, k);
      address := address + |page|;
    }
    assert expected[..|pages|] == expected;
    assert pages[..|pages|] == pages;
  }

  /**
   * The whole script: identify, enable writes and check the latch, then
   * program every page and read every page back.
   */
  method Flash(bus: Bus, image: seq<Byte>) returns (outcome: Outcome)
    modifies bus
    ensures outcome.DeviceNotDetected? <==> !IdMatches(Fit(old(bus.chip).id, 2))
    ensures outcome.WriteEnableFailed? <==> IdMatches(Fit(old(bus.chip).id, 2)) && !WriteEnabled(old(bus.chip).status)
    ensures outcome.DeviceNotDetected? ==>
      bus.chip == old(bus.chip) && bus.log == old(bus.log) + GateTrace(old(bus.chip))[..1]
    ensures outcome.WriteEnableFailed? ==>
      bus.chip == old(bus.chip) && bus.log == old(bus.log) + GateTrace(old(bus.chip))
    ensures outcome.Completed? ==>
      var programmed := Programming(old(bus.chip), Pages(image));
      && bus.chip == programmed.chip
      && bus.log == old(bus.log) + GateTrace(old(bus.chip)) + programmed.trace + ReadBackTrace(programmed.chip, Pages(image))
      && (outcome.equal <==> PagesMatch(ReadBackTrace(programmed.chip, Pages(image)), Pages(image)))
  {
    ghost var start, before := bus.chip, bus.log;
    ghost var gates := GateTrace(start);
    var jedecId := bus.Exchange([READ_ID], 2);
    assert bus.log == before + gates[..1] by {
      assert gates[..1] == [Transfer([READ_ID], jedecId)];
    }
    if !IdMatches(jedecId) {
      return DeviceNotDetected;
    }
    var enable := bus.Exchange([WRITE_ENABLE], 0);
    var readStatus := bus.Exchange([READ_STATUS], 1);
    assert bus.log == before + gates by {
      assert enable == [] && readStatus == [start.status];
      assert gates == gates[..1] + [Transfer([WRITE_ENABLE], enable)] + [Transfer([READ_STATUS], readStatus)];
    }
    if !WriteEnabled(readStatus[0]) {
      return WriteEnableFailed;
    }
    var pages := Pages(image);
    var _ := ProgramImage(bus, pages);
    var equal := VerifyImage(bus, pages);
    return Completed(equal);
  }
}
