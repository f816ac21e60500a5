/**
 * What the codes and types that the BMC is told mean, in terms of the request, of the sysfs writes and of their answers.
 * The numbers are written out as the BMC sees them.
 */
module HbmCodes {
  import opened Numerals
  import opened HbmSection
  import opened BmcReport
  import opened HbmHandler

  // ----- repair results -----

  predicate ByDevice(entry: Entry) { entry.Query? || entry.Repair? }

  /** The answer to a write that a code from a device stands for: out of resources; an address or parameter the device
      refuses, where a query answered -ENXIO only sends the handler on; any other error; a page that stays offline. */
  predicate Causes(code: nat, entry: Entry, ret: int) {
    if code == 0x94 then ByDevice(entry) && ret == -28
    else if code == 0x98 then ByDevice(entry) && (ret == -22 || (ret == -6 && entry.Repair?))
    else if code == 0x9c then ByDevice(entry) && ret < 0 && ret !in {-28, -22, -6}
    else code == 0xa0 && entry.OnlinePage? && ret < 0
  }

  const DEVICE_CODES: set<nat> := {0x94, 0x98, 0x9c, 0xa0}

  predicate CausedFrom(ws: seq<Write>, result: nat -> int, code: nat, lo: nat) {
    exists k :: lo <= k < |ws| && Causes(code, ws[k].entry, result(k))
  }

  /** Some write of the run got such an answer. */
  predicate Caused(ws: seq<Write>, result: nat -> int, code: nat) { CausedFrom(ws, result, code, 0) }

  lemma CausedByParts(ws: seq<Write>, more: seq<Write>, result: nat -> int, code: nat)
    ensures Caused(ws + more, result, code) <==> Caused(ws, result, code) || CausedFrom(ws + more, result, code, |ws|)
  {
    hide Causes;
    if k :| 0 <= k < |ws + more| && Causes(code, (ws + more)[k].entry, result(k)) {
      if k < |ws| {
        assert Causes(code, ws[k].entry, result(k));
      }
    }
    if k :| 0 <= k < |ws| && Causes(code, ws[k].entry, result(k)) {
      assert Causes(code, (ws + more)[k].entry, result(k));
    }
  }

  lemma {:induction false} NotAllGood(result: nat -> int, at: nat, n: nat) returns (k: nat)
    requires !AllGood(result, at, n)
    ensures k < n && result(at + k) < 0
  {
    if result(at + n - 1) < 0 {
      k := n - 1;
    } else {
      k := NotAllGood(result, at, n - 1);
    }
  }

  /** The pages after a repair: a code for a page that stays offline exactly when a page is to be brought back and one
      of the writes fails. */
  lemma PagesCause(e: Section, ws: seq<Write>, at: nat, entry: Entry, result: nat -> int)
    requires FlatRequest(e) && |ws| == at + PageCount(e) && ws[at..] == Each(entry, Pages(e))
    requires entry == OnlinePage || entry == RemovePage
    ensures CausedFrom(ws, result, 0xa0, at) <==> entry == OnlinePage && !AllGood(result, at, PageCount(e))
    ensures forall code :: code in {0x94, 0x98, 0x9c} ==> !CausedFrom(ws, result, code, at)
  {
    hide FlatRequest, PageCount, PageAddress, Pages;
    var n := PageCount(e);
    assert forall k :: at <= k < |ws| ==> ws[k] == ws[at..][k - at] && ws[k].entry == entry;
    if entry == OnlinePage {
      if AllGood(result, at, n) {
        forall k | at <= k < |ws| ensures result(k) >= 0 {
          GoodEach(result, at, n, k - at);
        }
      } else {
        var k := NotAllGood(result, at, n);
        assert Causes(0xa0, ws[at + k].entry, result(at + k));
      }
    }
  }

  /** One device notifies a code exactly when one of the writes to it, or to the pages after it, was answered so. */
  lemma DeviceCodes(e: Section, result: nat -> int, dev: nat, o: Log, code: nat)
    requires FlatRequest(e) && code in DEVICE_CODES
    ensures var ws := o.writes + RepairWrites(e, dev, result(|o.writes|), result(|o.writes| + 1));
            code in RepairNotices(e, result, |o.writes|) <==> CausedFrom(ws, result, code, |o.writes|)
  {
    hide FlatRequest, PageCount, PageAddress, AllGood, Each;
    var at := |o.writes|;
    var q, r := result(at), result(at + 1);
    var ws := o.writes + RepairWrites(e, dev, q, r);
    assert ws[at].entry.Query?;
    if q < 0 {
      assert |ws| == at + 1;
      assert CausedFrom(ws, result, code, at) <==> Causes(code, ws[at].entry, q);
    } else {
      assert ws[at + 1].entry.Repair?;
      var entry := if r < 0 then RemovePage else OnlinePage;
      assert ws[at + 2..] == Each(entry, Pages(e));
      PagesCause(e, ws, at + 2, entry, result);
      FirstTwo(ws, result, code, at);
    }
  }

  lemma FirstTwo(ws: seq<Write>, result: nat -> int, code: nat, at: nat)
    requires at + 2 <= |ws|
    ensures CausedFrom(ws, result, code, at) <==>
              || Causes(code, ws[at].entry, result(at)) || Causes(code, ws[at + 1].entry, result(at + 1))
              || CausedFrom(ws, result, code, at + 2)
  {
    hide Causes;
  }

  /** All queries so far were answered -ENXIO. */
  predicate AllMissed(ws: seq<Write>, result: nat -> int) {
    forall k :: 0 <= k < |ws| && ws[k].entry.Query? ==> result(k) == -6
  }

  lemma DeviceMissed(e: Section, result: nat -> int, dev: nat, o: Log)
    requires FlatRequest(e)
    ensures var o1 := AfterDevice(e, result, dev, o);
            && (o1.addrInDevice ==> !AllMissed(o1.writes, result))
            && (!o1.addrInDevice && AllMissed(o.writes, result) ==>
                  AllMissed(o1.writes, result) || Caused(o1.writes, result, 0x98))
            && (Caused(o.writes, result, 0x98) ==> Caused(o1.writes, result, 0x98))
  {
    hide FlatRequest, PageCount, PageAddress, AllGood;
    var at, o1 := |o.writes|, AfterDevice(e, result, dev, o);
    var more := RepairWrites(e, dev, result(at), result(at + 1));
    assert o1.writes == o.writes + more && o1.writes[at].entry.Query?;
    CausedByParts(o.writes, more, result, 0x98);
    if result(at) >= 0 {
      assert o1.writes[at + 1] == more[1];
      assert result(at + 1) == -6 ==> Causes(0x98, o1.writes[at + 1].entry, result(at + 1));
    } else {
      assert |more| == 1;
    }
  }

  lemma {:induction false} DevicesCodes(e: Section, result: nat -> int, devices: seq<Device>, i: nat, o: Log, code: nat)
    requires FlatRequest(e) && i <= |devices| && code in DEVICE_CODES
    requires code in o.notices <==> Caused(o.writes, result, code)
    ensures var o1 := AfterDevices(e, result, devices, i, o);
            code in o1.notices <==> Caused(o1.writes, result, code)
    decreases |devices| - i
  {
    hide FlatRequest, RepairWrites, RepairNotices, NotInDevice, Caused, CausedFrom;
    if i == |devices| || o.addrInDevice {
    } else if devices[i].matches && devices[i].hbm {
      DeviceCodes(e, result, i, o, code);
      CausedByParts(o.writes, RepairWrites(e, i, result(|o.writes|), result(|o.writes| + 1)), result, code);
      DevicesCodes(e, result, devices, i + 1, AfterDevice(e, result, i, o), code);
    } else {
      DevicesCodes(e, result, devices, i + 1, o, code);
    }
  }

  lemma {:induction false} DevicesMissed(e: Section, result: nat -> int, devices: seq<Device>, i: nat, o: Log)
    requires FlatRequest(e) && i <= |devices| && !o.addrInDevice
    requires AllMissed(o.writes, result) || Caused(o.writes, result, 0x98)
    ensures var o1 := AfterDevices(e, result, devices, i, o);
            && (o1.addrInDevice ==> !AllMissed(o1.writes, result))
            && (!o1.addrInDevice ==> AllMissed(o1.writes, result) || Caused(o1.writes, result, 0x98))
    decreases |devices| - i
  {
    hide FlatRequest, AfterDevice, Caused, AllMissed;
    if i == |devices| {
    } else if devices[i].matches && devices[i].hbm {
      DeviceMissed(e, result, i, o);
      var o1 := AfterDevice(e, result, i, o);
      if !o1.addrInDevice {
        DevicesMissed(e, result, devices, i + 1, o1);
      }
    } else {
      DevicesMissed(e, result, devices, i + 1, o);
    }
  }

  predicate HasHbm(directory: Option<seq<Device>>) {
    directory.Some? && exists d :: d in directory.value && d.matches && d.hbm
  }

  /** The pages fit under the threshold, four kilobytes each, and all were taken offline. */
  ghost predicate Isolated(e: Section, result: nat -> int, corrupted: int, threshold: int)
    requires Readable(e)
  {
    var pages := if IsAcls(e) then 1 else 16;
    && 0 <= corrupted <= threshold - 4 * pages
    && forall k: nat :: k < pages ==> result(k) >= 0
  }

  lemma IsolatedMeans(e: Section, result: nat -> int, corrupted: int, threshold: int)
    requires FlatRequest(e)
    ensures Isolated(e, result, corrupted, threshold) <==>
              corrupted >= 0 && EnoughRoom(e, corrupted, threshold) && AllGood(result, 0, PageCount(e))
  {
    hide FlatRequest;
    var n := PageCount(e);
    if AllGood(result, 0, n) {
      forall k: nat | k < n ensures result(k) >= 0 {
        GoodEach(result, 0, n, k);
      }
    } else {
      var k := NotAllGood(result, 0, n);
    }
  }

  lemma OfflineCausesNothing(e: Section, result: nat -> int, code: nat)
    requires FlatRequest(e) && code in DEVICE_CODES
    ensures !Caused(Each(OfflinePage, Pages(e)), result, code) && AllMissed(Each(OfflinePage, Pages(e)), result)
  {
    hide FlatRequest, PageCount;
  }

  /** The run up to the last notification. */
  lemma HandledDevices(e: Section, result: nat -> int, corrupted: int, threshold: int, directory: Option<seq<Device>>)
    requires FlatRequest(e) && Isolated(e, result, corrupted, threshold) && directory.Some?
    ensures var o := AfterDevices(e, result, directory.value, 0, Log(Each(OfflinePage, Pages(e)), [], false));
            && Handled(e, result, corrupted, threshold, directory) ==
               Log(o.writes, o.notices + LastNotice(directory.value, o.addrInDevice), o.addrInDevice)
            && (forall code :: code in DEVICE_CODES ==> (code in o.notices <==> Caused(o.writes, result, code)))
            && (o.addrInDevice ==> !AllMissed(o.writes, result))
            && (!o.addrInDevice ==> AllMissed(o.writes, result) || Caused(o.writes, result, 0x98))
  {
    IsolatedMeans(e, result, corrupted, threshold);
    hide FlatRequest, PageCount, Isolated, AfterDevices, AllGood, EnoughRoom, Caused, AllMissed, LastNotice;
    var start := Log(Each(OfflinePage, Pages(e)), [], false);
    OfflineCausesNothing(e, result, 0x98);
    DevicesMissed(e, result, directory.value, 0, start);
    forall code | code in DEVICE_CODES
      ensures var o := AfterDevices(e, result, directory.value, 0, start);
              code in o.notices <==> Caused(o.writes, result, code)
    {
      OfflineCausesNothing(e, result, code);
      DevicesCodes(e, result, directory.value, 0, start, code);
    }
  }

  lemma NotIsolatedCodes(e: Section, result: nat -> int, corrupted: int, threshold: int,
                         directory: Option<seq<Device>>, code: nat)
    requires FlatRequest(e) && code in DEVICE_CODES && !(Isolated(e, result, corrupted, threshold) && directory.Some?)
    ensures var o := Handled(e, result, corrupted, threshold, directory);
            && !Caused(o.writes, result, code)
            && (code in o.notices <==> code == 0x9c && Isolated(e, result, corrupted, threshold))
  {
    IsolatedMeans(e, result, corrupted, threshold);
    OfflineCausesNothing(e, result, code);
    hide FlatRequest, PageCount, Isolated, AllGood, EnoughRoom, Causes;
  }

  /** 0x94 is sent if and only if a query or a repair was answered -ENOSPC, and 0xa0 if and only if a page was not
      brought back. */
  lemma CodesOfAnswers(e: Section, result: nat -> int, corrupted: int, threshold: int,
                       directory: Option<seq<Device>>, code: nat)
    requires FlatRequest(e) && (code == 0x94 || code == 0xa0)
    ensures var o := Handled(e, result, corrupted, threshold, directory);
            code in o.notices <==> Caused(o.writes, result, code)
  {
    assert Readable(e);
    hide FlatRequest, Isolated, Handled, AfterDevices, Caused, AllMissed;
    if Isolated(e, result, corrupted, threshold) && directory.Some? {
      HandledDevices(e, result, corrupted, threshold, directory);
    } else {
      NotIsolatedCodes(e, result, corrupted, threshold, directory, code);
    }
  }

  /** 0x98 is sent if and only if a device refused the address or a parameter, or there are HBM devices and all of them
      answered the query with -ENXIO. */
  lemma InvalidParamExactly(e: Section, result: nat -> int, corrupted: int, threshold: int,
                            directory: Option<seq<Device>>)
    requires FlatRequest(e)
    ensures var o := Handled(e, result, corrupted, threshold, directory);
            0x98 in o.notices <==>
              || Caused(o.writes, result, 0x98)
              || (Isolated(e, result, corrupted, threshold) && HasHbm(directory) && AllMissed(o.writes, result))
  {
    assert Readable(e);
    hide FlatRequest, Isolated, Handled, AfterDevices, Caused, AllMissed;
    if Isolated(e, result, corrupted, threshold) && directory.Some? {
      HandledDevices(e, result, corrupted, threshold, directory);
    } else {
      NotIsolatedCodes(e, result, corrupted, threshold, directory, 0x98);
    }
  }

  /** 0x9c is sent if and only if a device answered another error, or the isolated pages meet no HBM device. */
  lemma OtherReasonExactly(e: Section, result: nat -> int, corrupted: int, threshold: int,
                           directory: Option<seq<Device>>)
    requires FlatRequest(e)
    ensures var o := Handled(e, result, corrupted, threshold, directory);
            0x9c in o.notices <==>
              || Caused(o.writes, result, 0x9c)
              || (Isolated(e, result, corrupted, threshold) && !HasHbm(directory))
  {
    assert Readable(e);
    hide FlatRequest, Isolated, Handled, AfterDevices, Caused, AllMissed;
    if Isolated(e, result, corrupted, threshold) && directory.Some? {
      HandledDevices(e, result, corrupted, threshold, directory);
      NoHbmNoWrites(e, result, directory.value, Log(Each(OfflinePage, Pages(e)), [], false), 0);
    } else {
      NotIsolatedCodes(e, result, corrupted, threshold, directory, 0x9c);
    }
  }

  lemma {:induction false} NoHbmNoWrites(e: Section, result: nat -> int, devices: seq<Device>, o: Log, i: nat)
    requires FlatRequest(e) && i <= |devices|
    ensures !HasHbm(Some(devices)) ==> AfterDevices(e, result, devices, i, o) == o
    decreases |devices| - i
  {
    hide FlatRequest, AfterDevice;
    if i == |devices| || o.addrInDevice {
    } else {
      NoHbmNoWrites(e, result, devices, o, i + 1);
    }
  }

  /** What the devices add to a run: no page is taken offline, and no code is about isolation. */
  predicate DevicePart(o: Log, o1: Log) {
    && o.writes <= o1.writes
    && (forall k :: |o.writes| <= k < |o1.writes| ==> !o1.writes[k].entry.OfflinePage?)
    && (0x81 in o1.notices ==> 0x81 in o.notices) && (0x82 in o1.notices ==> 0x82 in o.notices)
  }

  lemma DeviceAdds(e: Section, result: nat -> int, dev: nat, o: Log)
    requires FlatRequest(e)
    ensures DevicePart(o, AfterDevice(e, result, dev, o))
  {
    hide FlatRequest, PageCount, PageAddress, AllGood;
    var at := |o.writes|;
    var more := RepairWrites(e, dev, result(at), result(at + 1));
    assert forall k :: at <= k < at + |more| ==> (o.writes + more)[k] == more[k - at];
  }

  lemma {:induction false} DevicesAdd(e: Section, result: nat -> int, devices: seq<Device>, i: nat, o: Log)
    requires FlatRequest(e) && i <= |devices|
    ensures DevicePart(o, AfterDevices(e, result, devices, i, o))
    decreases |devices| - i
  {
    hide FlatRequest, AfterDevice;
    if i == |devices| || o.addrInDevice {
    } else if devices[i].matches && devices[i].hbm {
      DeviceAdds(e, result, i, o);
      DevicesAdd(e, result, devices, i + 1, AfterDevice(e, result, i, o));
    } else {
      DevicesAdd(e, result, devices, i + 1, o);
    }
  }

  predicate OfflineFails(ws: seq<Write>, result: nat -> int) {
    exists k :: 0 <= k < |ws| && ws[k].entry.OfflinePage? && result(k) < 0
  }

  lemma OfflineWrites(e: Section, result: nat -> int)
    requires FlatRequest(e)
    ensures var ws := Each(OfflinePage, Pages(e));
            && (OfflineFails(ws, result) <==> !AllGood(result, 0, PageCount(e)))
            && forall k :: 0 <= k < |ws| ==> ws[k].entry.OfflinePage?
  {
    hide FlatRequest, PageCount, Pages;
    var n, ws := PageCount(e), Each(OfflinePage, Pages(e));
    if AllGood(result, 0, n) {
      forall k | 0 <= k < |ws| ensures result(k) >= 0 {
        GoodEach(result, 0, n, k);
      }
    } else {
      var k := NotAllGood(result, 0, n);
      assert ws[k].entry.OfflinePage?;
    }
  }

  lemma DevicesOfflineNothing(result: nat -> int, o: Log, o1: Log)
    requires DevicePart(o, o1) && !OfflineFails(o.writes, result)
    ensures !OfflineFails(o1.writes, result)
  {
    assert forall k :: 0 <= k < |o.writes| ==> o1.writes[k] == o.writes[k];
  }

  lemma NotIsolatedSends(e: Section, result: nat -> int, corrupted: int, threshold: int,
                         directory: Option<seq<Device>>)
    requires FlatRequest(e)
    requires corrupted < 0 || !EnoughRoom(e, corrupted, threshold) || !AllGood(result, 0, PageCount(e))
    ensures var o := Handled(e, result, corrupted, threshold, directory);
            && o.notices == [if corrupted >= 0 && !EnoughRoom(e, corrupted, threshold) then 0x81 else 0x82]
            && (OfflineFails(o.writes, result) <==> corrupted >= 0 && EnoughRoom(e, corrupted, threshold))
            && forall k :: 0 <= k < |o.writes| ==> o.writes[k].entry.OfflinePage?
  {
    OfflineWrites(e, result);
    NothingFails(result);
    hide FlatRequest, PageCount, AllGood, EnoughRoom, OfflineFails, Pages, Each, IsAcls;
  }

  lemma IsolatedSendsNeither(e: Section, result: nat -> int, corrupted: int, threshold: int,
                             directory: Option<seq<Device>>)
    requires FlatRequest(e) && corrupted >= 0 && EnoughRoom(e, corrupted, threshold)
    requires AllGood(result, 0, PageCount(e))
    ensures var o := Handled(e, result, corrupted, threshold, directory);
            0x81 !in o.notices && 0x82 !in o.notices && !OfflineFails(o.writes, result)
  {
    OfflineWrites(e, result);
    var start := Log(Each(OfflinePage, Pages(e)), [], false);
    hide FlatRequest, PageCount, AllGood, EnoughRoom, AfterDevices, OfflineFails, Pages, Each, IsAcls, DevicePart;
    if directory.Some? {
      DevicesAdd(e, result, directory.value, 0, start);
      PartSendsNeither(start, AfterDevices(e, result, directory.value, 0, start), result, directory.value);
    }
  }

  lemma PartSendsNeither(start: Log, o: Log, result: nat -> int, devices: seq<Device>)
    requires DevicePart(start, o) && start.notices == [] && !OfflineFails(start.writes, result)
    ensures !OfflineFails(o.writes, result)
    ensures 0x81 !in o.notices + LastNotice(devices, o.addrInDevice)
    ensures 0x82 !in o.notices + LastNotice(devices, o.addrInDevice)
  {
    DevicesOfflineNothing(result, start, o);
  }

  /** 0x81 is sent if and only if the pages, at four kilobytes each, do not fit under the threshold, and 0x82 if and only
      if the corrupted size is unknown or a page was not taken offline; each is then all that is sent, and no device is
      asked. */
  lemma IsolationCodes(e: Section, result: nat -> int, corrupted: int, threshold: int,
                       directory: Option<seq<Device>>)
    requires FlatRequest(e)
    ensures var o, pages := Handled(e, result, corrupted, threshold, directory), if IsAcls(e) then 1 else 16;
            && (0x81 in o.notices <==> corrupted >= 0 && corrupted + 4 * pages > threshold)
            && (0x82 in o.notices <==> corrupted < 0 || OfflineFails(o.writes, result))
            && (0x81 in o.notices || 0x82 in o.notices ==>
                  |o.notices| == 1 && forall k :: 0 <= k < |o.writes| ==> o.writes[k].entry.OfflinePage?)
  {
    RoomInPages(e, corrupted, threshold);
    hide FlatRequest, PageCount, AllGood, EnoughRoom, OfflineFails, Handled, IsAcls;
    if corrupted < 0 || !EnoughRoom(e, corrupted, threshold) || !AllGood(result, 0, PageCount(e)) {
      NotIsolatedSends(e, result, corrupted, threshold, directory);
    } else {
      IsolatedSendsNeither(e, result, corrupted, threshold, directory);
    }
  }

  lemma NothingFails(result: nat -> int)
    ensures !OfflineFails([], result)
  {
  }

  lemma RoomInPages(e: Section, corrupted: int, threshold: int)
    requires FlatRequest(e)
    ensures EnoughRoom(e, corrupted, threshold) <==> corrupted + 4 * (if IsAcls(e) then 1 else 16) <= threshold
  {
  }

  // ----- what kind of request -----

  /** The lowest of the four bits of the request type register. */
  predicate LowestTypeBit(e: Section, k: nat)
    requires Readable(e)
  {
    k < 4 && HasBit(e.regs[0], k) && forall j: nat :: j < k ==> !HasBit(e.regs[0], j)
  }

  lemma TypeOf(e: Section) returns (k: nat)
    requires FlatRequest(e)
    ensures LowestTypeBit(e, k) && TypeCodes(e) == (k, if k < 2 then 6 else 1) && (k < 2 <==> IsAcls(e))
  {
    RegistersInBounds(e);
    hide HasBit;
    k := if HasBit(e.regs[0], 0) then 0 else if HasBit(e.regs[0], 1) then 1 else if HasBit(e.regs[0], 2) then 2 else 3;
  }

  /** The BMC is told, in the first three bytes after the command head, the number 7 + k of the request type, the code,
      and 6 for a single address or 1 for a row. */
  lemma TypeBytes(e: Section, code: nat) returns (k: nat)
    requires FlatRequest(e) && code in RESULT_CODES
    ensures LowestTypeBit(e, k) && (k < 2 <==> IsAcls(e))
    ensures var command := Receive(NoticeText(e, code));
            command.Some? && |command.value| == 43 &&
            SentBytes(command.value, 10, 3) == Some([7 + k, code, if k < 2 then 6 else 1])
  {
    k := TypeOf(e);
    hide FlatRequest, Receive, NoticeText, SentBytes, HasBit, FaultFields, PlaceBytes, LittleEndian4;
    hide LittleEndianValue, TypeCodes, LowestTypeBit, FaultAddress;
    NoticeAccepted(e, code);
  }

  /** A query or repair write of an address repair, as opposed to a row repair. */
  predicate ForAddress(entry: Entry) {
    match entry
    case Query(_, acls) => acls
    case Repair(_, acls) => acls
    case _ => false
  }

  ghost predicate AllOfKind(ws: seq<Write>, address: bool) {
    forall k :: 0 <= k < |ws| && ByDevice(ws[k].entry) ==> ForAddress(ws[k].entry) == address
  }

  /** The address of page k: register 2 k + 2 before register 2 k + 1. */
  predicate PageOf(e: Section, k: nat, addr: nat)
  {
    2 * k + 2 < |e.regs| && addr == e.regs[2 * k + 2] * 0x1_0000_0000 + e.regs[2 * k + 1]
  }

  /** Devices are asked about the first page, and all other writes are of one of the pages. */
  ghost predicate AllOfRequest(e: Section, ws: seq<Write>)
    requires Readable(e)
  {
    forall k :: 0 <= k < |ws| ==>
      if ByDevice(ws[k].entry) then PageOf(e, 0, ws[k].addr)
      else exists page: nat :: page < (if IsAcls(e) then 1 else 16) && PageOf(e, page, ws[k].addr)
  }

  lemma DeviceKind(e: Section, result: nat -> int, dev: nat, o: Log)
    requires FlatRequest(e) && AllOfKind(o.writes, IsAcls(e))
    ensures AllOfKind(AfterDevice(e, result, dev, o).writes, IsAcls(e))
  {
    RegistersInBounds(e);
    hide FlatRequest, PageCount, PageAddress, AllGood, IsAcls;
    var at := |o.writes|;
    var more := RepairWrites(e, dev, result(at), result(at + 1));
    assert forall k :: at <= k < at + |more| ==> (o.writes + more)[k] == more[k - at];
    assert forall k :: 0 <= k < at ==> (o.writes + more)[k] == o.writes[k];
  }

  lemma {:induction false} DevicesKind(e: Section, result: nat -> int, devices: seq<Device>, i: nat, o: Log)
    requires FlatRequest(e) && i <= |devices| && AllOfKind(o.writes, IsAcls(e))
    ensures AllOfKind(AfterDevices(e, result, devices, i, o).writes, IsAcls(e))
    decreases |devices| - i
  {
    RegistersInBounds(e);
    hide FlatRequest, AfterDevice, IsAcls, AllOfKind;
    if i == |devices| || o.addrInDevice {
    } else if devices[i].matches && devices[i].hbm {
      DeviceKind(e, result, i, o);
      DevicesKind(e, result, devices, i + 1, AfterDevice(e, result, i, o));
    } else {
      DevicesKind(e, result, devices, i + 1, o);
    }
  }

  /** What the BMC is told agrees with what is done: the third byte of every message is 6 exactly if all queries and
      repairs of the run are address repairs, and 1 exactly if all of them are row repairs. */
  lemma KindAgrees(e: Section, result: nat -> int, corrupted: int, threshold: int, directory: Option<seq<Device>>,
                   code: nat)
    requires FlatRequest(e) && code in RESULT_CODES
    ensures var command := Receive(NoticeText(e, code));
            var ws := Handled(e, result, corrupted, threshold, directory).writes;
            && command.Some? && |command.value| == 43
            && (SentByte(command.value[12]) == Some(6) || SentByte(command.value[12]) == Some(1))
            && AllOfKind(ws, SentByte(command.value[12]) == Some(6))
  {
    ThirdByte(e, code);
    WritesOfKind(e, result, corrupted, threshold, directory);
    hide FlatRequest, Receive, NoticeText, SentByte, Handled, AllOfKind, LowestTypeBit, TypeCodes, IsAcls;
  }

  lemma ThirdByte(e: Section, code: nat)
    requires FlatRequest(e) && code in RESULT_CODES
    ensures var command := Receive(NoticeText(e, code));
            && command.Some? && |command.value| == 43
            && Readable(e) && SentByte(command.value[12]) == Some(if IsAcls(e) then 6 else 1)
  {
    assert Readable(e);
    var k := TypeBytes(e, code);
    ThirdOf(Receive(NoticeText(e, code)), k, code);
    hide FlatRequest, Receive, NoticeText, SentByte, SentBytes, LowestTypeBit;
  }

  lemma ThirdOf(command: Option<seq<string>>, k: nat, code: nat)
    requires command.Some? && |command.value| == 43
    requires SentBytes(command.value, 10, 3) == Some([7 + k, code, if k < 2 then 6 else 1])
    ensures SentByte(command.value[12]) == Some(if k < 2 then 6 else 1)
  {
    LastByte(command.value, 10, [7 + k, code, if k < 2 then 6 else 1]);
  }

  lemma LastByte(command: seq<string>, lo: nat, bytes: seq<nat>)
    requires bytes != [] && lo + |bytes| <= |command| && SentBytes(command, lo, |bytes|) == Some(bytes)
    ensures SentByte(command[lo + |bytes| - 1]) == Some(bytes[|bytes| - 1])
  {
    hide SentByte;
  }

  lemma WritesOfKind(e: Section, result: nat -> int, corrupted: int, threshold: int, directory: Option<seq<Device>>)
    requires FlatRequest(e)
    ensures Readable(e) && AllOfKind(Handled(e, result, corrupted, threshold, directory).writes, IsAcls(e))
  {
    RegistersInBounds(e);
    OfflineWrites(e, result);
    hide FlatRequest, PageCount, Pages, Each, AllGood, EnoughRoom, AfterDevices, IsAcls, OfflineFails;
    if directory.Some? {
      DevicesKind(e, result, directory.value, 0, Log(Each(OfflinePage, Pages(e)), [], false));
    }
  }

  lemma PagesOfRequest(e: Section, k: nat)
    requires FlatRequest(e) && k < PageCount(e)
    ensures PageOf(e, k, Pages(e)[k]) && PageCount(e) == if IsAcls(e) then 1 else 16
  {
    hide IsAcls, IsSppr, IsCacheMode;
  }

  lemma EachOfRequest(e: Section, entry: Entry)
    requires FlatRequest(e) && !ByDevice(entry)
    ensures Readable(e) && AllOfRequest(e, Each(entry, Pages(e)))
  {
    assert Readable(e);
    hide FlatRequest, PageCount, Pages, PageOf, IsAcls;
    var ws := Each(entry, Pages(e));
    forall k | 0 <= k < |ws|
      ensures exists page: nat :: page < (if IsAcls(e) then 1 else 16) && PageOf(e, page, ws[k].addr)
    {
      PagesOfRequest(e, k);
      assert PageOf(e, k, ws[k].addr);
    }
  }

  lemma DeviceOfRequest(e: Section, result: nat -> int, dev: nat, o: Log)
    requires FlatRequest(e) && AllOfRequest(e, o.writes)
    ensures AllOfRequest(e, AfterDevice(e, result, dev, o).writes)
  {
    var q, r := result(|o.writes|), result(|o.writes| + 1);
    EachOfRequest(e, OnlinePage);
    EachOfRequest(e, RemovePage);
    PagesOfRequest(e, 0);
    var head: seq<Write> := [Write(Query(dev, IsAcls(e)), PageAddress(e, 0))];
    var rest := RepairWrites(e, dev, q, r);
    hide FlatRequest, PageCount, Pages, Each, AllGood, IsAcls, PageOf;
    JoinedOfRequest(e, o.writes, rest);
  }

  lemma JoinedOfRequest(e: Section, a: seq<Write>, b: seq<Write>)
    requires Readable(e) && AllOfRequest(e, a) && AllOfRequest(e, b)
    ensures AllOfRequest(e, a + b)
  {
    hide IsAcls, PageOf;
  }

  lemma {:induction false} DevicesOfRequest(e: Section, result: nat -> int, devices: seq<Device>, i: nat, o: Log)
    requires FlatRequest(e) && i <= |devices| && AllOfRequest(e, o.writes)
    ensures AllOfRequest(e, AfterDevices(e, result, devices, i, o).writes)
    decreases |devices| - i
  {
    assert Readable(e);
    hide FlatRequest, AfterDevice, IsAcls, AllOfRequest;
    if i == |devices| || o.addrInDevice {
    } else if devices[i].matches && devices[i].hbm {
      DeviceOfRequest(e, result, i, o);
      DevicesOfRequest(e, result, devices, i + 1, AfterDevice(e, result, i, o));
    } else {
      DevicesOfRequest(e, result, devices, i + 1, o);
    }
  }

  /** In every run the addresses written are those of the request: devices are asked about the first page only, and pages
      that are taken offline, brought back or removed are among its one or sixteen pages. */
  lemma AddressesOfRequest(e: Section, result: nat -> int, corrupted: int, threshold: int,
                           directory: Option<seq<Device>>)
    requires FlatRequest(e)
    ensures Readable(e) && AllOfRequest(e, Handled(e, result, corrupted, threshold, directory).writes)
  {
    EachOfRequest(e, OfflinePage);
    NothingOfRequest(e);
    hide FlatRequest, PageCount, Pages, Each, AllGood, EnoughRoom, AfterDevices, IsAcls, AllOfRequest;
    if directory.Some? {
      DevicesOfRequest(e, result, directory.value, 0, Log(Each(OfflinePage, Pages(e)), [], false));
    }
  }

  lemma NothingOfRequest(e: Section)
    requires FlatRequest(e)
    ensures AllOfRequest(e, [])
  {
  }

  // ----- where the BMC finds the address -----

  lemma Offsets()
    ensures FIELD_LENGTHS[0..] == FIELD_LENGTHS
    ensures TotalLength(FIELD_LENGTHS[..0]) == 0 && TotalLength(FIELD_LENGTHS[..1]) == 2
    ensures TotalLength(FIELD_LENGTHS[..2]) == 3 && TotalLength(FIELD_LENGTHS[..3]) == 6
    ensures TotalLength(FIELD_LENGTHS[..4]) == 9 && TotalLength(FIELD_LENGTHS[..5]) == 17
    ensures TotalLength(FIELD_LENGTHS[..6]) == 20 && TotalLength(FIELD_LENGTHS[..7]) == 23
    ensures TotalLength(FIELD_LENGTHS[..8]) == 40
  {
    NextOffset(0); NextOffset(1); NextOffset(2); NextOffset(3); NextOffset(4); NextOffset(5); NextOffset(6);
    NextOffset(7);
  }

  lemma NextOffset(i: nat)
    requires i < FAULT_FIELD_NUM
    ensures TotalLength(FIELD_LENGTHS[..i + 1]) == TotalLength(FIELD_LENGTHS[..i]) + FIELD_LENGTHS[i]
    ensures TotalLength(FIELD_LENGTHS[..0]) == 0
  {
    LengthOfMore(FIELD_LENGTHS[..i], FIELD_LENGTHS[i]);
    assert FIELD_LENGTHS[..i + 1] == FIELD_LENGTHS[..i] + [FIELD_LENGTHS[i]];
  }

  lemma {:induction false} LengthOfMore(lens: seq<nat>, len: nat)
    ensures TotalLength(lens + [len]) == TotalLength(lens) + len
  {
    if lens == [] {
      assert [len][1..] == [];
    } else {
      assert (lens + [len])[1..] == lens[1..] + [len];
      LengthOfMore(lens[1..], len);
    }
  }

  lemma Powers()
    ensures Pow2(0) == 1 && Pow2(1) == 2 && Pow2(2) == 4 && Pow2(3) == 8 && Pow2(6) == 64 && Pow2(8) == 256
    ensures Pow2(9) == 512 && Pow2(10) == 1024 && Pow2(17) == 0x2_0000 && Pow2(20) == 0x10_0000
    ensures Pow2(23) == 0x80_0000 && Pow2(40) == 0x100_0000_0000
  {
    Pow2Add(6, 3);
    Pow2Add(8, 2);
    Pow2Add(8, 9);
    Pow2Add(17, 3);
    Pow2Add(20, 3);
    Pow2Add(20, 20);
  }

  /** The nine fields that are reported, as parts of the 64-bit fault address. */
  lemma FieldsOfAddress(a: nat)
    ensures var f := FaultFields(a);
            && PlaceBytes(f) ==
               [a % 4, a / 4 % 2, a / 8 % 8, 0, a / 64 % 8, 0, a / 512 % 256, a / 0x2_0000 % 8, a / 0x10_0000 % 8]
            && f[ROW_ID] == a / 0x80_0000 % 0x2_0000 && f[COLUMN_ID] == a / 0x100_0000_0000 % 1024
  {
    Offsets();
    Powers();
    hide Pow2, TotalLength, Decode;
    DecodeAt(a, FIELD_LENGTHS, 0); DecodeAt(a, FIELD_LENGTHS, 1); DecodeAt(a, FIELD_LENGTHS, 2);
    DecodeAt(a, FIELD_LENGTHS, 3); DecodeAt(a, FIELD_LENGTHS, 4); DecodeAt(a, FIELD_LENGTHS, 5);
    DecodeAt(a, FIELD_LENGTHS, 6); DecodeAt(a, FIELD_LENGTHS, 7); DecodeAt(a, FIELD_LENGTHS, 8);
  }

  /** The parts of an address as they are sent, and the row and the column. */
  function PlaceParts(a: nat): seq<nat> {
    [a % 4, a / 4 % 2, a / 8 % 8, 0, a / 64 % 8, 0, a / 512 % 256, a / 0x2_0000 % 8, a / 0x10_0000 % 8]
  }

  function RowPart(a: nat): nat { a / 0x80_0000 % 0x2_0000 }

  function ColumnPart(a: nat): nat { a / 0x100_0000_0000 % 1024 }

  lemma PartsOfAddress(a: nat)
    ensures var f := FaultFields(a);
            PlaceBytes(f) == PlaceParts(a) && f[ROW_ID] == RowPart(a) && f[COLUMN_ID] == ColumnPart(a)
  {
    FieldsOfAddress(a);
    hide FaultFields, PlaceBytes;
  }

  /** The fault address is in the last two registers, the last one before the other. */
  lemma FaultAddressIs(e: Section)
    requires FlatRequest(e)
    ensures var n := e.regArraySize / 4;
            && n in {5, 35} && n <= |e.regs| && FaultAddress(e) == e.regs[n - 1] * 0x1_0000_0000 + e.regs[n - 2]
  {
    hide HasBit;
  }

  ghost predicate SendsAddress(command: Option<seq<string>>, a: nat) {
    && command.Some? && |command.value| == 43
    && SentBytes(command.value, 21, 9) == Some(PlaceParts(a))
    && SentBytes(command.value, 30, 4) == Some(LittleEndian4(RowPart(a)))
    && SentBytes(command.value, 34, 4) == Some(LittleEndian4(ColumnPart(a)))
  }

  lemma SendsFields(command: Option<seq<string>>, a: nat)
    requires command.Some? && |command.value| == 43
    requires var f := FaultFields(a);
             && SentBytes(command.value, 21, 9) == Some(PlaceBytes(f))
             && SentBytes(command.value, SEND_ROW, 4) == Some(LittleEndian4(f[ROW_ID]))
             && SentBytes(command.value, SEND_COL, 4) == Some(LittleEndian4(f[COLUMN_ID]))
    ensures SendsAddress(command, a)
  {
    PartsOfAddress(a);
    hide FaultFields, PlaceBytes, LittleEndian4, PlaceParts, RowPart, ColumnPart, SentBytes;
  }

  /** The BMC is sent the parts of the fault address, each at its place, and row and column as little-endian words. */
  lemma AddressSent(e: Section, code: nat)
    requires FlatRequest(e) && code in RESULT_CODES
    ensures e.regArraySize >= 8 && SendsAddress(Receive(NoticeText(e, code)), FaultAddress(e))
  {
    RegistersInBounds(e);
    NoticeAccepted(e, code);
    hide FlatRequest, SentBytes, FaultFields, PlaceBytes, LittleEndian4, LittleEndianValue, TypeCodes, FaultAddress;
    hide SendsAddress, Receive, NoticeText;
    SendsFields(Receive(NoticeText(e, code)), FaultAddress(e));
  }

  // ----- the numbers -----

  /** The service accepts the seven numbers for the types it knows, and nothing else. */
  lemma AcceptedNumbers(e: Section, code: nat)
    requires Readable(e) && RepairValidate(e) && code < 256
    ensures Receive(NoticeText(e, code)).Some? <==>
              (IsAcls(e) || IsSppr(e)) && code in {0, 0x81, 0x82, 0x94, 0x98, 0x9c, 0xa0}
  {
    hide Receive, NoticeText, Tokens, CommandBytes, FaultFields, TypeCodes;
    NoticeReceived(e, code);
  }

  /** 0 is sent if and only if a device repaired the address and every page came back. */
  lemma SuccessExactly(e: Section, result: nat -> int, corrupted: int, threshold: int, directory: Option<seq<Device>>)
    requires FlatRequest(e)
    ensures var o := Handled(e, result, corrupted, threshold, directory);
            0 in o.notices <==> EndsRepaired(e, o.writes, result)
  {
    hide Handled, EndsRepaired, FlatRequest;
    SuccessExactlyWhenRepaired(e, result, corrupted, threshold, directory);
  }
}
