/**
 * The flat-mode HBM repair handler: isolate the pages, try the repair devices, bring the pages back, and
 * tell the BMC. The outcome of every sysfs write is chosen by the environment: result(n) is what write n returns.
 */
module HbmHandler {
  import opened Numerals
  import opened HbmSection
  import opened BmcReport

  const ENXIO := 6
  const ENOSPC := 28
  const EIO := 5
  const EINVAL := 22
  const DEFAULT_PAGE_SIZE_KB := 4

  datatype Entry = OfflinePage | RemovePage | OnlinePage | Query(dev: nat, acls: bool) | Repair(dev: nat, acls: bool)

  datatype Write = Write(entry: Entry, addr: nat)

  /** A directory entry of the platform devices: whether its name matches, and whether its memory type is HBM. */
  datatype Device = Device(matches: bool, hbm: bool)

  // ----- what the handler has to do -----

  /** The number of pages of a flat request; its registers hold them all. */
  function PageCount(e: Section): (n: nat)
    requires FlatRequest(e)
    ensures 1 <= n <= HBM_SPPR_ADDR_NUM && forall k: nat :: k < n ==> 2 * k + HBM_ADDH < e.regArraySize / 4
  {
    RegistersInBounds(e);
    if IsAcls(e) then HBM_ACLS_ADDR_NUM else HBM_SPPR_ADDR_NUM
  }

  function Pages(e: Section): (pages: seq<nat>)
    requires FlatRequest(e)
    ensures |pages| == PageCount(e)
  {
    seq(PageCount(e), k requires 0 <= k < PageCount(e) => PageAddress(e, k))
  }

  function Each(entry: Entry, pages: seq<nat>): (ws: seq<Write>)
    ensures |ws| == |pages|
  {
    seq(|pages|, k requires 0 <= k < |pages| => Write(entry, pages[k]))
  }

  /** None of the n writes from number `at` on fails. */
  predicate AllGood(result: nat -> int, at: nat, n: nat) {
    n == 0 || (AllGood(result, at, n - 1) && result(at + n - 1) >= 0)
  }

  predicate EnoughRoom(e: Section, corrupted: int, threshold: int)
    requires FlatRequest(e)
  {
    PageCount(e) * DEFAULT_PAGE_SIZE_KB + corrupted <= threshold
  }

  function FailedCode(ret: int): (code: nat)
    ensures code in RESULT_CODES && code != ISOLATE_REPAIR_ONLINE_SUCCESS
  {
    if ret == -ENOSPC then REPAIR_FAILED_NO_RESOURCE
    else if ret == -EIO then REPAIR_FAILED_OTHER_REASON
    else if ret == -ENXIO || ret == -EINVAL then REPAIR_FAILED_INVALID_PARAM
    else REPAIR_FAILED_OTHER_REASON
  }

  /** A device is asked, and if it accepts it is told to repair; then every page is brought back or removed. */
  function RepairWrites(e: Section, dev: nat, q: int, r: int): seq<Write>
    requires FlatRequest(e)
  {
    [Write(Query(dev, IsAcls(e)), PageAddress(e, 0))] +
    if q < 0 then []
    else [Write(Repair(dev, IsAcls(e)), PageAddress(e, 0))] + Each(if r < 0 then RemovePage else OnlinePage, Pages(e))
  }

  function RepairNotices(e: Section, result: nat -> int, at: nat): seq<nat>
    requires FlatRequest(e)
  {
    var q, r := result(at), result(at + 1);
    if q == -ENXIO then []
    else if q < 0 then [FailedCode(q)]
    else [RepairCode(r, AllGood(result, at + 2, PageCount(e)))]
  }

  function RepairCode(r: int, allOnline: bool): nat {
    if r < 0 then FailedCode(r) else if allOnline then ISOLATE_REPAIR_ONLINE_SUCCESS else ONLINE_PAGE_FAILED
  }

  /** The address is not in this device: the next one is tried. */
  predicate NotInDevice(q: int, r: int) { q == -ENXIO || (q >= 0 && r == -ENXIO) }

  // ----- what was done -----

  datatype Log = Log(writes: seq<Write>, notices: seq<nat>, addrInDevice: bool)

  function AfterDevice(e: Section, result: nat -> int, dev: nat, o: Log): Log
    requires FlatRequest(e)
  {
    var at := |o.writes|;
    Log(o.writes + RepairWrites(e, dev, result(at), result(at + 1)), o.notices + RepairNotices(e, result, at),
        !NotInDevice(result(at), result(at + 1)))
  }

  /** The devices from number i on, until one has the address. */
  function AfterDevices(e: Section, result: nat -> int, devices: seq<Device>, i: nat, o: Log): Log
    requires FlatRequest(e) && i <= |devices|
    decreases |devices| - i
  {
    if i == |devices| || o.addrInDevice then o
    else if devices[i].matches && devices[i].hbm
    then AfterDevices(e, result, devices, i + 1, AfterDevice(e, result, i, o))
    else AfterDevices(e, result, devices, i + 1, o)
  }

  function LastNotice(devices: seq<Device>, addrInDevice: bool): seq<nat> {
    if addrInDevice then []
    else if exists d :: d in devices && d.matches && d.hbm then [REPAIR_FAILED_INVALID_PARAM]
    else [REPAIR_FAILED_OTHER_REASON]
  }

  /** The writes and notifications of one request, from what the environment answers; no directory is none. */
  function Handled(e: Section, result: nat -> int, corrupted: int, threshold: int,
                         directory: Option<seq<Device>>): Log
    requires FlatRequest(e)
  {
    var offline := Each(OfflinePage, Pages(e));
    if corrupted < 0 then Log([], [ISOLATE_FAILED_OTHER_REASON], false)
    else if !EnoughRoom(e, corrupted, threshold) then Log([], [ISOLATE_FAILED_OVER_THRESHOLD], false)
    else if !AllGood(result, 0, PageCount(e)) then Log(offline, [ISOLATE_FAILED_OTHER_REASON], false)
    else if directory == None then Log(offline, [REPAIR_FAILED_OTHER_REASON], false)
    else
      var o := AfterDevices(e, result, directory.value, 0, Log(offline, [], false));
      Log(o.writes, o.notices + LastNotice(directory.value, o.addrInDevice), o.addrInDevice)
  }

  // ----- the handler as written -----

  class Handler {
    const e: Section
    const result: nat -> int
    const corrupted: int
    const threshold: int
    var writes: seq<Write>
    var notices: seq<nat>

    constructor (e: Section, result: nat -> int, corrupted: int, threshold: int)
      ensures this.e == e && this.result == result && this.corrupted == corrupted && this.threshold == threshold
      ensures writes == [] && notices == []
    {
      this.e, this.result, this.corrupted, this.threshold := e, result, corrupted, threshold;
      writes, notices := [], [];
    }

    method WriteFile(entry: Entry, addr: nat) returns (ret: int)
      modifies this`writes
      ensures writes == old(writes) + [Write(entry, addr)] && ret == result(|old(writes)|)
    {
      ret := result(|writes|);
      writes := writes + [Write(entry, addr)];
    }

    method NoticeBmc(code: nat)
      modifies this`notices
      ensures notices == old(notices) + [code]
    {
      notices := notices + [code];
    }

    method PageIsolate() returns (ret: int)
      requires FlatRequest(e) && writes == []
      modifies this
      ensures ret >= 0 <==>
                corrupted >= 0 && EnoughRoom(e, corrupted, threshold) && AllGood(result, 0, PageCount(e))
      ensures writes == if corrupted >= 0 && EnoughRoom(e, corrupted, threshold) then Each(OfflinePage, Pages(e)) else []
      ensures notices == old(notices) +
                if ret >= 0 then []
                else if corrupted >= 0 && !EnoughRoom(e, corrupted, threshold) then [ISOLATE_FAILED_OVER_THRESHOLD]
                else [ISOLATE_FAILED_OTHER_REASON]
    {
      hide RepairValidate, Readable, IsAcls, IsSppr, IsCacheMode, PageAddress;
      if corrupted < 0 {
        NoticeBmc(ISOLATE_FAILED_OTHER_REASON);
        return -1;
      }
      if PageCount(e) * DEFAULT_PAGE_SIZE_KB + corrupted > threshold {
        NoticeBmc(ISOLATE_FAILED_OVER_THRESHOLD);
        return -1;
      }
      if IsAcls(e) {
        ret := WriteFile(OfflinePage, PageAddress(e, 0));
        assert writes == Each(OfflinePage, Pages(e));
        assert AllGood(result, 0, 1) <==> ret >= 0;
        if ret < 0 {
          NoticeBmc(ISOLATE_FAILED_OTHER_REASON);
          return ret;
        }
      } else {
        var allSuccess := OfflineAll();
        ret := 0;
        if !allSuccess {
          NoticeBmc(ISOLATE_FAILED_OTHER_REASON);
          ret := -1;
        }
      }
      return if ret < 0 then ret else 0;
    }

    method OfflineAll() returns (allSuccess: bool)
      requires FlatRequest(e) && writes == [] && !IsAcls(e)
      modifies this`writes
      ensures writes == Each(OfflinePage, Pages(e))
      ensures allSuccess <==> AllGood(result, 0, PageCount(e))
    {
      hide RepairValidate, Readable, IsAcls, IsSppr, IsCacheMode, PageAddress;
      allSuccess := true;
      for i := 0 to HBM_SPPR_ADDR_NUM
        invariant writes == Each(OfflinePage, Pages(e)[..i])
        invariant allSuccess <==> AllGood(result, 0, i)
      {
        var ret := WriteFile(OfflinePage, PageAddress(e, i));
        if ret < 0 {
          allSuccess := false;
        }
      }
      assert Pages(e)[..HBM_SPPR_ADDR_NUM] == Pages(e);
    }

    /** What becomes of one page, and the code for it. */
    method AfterRepair(repairRet: int, addr: nat) returns (code: nat)
      modifies this`writes
      ensures writes == old(writes) + [Write(if repairRet < 0 then RemovePage else OnlinePage, addr)]
      ensures code == if repairRet < 0 then FailedCode(repairRet)
                      else if result(|old(writes)|) < 0 then ONLINE_PAGE_FAILED else ISOLATE_REPAIR_ONLINE_SUCCESS
    {
      if repairRet < 0 {
        var _ := WriteFile(RemovePage, addr);
        return FailedCode(repairRet);
      }
      var ret := WriteFile(OnlinePage, addr);
      return if ret < 0 then ONLINE_PAGE_FAILED else ISOLATE_REPAIR_ONLINE_SUCCESS;
    }

    method HbmRepair(dev: nat) returns (ret: int)
      requires FlatRequest(e)
      modifies this
      ensures writes == old(writes) + RepairWrites(e, dev, result(|old(writes)|), result(|old(writes)| + 1))
      ensures notices == old(notices) + RepairNotices(e, result, |old(writes)|)
      ensures ret == -ENXIO <==> NotInDevice(result(|old(writes)|), result(|old(writes)| + 1))
    {
      hide RepairValidate, Readable, IsAcls, IsSppr, IsCacheMode, PageAddress;
      RegistersInBounds(e);
      ghost var at := |writes|;
      var query := WriteFile(Query(dev, IsAcls(e)), PageAddress(e, 0));
      if query < 0 {
        if query != -ENXIO {
          NoticeBmc(FailedCode(query));
        }
        return query;
      }
      ret := WriteFile(Repair(dev, IsAcls(e)), PageAddress(e, 0));
      hide Each, AllGood, Pages, RepairCode, FailedCode;
      if IsAcls(e) {
        FinishAcls(ret);
      } else {
        ret := FinishSppr(ret);
      }
    }

    method FinishAcls(repairRet: int)
      requires FlatRequest(e) && IsAcls(e)
      modifies this
      ensures writes == old(writes) + Each(if repairRet < 0 then RemovePage else OnlinePage, Pages(e))
      ensures notices == old(notices) + [RepairCode(repairRet, AllGood(result, |old(writes)|, PageCount(e)))]
    {
      RegistersInBounds(e);
      hide RepairValidate, Readable, IsAcls, IsSppr, IsCacheMode, PageAddress, FailedCode;
      ghost var at := |writes|;
      var code := AfterRepair(repairRet, PageAddress(e, 0));
      assert Each(if repairRet < 0 then RemovePage else OnlinePage, Pages(e)) ==
             [Write(if repairRet < 0 then RemovePage else OnlinePage, PageAddress(e, 0))];
      assert AllGood(result, at, 1) <==> result(at) >= 0;
      NoticeBmc(code);
    }

    method FinishSppr(repairRet: int) returns (ret: int)
      requires FlatRequest(e) && !IsAcls(e)
      modifies this
      ensures writes == old(writes) + Each(if repairRet < 0 then RemovePage else OnlinePage, Pages(e))
      ensures notices == old(notices) + [RepairCode(repairRet, AllGood(result, |old(writes)|, PageCount(e)))]
      ensures if repairRet < 0 then ret == repairRet else ret >= 0
    {
      hide FlatRequest, IsAcls, Each, AllGood, Pages, PageCount, FailedCode;
      var allOnline := AfterRepairAll(repairRet);
      ret := repairRet;
      if ret < 0 {
        NoticeBmc(FailedCode(ret));
      } else if allOnline {
        NoticeBmc(ISOLATE_REPAIR_ONLINE_SUCCESS);
        ret := 0;
      } else {
        NoticeBmc(ONLINE_PAGE_FAILED);
      }
    }

    method AfterRepairAll(repairRet: int) returns (allOnline: bool)
      requires FlatRequest(e) && !IsAcls(e)
      modifies this`writes
      ensures writes == old(writes) + Each(if repairRet < 0 then RemovePage else OnlinePage, Pages(e))
      ensures repairRet >= 0 ==> (allOnline <==> AllGood(result, |old(writes)|, PageCount(e)))
    {
      hide RepairValidate, Readable, IsAcls, IsSppr, IsCacheMode, PageAddress;
      ghost var was := writes;
      allOnline := true;
      for i := 0 to HBM_SPPR_ADDR_NUM
        invariant writes == was + Each(if repairRet < 0 then RemovePage else OnlinePage, Pages(e)[..i])
        invariant repairRet >= 0 ==> (allOnline <==> AllGood(result, |was|, i))
      {
        assert |writes| == |was| + i;
        var code := AfterRepair(repairRet, PageAddress(e, i));
        if code != ISOLATE_REPAIR_ONLINE_SUCCESS {
          allOnline := false;
        }
      }
      assert Pages(e)[..HBM_SPPR_ADDR_NUM] == Pages(e);
    }

    method TryDevices(devices: seq<Device>) returns (findDevice: bool, findHbmMem: bool, addrInDevice: bool)
      requires FlatRequest(e)
      modifies this
      ensures AfterDevices(e, result, devices, 0, Log(old(writes), old(notices), false)) ==
              Log(writes, notices, addrInDevice)
      ensures !addrInDevice ==> (findDevice <==> exists d :: d in devices && d.matches)
      ensures !addrInDevice ==> (findHbmMem <==> exists d :: d in devices && d.matches && d.hbm)
    {
      hide FlatRequest, RepairWrites, RepairNotices, NotInDevice;
      findDevice, findHbmMem, addrInDevice := false, false, false;
      var i := 0;
      while i < |devices|
        invariant 0 <= i <= |devices| && !addrInDevice
        invariant AfterDevices(e, result, devices, 0, Log(old(writes), old(notices), false)) ==
                  AfterDevices(e, result, devices, i, Log(writes, notices, false))
        invariant findDevice <==> exists d :: d in devices[..i] && d.matches
        invariant findHbmMem <==> exists d :: d in devices[..i] && d.matches && d.hbm
      {
        var d := devices[i];
        assert devices[..i + 1] == devices[..i] + [d];
        if d.matches {
          findDevice := true;
          if d.hbm {
            findHbmMem := true;
            var ret := HbmRepair(i);
            if ret != -ENXIO {
              addrInDevice := true;
              return;
            }
          }
        }
        i := i + 1;
      }
      assert devices[..i] == devices;
    }

    /** The handler does exactly what Handled says. */
    method RepairHandler(directory: Option<seq<Device>>)
      requires FlatRequest(e) && writes == [] && notices == []
      modifies this
      ensures writes == Handled(e, result, corrupted, threshold, directory).writes
      ensures notices == Handled(e, result, corrupted, threshold, directory).notices
    {
      hide Each, AllGood, AfterDevices, FlatRequest;
      var ret := PageIsolate();
      if ret < 0 {
        return;
      }
      if directory == None {
        NoticeBmc(REPAIR_FAILED_OTHER_REASON);
        return;
      }
      var findDevice, findHbmMem, addrInDevice := TryDevices(directory.value);
      if !addrInDevice {
        if !findDevice {
          NoticeBmc(REPAIR_FAILED_OTHER_REASON);
        } else if !findHbmMem {
          NoticeBmc(REPAIR_FAILED_OTHER_REASON);
        } else {
          NoticeBmc(REPAIR_FAILED_INVALID_PARAM);
        }
      }
    }
  }

  // ----- what follows for every environment -----

  /** From device i on, with write number `at` next and n pages: the devices that accept the query and then answer
      the repair with -ENXIO, up to the one that has the address. */
  function LostRepairs(result: nat -> int, devices: seq<Device>, n: nat, i: nat, at: nat): nat
    requires i <= |devices|
    decreases |devices| - i
  {
    if i == |devices| then 0
    else if !(devices[i].matches && devices[i].hbm) then LostRepairs(result, devices, n, i + 1, at)
    else if result(at) == -ENXIO then LostRepairs(result, devices, n, i + 1, at + 1)
    else if result(at) >= 0 && result(at + 1) == -ENXIO then 1 + LostRepairs(result, devices, n, i + 1, at + 2 + n)
    else 0
  }

  lemma DeviceWrites(e: Section, result: nat -> int, dev: nat, o: Log)
    requires FlatRequest(e)
    ensures var q, r, o1 := result(|o.writes|), result(|o.writes| + 1), AfterDevice(e, result, dev, o);
            && |o1.writes| == |o.writes| + (if q < 0 then 1 else 2 + PageCount(e))
            && |o1.notices| == |o.notices| + (if q == -ENXIO then 0 else 1)
            && (o1.addrInDevice <==> !NotInDevice(q, r))
  {
    hide FlatRequest, PageCount, PageAddress, AllGood;
  }

  /** A device adds a notification when it loses the repair and when it is the last one tried. */
  lemma {:induction false} DeviceNotices(e: Section, result: nat -> int, devices: seq<Device>, i: nat, o: Log)
    requires FlatRequest(e) && i <= |devices| && !o.addrInDevice
    ensures var o1 := AfterDevices(e, result, devices, i, o);
            |o1.notices| == |o.notices| + LostRepairs(result, devices, PageCount(e), i, |o.writes|) +
                            if o1.addrInDevice then 1 else 0
    decreases |devices| - i
  {
    hide FlatRequest, AfterDevice, PageCount;
    if i == |devices| {
    } else if devices[i].matches && devices[i].hbm {
      DeviceWrites(e, result, i, o);
      var o1 := AfterDevice(e, result, i, o);
      if !o1.addrInDevice {
        DeviceNotices(e, result, devices, i + 1, o1);
      }
    } else {
      DeviceNotices(e, result, devices, i + 1, o);
    }
  }

  /** Isolation goes through, and there is a device directory. */
  predicate ReachesDevices(e: Section, result: nat -> int, corrupted: int, threshold: int,
                           directory: Option<seq<Device>>)
    requires FlatRequest(e)
  {
    corrupted >= 0 && EnoughRoom(e, corrupted, threshold) && AllGood(result, 0, PageCount(e)) && directory.Some?
  }

  /** One notification, and one more for every repair that a device lost after it had accepted the query: never none,
      and exactly one if and only if no repair was lost. */
  lemma NotificationCount(e: Section, result: nat -> int, corrupted: int, threshold: int,
                          directory: Option<seq<Device>>)
    requires FlatRequest(e)
    ensures |Handled(e, result, corrupted, threshold, directory).notices| ==
            1 + if ReachesDevices(e, result, corrupted, threshold, directory)
                then LostRepairs(result, directory.value, PageCount(e), 0, PageCount(e)) else 0
  {
    hide FlatRequest, AfterDevices, LostRepairs, EnoughRoom, AllGood, PageCount;
    if directory.Some? {
      DeviceNotices(e, result, directory.value, 0, Log(Each(OfflinePage, Pages(e)), [], false));
    }
  }

  /** For every request there are two devices and answers for which two notifications are sent: the first device
      accepts the query and loses the repair. */
  lemma TwoNotifications(e: Section)
    requires FlatRequest(e)
    ensures var result: nat -> int := k => if k == PageCount(e) + 1 then -ENXIO else 0;
            |Handled(e, result, 0, 64, Some([Device(true, true), Device(true, true)])).notices| == 2
  {
    var n := PageCount(e);
    var result: nat -> int := k => if k == PageCount(e) + 1 then -ENXIO else 0;
    var devices := [Device(true, true), Device(true, true)];
    hide FlatRequest, PageCount, Handled;
    NotificationCount(e, result, 0, 64, Some(devices));
    AllZero(result, n);
    assert LostRepairs(result, devices, n, 1, n + 2 + n) == 0;
    assert LostRepairs(result, devices, n, 0, n) == 1;
  }

  lemma {:induction false} AllZero(result: nat -> int, n: nat)
    requires forall k: nat :: k < n ==> result(k) == 0
    ensures AllGood(result, 0, n)
  {
    if n == 0 {
    } else {
      AllZero(result, n - 1);
    }
  }

  ghost predicate KnownCodes(codes: seq<nat>) { forall i :: 0 <= i < |codes| ==> codes[i] in RESULT_CODES }

  lemma {:induction false} DeviceCodesKnown(e: Section, result: nat -> int, devices: seq<Device>, i: nat, o: Log)
    requires FlatRequest(e) && i <= |devices| && KnownCodes(o.notices)
    ensures KnownCodes(AfterDevices(e, result, devices, i, o).notices)
    decreases |devices| - i
  {
    hide FlatRequest, RepairWrites, AllGood;
    if i == |devices| || o.addrInDevice {
    } else {
      if devices[i].matches && devices[i].hbm {
        DeviceCodesKnown(e, result, devices, i + 1, AfterDevice(e, result, i, o));
      } else {
        DeviceCodesKnown(e, result, devices, i + 1, o);
      }
    }
  }

  /** Every message the handler sends is one the BMC service accepts. */
  lemma EveryNotificationAccepted(e: Section, result: nat -> int, corrupted: int, threshold: int,
                                  directory: Option<seq<Device>>, i: nat)
    requires FlatRequest(e)
    requires i < |Handled(e, result, corrupted, threshold, directory).notices|
    ensures Receive(NoticeText(e, Handled(e, result, corrupted, threshold, directory).notices[i])).Some?
  {
    CodesKnown(e, result, corrupted, threshold, directory);
    hide Receive, NoticeText, SentBytes, Handled;
    NoticeAccepted(e, Handled(e, result, corrupted, threshold, directory).notices[i]);
  }

  lemma CodesKnown(e: Section, result: nat -> int, corrupted: int, threshold: int,
                   directory: Option<seq<Device>>)
    requires FlatRequest(e)
    ensures KnownCodes(Handled(e, result, corrupted, threshold, directory).notices)
  {
    hide FlatRequest, AfterDevices, EnoughRoom, AllGood;
    if directory.Some? {
      DeviceCodesKnown(e, result, directory.value, 0, Log(Each(OfflinePage, Pages(e)), [], false));
    }
  }

  // ----- pages -----

  predicate OfflinedBefore(ws: seq<Write>, result: nat -> int, i: nat, addr: nat)
    requires i <= |ws|
  {
    exists j :: 0 <= j < i && ws[j] == Write(OfflinePage, addr) && result(j) >= 0
  }

  predicate RepairedBefore(ws: seq<Write>, result: nat -> int, i: nat)
    requires i <= |ws|
  {
    exists j :: 0 <= j < i && ws[j].entry.Repair? && result(j) >= 0
  }

  /** A page is given back only after it was taken offline, and only once a repair has succeeded. */
  ghost predicate OnlineJustified(ws: seq<Write>, result: nat -> int) {
    forall i {:trigger ws[i]} :: 0 <= i < |ws| && ws[i].entry == OnlinePage ==>
      OfflinedBefore(ws, result, i, ws[i].addr) && RepairedBefore(ws, result, i)
  }

  /** Write k took page k offline. */
  ghost predicate AllOffline(e: Section, ws: seq<Write>, result: nat -> int)
    requires FlatRequest(e)
  {
    && PageCount(e) <= |ws|
    && forall k :: 0 <= k < PageCount(e) ==> ws[k] == Write(OfflinePage, Pages(e)[k]) && result(k) >= 0
  }

  lemma DeviceKeepsJustified(e: Section, result: nat -> int, dev: nat, ws: seq<Write>)
    requires FlatRequest(e) && AllOffline(e, ws, result) && OnlineJustified(ws, result)
    ensures var ws1 := ws + RepairWrites(e, dev, result(|ws|), result(|ws| + 1));
            AllOffline(e, ws1, result) && OnlineJustified(ws1, result)
  {
    hide FlatRequest, PageCount, PageAddress;
    var q, r := result(|ws|), result(|ws| + 1);
    var more := RepairWrites(e, dev, q, r);
    var ws1 := ws + more;
    forall i | 0 <= i < |ws1| && ws1[i].entry == OnlinePage
      ensures OfflinedBefore(ws1, result, i, ws1[i].addr) && RepairedBefore(ws1, result, i)
    {
      if i < |ws| {
        assert ws1[i] == ws[i];
        var j :| 0 <= j < i && ws[j] == Write(OfflinePage, ws[i].addr) && result(j) >= 0;
        assert ws1[j] == ws[j];
        var m :| 0 <= m < i && ws[m].entry.Repair? && result(m) >= 0;
        assert ws1[m] == ws[m];
      } else {
        var k := i - |ws| - 2;
        assert ws1[i] == more[k + 2];
        assert ws1[|ws| + 1] == more[1];
        assert ws1[k] == ws[k];
      }
    }
  }

  lemma {:induction false} DevicesKeepJustified(e: Section, result: nat -> int, devices: seq<Device>, i: nat, o: Log)
    requires FlatRequest(e) && i <= |devices| && AllOffline(e, o.writes, result) && OnlineJustified(o.writes, result)
    ensures OnlineJustified(AfterDevices(e, result, devices, i, o).writes, result)
    decreases |devices| - i
  {
    hide FlatRequest, RepairWrites, RepairNotices, OnlineJustified, AllOffline;
    if i == |devices| || o.addrInDevice {
    } else {
      if devices[i].matches && devices[i].hbm {
        DeviceKeepsJustified(e, result, i, o.writes);
        DevicesKeepJustified(e, result, devices, i + 1, AfterDevice(e, result, i, o));
      } else {
        DevicesKeepJustified(e, result, devices, i + 1, o);
      }
    }
  }

  lemma {:induction false} GoodEach(result: nat -> int, at: nat, n: nat, k: nat)
    requires AllGood(result, at, n) && k < n
    ensures result(at + k) >= 0
  {
    if k + 1 == n {
    } else {
      GoodEach(result, at, n - 1, k);
    }
  }

  /** In every run of the handler a page is given back only when it was taken offline and repaired. */
  lemma OnlineOnlyAfterRepair(e: Section, result: nat -> int, corrupted: int, threshold: int,
                              directory: Option<seq<Device>>)
    requires FlatRequest(e)
    ensures OnlineJustified(Handled(e, result, corrupted, threshold, directory).writes, result)
  {
    hide FlatRequest, AfterDevices, AllGood;
    var offline := Each(OfflinePage, Pages(e));
    if directory.Some? && AllGood(result, 0, PageCount(e)) {
      forall k | 0 <= k < PageCount(e) ensures result(k) >= 0 {
        GoodEach(result, 0, PageCount(e), k);
      }
      DevicesKeepJustified(e, result, directory.value, 0, Log(offline, [], false));
    }
  }

  /** The last writes are a repair and the return of every page, and all of them succeeded. */
  ghost predicate EndsRepaired(e: Section, ws: seq<Write>, result: nat -> int)
    requires FlatRequest(e)
  {
    var n := PageCount(e);
    && |ws| > n && ws[|ws| - n - 1].entry.Repair? && result(|ws| - n - 1) >= 0
    && ws[|ws| - n..] == Each(OnlinePage, Pages(e)) && AllGood(result, |ws| - n, n)
  }

  lemma DeviceSucceeds(e: Section, result: nat -> int, dev: nat, o: Log)
    requires FlatRequest(e) && ISOLATE_REPAIR_ONLINE_SUCCESS !in o.notices
    ensures var o1 := AfterDevice(e, result, dev, o);
            (ISOLATE_REPAIR_ONLINE_SUCCESS in o1.notices <==> EndsRepaired(e, o1.writes, result)) &&
            (ISOLATE_REPAIR_ONLINE_SUCCESS in o1.notices ==> o1.addrInDevice)
  {
    hide FlatRequest, PageCount, PageAddress, AllGood;
    var q, r := result(|o.writes|), result(|o.writes| + 1);
    var n, ws, more := PageCount(e), o.writes, RepairWrites(e, dev, q, r);
    var ws1 := ws + more;
    if q >= 0 {
      assert more[1] == ws1[|ws| + 1] && more[2..] == ws1[|ws| + 2..] && |ws1| - n == |ws| + 2;
      if r < 0 {
        assert ws1[|ws| + 2] == more[2] && more[2].entry == RemovePage;
        assert !EndsRepaired(e, ws1, result);
      }
    } else {
      assert ws1[|ws1| - 1].entry.Query?;
      assert |ws1| > n ==> ws1[|ws1| - n..][n - 1] == ws1[|ws1| - 1];
    }
  }

  lemma {:induction false} DevicesSucceed(e: Section, result: nat -> int, devices: seq<Device>, i: nat, o: Log)
    requires FlatRequest(e) && i <= |devices| && !o.addrInDevice
    requires ISOLATE_REPAIR_ONLINE_SUCCESS !in o.notices && !EndsRepaired(e, o.writes, result)
    ensures var o1 := AfterDevices(e, result, devices, i, o);
            ISOLATE_REPAIR_ONLINE_SUCCESS in o1.notices <==> EndsRepaired(e, o1.writes, result)
    decreases |devices| - i
  {
    hide FlatRequest, EndsRepaired, RepairWrites, RepairNotices;
    if i == |devices| {
    } else {
      if devices[i].matches && devices[i].hbm {
        DeviceSucceeds(e, result, i, o);
        var o1 := AfterDevice(e, result, i, o);
        if !o1.addrInDevice {
          DevicesSucceed(e, result, devices, i + 1, o1);
        }
      } else {
        DevicesSucceed(e, result, devices, i + 1, o);
      }
    }
  }

  /** Success is reported if and only if a device repaired the address and every page came back. */
  lemma SuccessExactlyWhenRepaired(e: Section, result: nat -> int, corrupted: int, threshold: int,
                                   directory: Option<seq<Device>>)
    requires FlatRequest(e)
    ensures var o := Handled(e, result, corrupted, threshold, directory);
            ISOLATE_REPAIR_ONLINE_SUCCESS in o.notices <==> EndsRepaired(e, o.writes, result)
  {
    hide FlatRequest, AfterDevices, AllGood, EndsRepaired, EnoughRoom;
    var offline := Each(OfflinePage, Pages(e));
    NotYetRepaired(e, offline, result);
    NotYetRepaired(e, [], result);
    if directory.Some? {
      DevicesSucceed(e, result, directory.value, 0, Log(offline, [], false));
    }
  }

  lemma NotYetRepaired(e: Section, ws: seq<Write>, result: nat -> int)
    requires FlatRequest(e) && forall i :: 0 <= i < |ws| ==> ws[i].entry == OfflinePage
    ensures !EndsRepaired(e, ws, result)
  {
    hide FlatRequest, PageCount;
  }
}
