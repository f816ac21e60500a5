/** Paging through the BMC's event list with a 16-bit index, and decoding the little-endian events. */
module QueryEvents {
  import opened Numerals

  const RESP_HEADER_SIZE := 7
  const EVENT_SIZE := 15
  const EVENT_FIELDS := 11          // bytes of an event that are read
  const UINT16_MAX: nat := 65535
  const ULONG_MAX: nat := 0xFFFF_FFFF_FFFF_FFFF

  datatype Event = Event(alarmTypeCode: nat, timestamp: nat, severity: nat, subjectType: nat, deviceId: nat)

  // ----- bytes -----

  /** strtoul(s, &end, 16), if it reads something and all of it. */
  function Strtoul16(s: string): Option<nat> {
    var t := SkipSpace(s);
    var signed := t != [] && (t[0] == '-' || t[0] == '+');
    var u := if signed then t[1..] else t;
    var d := if |u| > 2 && u[0] == '0' && (u[1] == 'x' || u[1] == 'X') then u[2..] else u;
    match HexValue(d)
    case None => None
    case Some(v) => Some(if v > ULONG_MAX then ULONG_MAX
                         else if signed && t[0] == '-' && v > 0 then ULONG_MAX + 1 - v else v)
  }

  function ByteOf(token: string): (b: Option<nat>)
    ensures b.Some? ==> b.value <= 0xff
  {
    match Strtoul16(token)
    case None => None
    case Some(v) => if v > 0xff then None else Some(v)
  }

  function BytesOf(tokens: seq<string>): (bs: Option<seq<nat>>)
    ensures bs.Some? ==> |bs.value| == |tokens|
  {
    if tokens == [] then Some([])
    else
      match (BytesOf(tokens[..|tokens| - 1]), ByteOf(tokens[|tokens| - 1]))
      case (Some(bs), Some(b)) => Some(bs + [b])
      case _ => None
  }

  // ----- a response -----

  datatype Header = Header(totalEvents: nat, eventCount: nat)

  /** The header of a response, if it is valid. */
  function ParseResponseHeader(hexBytes: seq<string>): (h: Option<Header>)
    ensures h.Some? ==> |hexBytes| >= RESP_HEADER_SIZE && h.value.totalEvents <= UINT16_MAX && h.value.eventCount <= 0xff
  {
    if |hexBytes| < RESP_HEADER_SIZE then None
    else if hexBytes[0] != "db" || hexBytes[1] != "07" || hexBytes[2] != "00" then None
    else
      match (ByteOf(hexBytes[3]), ByteOf(hexBytes[4]), ByteOf(hexBytes[5]))
      case (Some(low), Some(high), Some(count)) => Some(Header(low + 256 * high, count))
      case _ => None
  }

  function EventOfBytes(b: seq<nat>): Event
    requires |b| == EVENT_FIELDS
  {
    Event(LittleEndianValue(b[..4]), LittleEndianValue(b[4..8]), b[8], b[9], b[10])
  }

  /** The event in some tokens, if the bytes it is made of are all bytes. */
  function EventOf(tokens: seq<string>): Option<Event>
    requires |tokens| >= EVENT_FIELDS
  {
    match BytesOf(tokens[..EVENT_FIELDS])
    case None => None
    case Some(bs) => Some(EventOfBytes(bs))
  }

  /** The valid ones of the first n events of a response. */
  function PageEvents(hexBytes: seq<string>, n: nat): seq<Event>
    requires |hexBytes| >= RESP_HEADER_SIZE + n * EVENT_SIZE
  {
    if n == 0 then []
    else
      var at := RESP_HEADER_SIZE + (n - 1) * EVENT_SIZE;
      PageEvents(hexBytes, n - 1) +
      match EventOf(hexBytes[at..at + EVENT_SIZE])
      case None => []
      case Some(e) => [e]
  }

  // ----- paging -----

  /** The tokens of the answer to request number n, given the low and the high index byte of the request. */
  type Responder = (nat, nat, nat) -> seq<string>

  /** What was reported, and the pages processed, each with its first index and its number of events. */
  datatype Outcome = Outcome(success: bool, events: seq<Event>, pages: seq<(nat, nat)>)

  function Query(responder: Responder, call: nat, index: nat): (o: Outcome)
    requires index <= UINT16_MAX
    decreases UINT16_MAX - index
  {
    var hexBytes := responder(call, index % 256, index / 256);
    match ParseResponseHeader(hexBytes)
    case None => Outcome(false, [], [])
    case Some(Header(total, count)) =>
      if count == 0 then Outcome(true, [], [])
      else if |hexBytes| != RESP_HEADER_SIZE + count * EVENT_SIZE then Outcome(false, [], [])
      else
        var page := PageEvents(hexBytes, count);
        if count > UINT16_MAX - index || index + count > total then Outcome(false, page, [(index, count)])
        else if index + count == total then Outcome(true, page, [(index, count)])
        else
          var rest := Query(responder, call + 1, index + count);
          Outcome(rest.success, page + rest.events, [(index, count)] + rest.pages)
  }

  // ----- the code as written -----

  /** Four bytes ORed into place; the shifted bytes do not overlap. */
  method ParseWord(hexBytes: seq<string>, start: nat) returns (word: nat, valid: bool)
    requires start + 4 <= |hexBytes|
    ensures valid <==> BytesOf(hexBytes[start..start + 4]).Some?
    ensures valid ==> word == LittleEndianValue(BytesOf(hexBytes[start..start + 4]).value)
  {
    hide ByteOf, LittleEndianValue;
    word := 0;
    NoBytes();
    ghost var all := hexBytes[start..start + 4];
    for i := 0 to 4
      invariant BytesOf(all[..i]).Some? && word == LittleEndianValue(BytesOf(all[..i]).value)
    {
      var byte := ByteOf(hexBytes[start + i]);
      NextByte(all, i);
      if byte == None {
        BadByte(all, i);
        return word, false;
      }
      LittleEndianAppend(BytesOf(all[..i]).value, byte.value);
      word := word + byte.value * Pow2(8 * i);
    }
    assert all[..4] == all;
    valid := true;
  }

  lemma NoBytes()
    ensures BytesOf([]) == Some([]) && LittleEndianValue([]) == 0
  {
  }

  lemma NextByte(tokens: seq<string>, i: nat)
    requires i < |tokens|
    ensures BytesOf(tokens[..i + 1]) ==
            if BytesOf(tokens[..i]).Some? && ByteOf(tokens[i]).Some?
            then Some(BytesOf(tokens[..i]).value + [ByteOf(tokens[i]).value]) else None
  {
    hide ByteOf;
    assert tokens[..i + 1][..i] == tokens[..i];
  }

  lemma {:induction false} BadByte(tokens: seq<string>, i: nat)
    requires i < |tokens| && ByteOf(tokens[i]) == None
    ensures BytesOf(tokens) == None
  {
    hide ByteOf;
    if i + 1 == |tokens| {
    } else {
      BadByte(tokens[..|tokens| - 1], i);
    }
  }

  lemma {:induction false} BytesConcat(a: seq<string>, b: seq<string>)
    ensures BytesOf(a + b) ==
            if BytesOf(a).Some? && BytesOf(b).Some? then Some(BytesOf(a).value + BytesOf(b).value) else None
  {
    hide ByteOf;
    if b == [] {
      assert a + b == a;
      NoBytes();
      assert BytesOf(a).Some? ==> BytesOf(a).value + BytesOf(b).value == BytesOf(a).value;
    } else {
      var init := b[..|b| - 1];
      assert (a + b)[..|a + b| - 1] == a + init;
      BytesConcat(a, init);
      if BytesOf(a).Some? && BytesOf(b).Some? {
        var last := BytesOf(b).value[|init|];
        assert BytesOf(a).value + (BytesOf(init).value + [last]) == BytesOf(a).value + BytesOf(init).value + [last];
      }
    }
  }

  method ParseSingleEvent(hexBytes: seq<string>, startPos: nat) returns (event: Option<Event>)
    requires startPos + EVENT_SIZE <= |hexBytes|
    ensures event == EventOf(hexBytes[startPos..startPos + EVENT_SIZE])
  {
    hide ByteOf, BytesOf, LittleEndianValue;
    ghost var all := hexBytes[startPos..startPos + EVENT_SIZE][..EVENT_FIELDS];
    EventPieces(hexBytes, startPos);
    var code, codeValid := ParseWord(hexBytes, startPos);
    if !codeValid { return None; }
    var time, timeValid := ParseWord(hexBytes, startPos + 4);
    if !timeValid { return None; }
    var severity := ByteOf(hexBytes[startPos + 8]);
    if severity == None { return None; }
    var subjectType := ByteOf(hexBytes[startPos + 9]);
    if subjectType == None { return None; }
    var deviceId := ByteOf(hexBytes[startPos + 10]);
    if deviceId == None { return None; }
    event := Some(Event(code, time, severity.value, subjectType.value, deviceId.value));
  }

  /** The eleven bytes are two words and three single bytes. */
  lemma EventPieces(hexBytes: seq<string>, at: nat)
    requires at + EVENT_SIZE <= |hexBytes|
    ensures var code, time := BytesOf(hexBytes[at..at + 4]), BytesOf(hexBytes[at + 4..at + 8]);
            var s, t, d := ByteOf(hexBytes[at + 8]), ByteOf(hexBytes[at + 9]), ByteOf(hexBytes[at + 10]);
            EventOf(hexBytes[at..at + EVENT_SIZE]) ==
            if code.Some? && time.Some? && s.Some? && t.Some? && d.Some?
            then Some(Event(LittleEndianValue(code.value), LittleEndianValue(time.value), s.value, t.value, d.value))
            else None
  {
    hide ByteOf, BytesOf, LittleEndianValue;
    var all := hexBytes[at..at + EVENT_SIZE][..EVENT_FIELDS];
    assert all == hexBytes[at..at + EVENT_FIELDS];
    assert all[..4] == hexBytes[at..at + 4] && all[..8] == all[..4] + hexBytes[at + 4..at + 8];
    assert all[..11] == all;
    BytesConcat(all[..4], hexBytes[at + 4..at + 8]);
    NextByte(all, 8);
    NextByte(all, 9);
    NextByte(all, 10);
    if BytesOf(all).Some? {
      var b := BytesOf(all).value;
      assert b[..4] == BytesOf(all[..4]).value && b[4..8] == BytesOf(hexBytes[at + 4..at + 8]).value;
    }
  }

  method ProcessEvents(hexBytes: seq<string>, eventCount: nat) returns (reported: seq<Event>)
    requires |hexBytes| == RESP_HEADER_SIZE + eventCount * EVENT_SIZE
    ensures reported == PageEvents(hexBytes, eventCount)
  {
    hide EventOf;
    reported := [];
    for i := 0 to eventCount
      invariant reported == PageEvents(hexBytes, i)
    {
      var startPos := RESP_HEADER_SIZE + i * EVENT_SIZE;
      var event := ParseSingleEvent(hexBytes, startPos);
      if event == None {
        continue;
      }
      reported := reported + [event.value];
    }
  }

  /** One round of the loop. */
  lemma QueryNext(responder: Responder, call: nat, index: nat)
    requires index <= UINT16_MAX
    ensures var hexBytes := responder(call, index % 256, index / 256);
            var h := ParseResponseHeader(hexBytes);
            Query(responder, call, index) ==
            if h == None then Outcome(false, [], [])
            else if h.value.eventCount == 0 then Outcome(true, [], [])
            else if |hexBytes| != RESP_HEADER_SIZE + h.value.eventCount * EVENT_SIZE then Outcome(false, [], [])
            else
              var next := index + h.value.eventCount;
              var page, pages := PageEvents(hexBytes, h.value.eventCount), [(index, h.value.eventCount)];
              if next > UINT16_MAX || next > h.value.totalEvents then Outcome(false, page, pages)
              else if next == h.value.totalEvents then Outcome(true, page, pages)
              else
                var rest := Query(responder, call + 1, next);
                Outcome(rest.success, page + rest.events, pages + rest.pages)
  {
    hide ParseResponseHeader, PageEvents;
  }

  /** The loop ends against every responder, and its 16-bit index never wraps. */
  method QueryEvents(responder: Responder) returns (success: bool, reported: seq<Event>)
    ensures success == Query(responder, 0, 0).success && reported == Query(responder, 0, 0).events
  {
    hide ParseResponseHeader, PageEvents, Query;
    var currentIndex: uint16 := 0;
    var call := 0;
    reported := [];
    while true
      invariant Query(responder, 0, 0).success == Query(responder, call, currentIndex as nat).success
      invariant Query(responder, 0, 0).events == reported + Query(responder, call, currentIndex as nat).events
      decreases UINT16_MAX - currentIndex as nat
    {
      QueryNext(responder, call, currentIndex as nat);
      var hexBytes := responder(call, currentIndex as nat % 256, currentIndex as nat / 256);
      var header := ParseResponseHeader(hexBytes);
      if header == None {
        return false, reported;
      }
      var count := header.value.eventCount;
      if count == 0 {
        return true, reported;
      }
      if |hexBytes| != RESP_HEADER_SIZE + count * EVENT_SIZE {
        return false, reported;
      }
      var page := ProcessEvents(hexBytes, count);
      reported := reported + page;
      if count > UINT16_MAX - currentIndex as nat {
        return false, reported;
      }
      currentIndex := currentIndex + count as uint16;
      call := call + 1;
      if currentIndex as nat == header.value.totalEvents {
        return true, reported;
      } else if currentIndex as nat > header.value.totalEvents {
        return false, reported;
      }
    }
  }

  // ----- any responder -----

  /** Each page begins where the one before it ended, none is empty, and every index fits sixteen bits. */
  ghost predicate PagesFrom(pages: seq<(nat, nat)>, index: nat) {
    pages != [] ==>
      pages[0].0 == index <= UINT16_MAX && 1 <= pages[0].1 <= 0xff && PagesFrom(pages[1..], index + pages[0].1)
  }

  /** Against any responder the pages processed are contiguous and start where the query started. */
  lemma {:induction false} PagesContiguous(responder: Responder, call: nat, index: nat)
    requires index <= UINT16_MAX
    ensures PagesFrom(Query(responder, call, index).pages, index)
    ensures |Query(responder, call, index).pages| <= UINT16_MAX - index + 1
    decreases UINT16_MAX - index
  {
    hide PageEvents, Query, ParseResponseHeader;
    QueryNext(responder, call, index);
    var pages := Query(responder, call, index).pages;
    if pages == [] {
    } else {
      var next := index + pages[0].1;
      if |pages| > 1 {
        PagesContiguous(responder, call + 1, next);
        assert pages[1..] == Query(responder, call + 1, next).pages;
      }
    }
  }

  /** So no event is fetched twice. */
  lemma {:induction false} PagesDisjoint(pages: seq<(nat, nat)>, index: nat, i: nat, j: nat)
    requires PagesFrom(pages, index) && i < j < |pages|
    ensures index <= pages[i].0 && pages[i].0 + pages[i].1 <= pages[j].0
  {
    if i > 0 {
      PagesDisjoint(pages[1..], index + pages[0].1, i - 1, j - 1);
    } else if j > 1 {
      PagesDisjoint(pages[1..], index + pages[0].1, 0, j - 1);
    }
  }

  // ----- a responder that serves a list -----

  predicate EventFits(e: Event) {
    e.alarmTypeCode < 0x1_0000_0000 && e.timestamp < 0x1_0000_0000 &&
    e.severity < 256 && e.subjectType < 256 && e.deviceId < 256
  }

  function HexTokens(bs: seq<nat>): (ts: seq<string>)
    requires AllBytes(bs)
    ensures |ts| == |bs|
  {
    seq(|bs|, i requires 0 <= i < |bs| => HexPair(bs[i]))
  }

  function EventBytes(e: Event): (bs: seq<nat>)
    requires EventFits(e)
    ensures |bs| == EVENT_SIZE && AllBytes(bs)
  {
    LittleEndian4(e.alarmTypeCode) + LittleEndian4(e.timestamp) + [e.severity, e.subjectType, e.deviceId] + [0, 0, 0, 0]
  }

  ghost predicate AllFit(events: seq<Event>) { forall i :: 0 <= i < |events| ==> EventFits(events[i]) }

  function EncodeEvents(events: seq<Event>): (ts: seq<string>)
    requires AllFit(events)
    ensures |ts| == |events| * EVENT_SIZE
  {
    if events == [] then []
    else EncodeEvents(events[..|events| - 1]) + HexTokens(EventBytes(events[|events| - 1]))
  }

  /** The answer with the n events from number index on, in the two-digit form ipmitool prints. */
  function Serve(events: seq<Event>, index: nat, n: nat): seq<string>
    requires AllFit(events) && |events| <= UINT16_MAX && index + n <= |events| && n < 256
  {
    ["db", "07", "00", HexPair(|events| % 256), HexPair(|events| / 256), HexPair(n), "00"] +
    EncodeEvents(events[index..index + n])
  }

  /** The responder serves this list, size(call, index) events at a time. */
  ghost predicate Serves(responder: Responder, events: seq<Event>, size: (nat, nat) -> nat) {
    && AllFit(events) && |events| <= UINT16_MAX
    && (forall call: nat, index: nat :: index <= |events| ==>
          size(call, index) < 256 && index + size(call, index) <= |events|)
    && (forall call: nat, index: nat :: index <= |events| ==>
          responder(call, index % 256, index / 256) == Serve(events, index, size(call, index)))
  }

  lemma PairIsByte(b: nat)
    requires b < 256
    ensures ByteOf(HexPair(b)) == Some(b)
  {
    hide HexValue;
    HexPairValue(b);
    var s := HexPair(b);
    assert !IsCSpace(s[0]) && s[0] != '-' && s[0] != '+';
  }

  lemma {:induction false} TokensAreBytes(bs: seq<nat>)
    requires AllBytes(bs)
    ensures BytesOf(HexTokens(bs)) == Some(bs)
  {
    hide ByteOf, HexPair;
    if bs == [] {
    } else {
      var n := |bs| - 1;
      TokensAreBytes(bs[..n]);
      PairIsByte(bs[n]);
      assert HexTokens(bs)[..n] == HexTokens(bs[..n]);
      assert bs == bs[..n] + [bs[n]];
    }
  }

  /** Decoding gives every encoded event back. */
  lemma EventRoundTrip(e: Event)
    requires EventFits(e)
    ensures EventOf(HexTokens(EventBytes(e))) == Some(e)
  {
    hide ByteOf, BytesOf, HexPair, LittleEndianValue, LittleEndian4;
    var bs := EventBytes(e);
    var b := bs[..EVENT_FIELDS];
    assert HexTokens(bs)[..EVENT_FIELDS] == HexTokens(b);
    TokensAreBytes(b);
    assert b[..4] == LittleEndian4(e.alarmTypeCode) && b[4..8] == LittleEndian4(e.timestamp);
    LittleEndian4Value(e.alarmTypeCode);
    LittleEndian4Value(e.timestamp);
  }

  lemma {:induction false} EncodedAt(events: seq<Event>, i: nat)
    requires AllFit(events) && i < |events|
    ensures EncodeEvents(events)[i * EVENT_SIZE..i * EVENT_SIZE + EVENT_SIZE] == HexTokens(EventBytes(events[i]))
  {
    hide HexTokens, EventBytes, EventFits;
    var n := |events| - 1;
    var init, last := EncodeEvents(events[..n]), HexTokens(EventBytes(events[n]));
    assert EncodeEvents(events) == init + last;
    hide EncodeEvents;
    if i == n {
      SliceAfter(init, last);
    } else {
      EncodedAt(events[..n], i);
      assert i * EVENT_SIZE + EVENT_SIZE <= n * EVENT_SIZE == |init|;
      SliceInside(init, last, i * EVENT_SIZE, i * EVENT_SIZE + EVENT_SIZE);
    }
  }

  lemma SliceInside<T>(a: seq<T>, b: seq<T>, lo: nat, hi: nat)
    requires lo <= hi <= |a|
    ensures (a + b)[lo..hi] == a[lo..hi]
  {
  }

  lemma SliceAfter<T>(a: seq<T>, b: seq<T>)
    ensures (a + b)[|a|..|a| + |b|] == b
  {
  }

  lemma {:induction false} PageRoundTrip(hexBytes: seq<string>, head: seq<string>, events: seq<Event>, n: nat)
    requires AllFit(events) && n <= |events| && |head| == RESP_HEADER_SIZE && hexBytes == head + EncodeEvents(events)
    ensures |hexBytes| >= RESP_HEADER_SIZE + n * EVENT_SIZE && PageEvents(hexBytes, n) == events[..n]
  {
    hide EventOf, HexTokens, EventBytes, EncodeEvents, EventFits;
    if n == 0 {
    } else {
      PageRoundTrip(hexBytes, head, events, n - 1);
      EncodedAt(events, n - 1);
      EventRoundTrip(events[n - 1]);
      var at := (n - 1) * EVENT_SIZE;
      assert hexBytes[RESP_HEADER_SIZE + at..RESP_HEADER_SIZE + at + EVENT_SIZE] ==
             EncodeEvents(events)[at..at + EVENT_SIZE];
      assert events[..n] == events[..n - 1] + [events[n - 1]];
    }
  }

  lemma ServedHeader(events: seq<Event>, index: nat, n: nat)
    requires AllFit(events) && |events| <= UINT16_MAX && index + n <= |events| && n < 256
    ensures ParseResponseHeader(Serve(events, index, n)) == Some(Header(|events|, n))
  {
    hide ByteOf, HexPair, EncodeEvents;
    PairIsByte(|events| % 256);
    PairIsByte(|events| / 256);
    PairIsByte(n);
  }

  lemma ServedPage(events: seq<Event>, index: nat, n: nat)
    requires AllFit(events) && |events| <= UINT16_MAX && index + n <= |events| && n < 256
    ensures |Serve(events, index, n)| == RESP_HEADER_SIZE + n * EVENT_SIZE
    ensures PageEvents(Serve(events, index, n), n) == events[index..index + n]
  {
    hide EncodeEvents, PageEvents, HexPair, EventFits;
    var page := events[index..index + n];
    PageRoundTrip(Serve(events, index, n), Serve(events, index, n)[..RESP_HEADER_SIZE], page, n);
    assert page[..n] == page;
  }

  /** The index at which a query of this server ends: the end of the list, or the first empty page. */
  function EndOf(total: nat, size: (nat, nat) -> nat, call: nat, index: nat): (end: nat)
    requires index <= total
    ensures index <= end <= total
    decreases total - index
  {
    var n := size(call, index);
    if n == 0 || index + n >= total then if index + n >= total then total else index
    else EndOf(total, size, call + 1, index + n)
  }

  lemma EndNext(total: nat, size: (nat, nat) -> nat, call: nat, index: nat)
    requires index <= total
    ensures var n := size(call, index);
            EndOf(total, size, call, index) ==
            if index + n >= total then total else if n == 0 then index else EndOf(total, size, call + 1, index + n)
  {
  }

  lemma SliceJoin<T>(s: seq<T>, a: nat, b: nat, c: nat)
    requires a <= b <= c <= |s|
    ensures s[a..b] + s[b..c] == s[a..c]
  {
  }

  /** Every event before that end is decoded exactly once, in order, and the query reports success. */
  lemma {:induction false} ServedInOrder(responder: Responder, events: seq<Event>, size: (nat, nat) -> nat,
                                         call: nat, index: nat)
    requires Serves(responder, events, size) && index <= |events|
    ensures Query(responder, call, index).success
    ensures Query(responder, call, index).events == events[index..EndOf(|events|, size, call, index)]
    decreases |events| - index
  {
    hide ParseResponseHeader, PageEvents, Serve, Query, AllFit, EndOf;
    var n := size(call, index);
    EndNext(|events|, size, call, index);
    QueryNext(responder, call, index);
    ServedHeader(events, index, n);
    ServedPage(events, index, n);
    if n == 0 || index + n >= |events| {
    } else {
      ServedInOrder(responder, events, size, call + 1, index + n);
      var end := EndOf(|events|, size, call + 1, index + n);
      SliceJoin(events, index, index + n, end);
    }
  }

  /** No request on the way through the list is answered with an empty page. */
  predicate NoEmptyPage(total: nat, size: (nat, nat) -> nat, call: nat, index: nat)
    requires index <= total
    decreases total - index
  {
    var n := size(call, index);
    index == total || (n > 0 && (index + n < total ==> NoEmptyPage(total, size, call + 1, index + n)))
  }

  lemma {:induction false} EndIsTotal(total: nat, size: (nat, nat) -> nat, call: nat, index: nat)
    requires index <= total
    ensures EndOf(total, size, call, index) == total <==> NoEmptyPage(total, size, call, index)
    decreases total - index
  {
    var n := size(call, index);
    if n == 0 || index + n >= total {
    } else {
      EndIsTotal(total, size, call + 1, index + n);
    }
  }

  lemma {:induction false} NeverEmpty(total: nat, size: (nat, nat) -> nat, call: nat, index: nat)
    requires index <= total && forall c: nat, i: nat :: i < total ==> size(c, i) > 0
    ensures NoEmptyPage(total, size, call, index)
    decreases total - index
  {
    var n := size(call, index);
    if index == total || index + n >= total {
    } else {
      NeverEmpty(total, size, call + 1, index + n);
    }
  }

  /** A server that returns at least one event while any remain has its whole list reported, once and in order. */
  lemma EveryEventOnce(responder: Responder, events: seq<Event>, size: (nat, nat) -> nat)
    requires Serves(responder, events, size)
    requires forall c: nat, i: nat :: i < |events| ==> size(c, i) > 0
    ensures Query(responder, 0, 0).success && Query(responder, 0, 0).events == events
  {
    hide Query, Serves;
    NeverEmpty(|events|, size, 0, 0);
    CompleteExactlyWithoutEmptyPage(responder, events, size);
  }

  /** Such a query always reports success, but the list is complete if and only if no page on the way was empty:
      an empty page in the middle loses the rest silently. */
  lemma CompleteExactlyWithoutEmptyPage(responder: Responder, events: seq<Event>, size: (nat, nat) -> nat)
    requires Serves(responder, events, size)
    ensures Query(responder, 0, 0).success
    ensures Query(responder, 0, 0).events == events <==> NoEmptyPage(|events|, size, 0, 0)
  {
    hide Query, Serves, NoEmptyPage, EndOf;
    ServedInOrder(responder, events, size, 0, 0);
    EndIsTotal(|events|, size, 0, 0);
    assert events[0..|events|] == events;
  }

  /** The responder that serves this list, for page sizes that fit. */
  ghost function ServerOf(events: seq<Event>, size: (nat, nat) -> nat): Responder
    requires AllFit(events) && |events| <= UINT16_MAX
  {
    (call: nat, low: nat, high: nat) =>
      var index := low + 256 * high;
      if size(call, index) < 256 && index + size(call, index) <= |events|
      then Serve(events, index, size(call, index)) else []
  }

  lemma ServerServes(events: seq<Event>, size: (nat, nat) -> nat)
    requires AllFit(events) && |events| <= UINT16_MAX
    requires forall call: nat, index: nat :: index <= |events| ==>
               size(call, index) < 256 && index + size(call, index) <= |events|
    ensures Serves(ServerOf(events, size), events, size)
  {
    hide Serve, AllFit;
    forall call: nat, index: nat | index <= |events|
      ensures ServerOf(events, size)(call, index % 256, index / 256) == Serve(events, index, size(call, index))
    {
      assert index % 256 + 256 * (index / 256) == index;
    }
  }

  /** One event at index 0, and an empty page after that. */
  function OneThenNone(): (nat, nat) -> nat {
    (call, index) => if index == 0 then 1 else 0
  }

  lemma EndOfOneThenNone()
    ensures EndOf(2, OneThenNone(), 0, 0) == 1
  {
    assert EndOf(2, OneThenNone(), 1, 1) == 1;
  }

  /** For any two events there is a responder that loses one of them: it serves the first, then an empty page. */
  lemma EmptyPageLoses(first: Event, second: Event)
    requires EventFits(first) && EventFits(second)
    ensures var events := [first, second];
            && Serves(ServerOf(events, OneThenNone()), events, OneThenNone())
            && Query(ServerOf(events, OneThenNone()), 0, 0).success
            && Query(ServerOf(events, OneThenNone()), 0, 0).events == [first]
  {
    hide EventFits, Query, ServerOf, Serves, EndOf;
    var events := [first, second];
    ServerServes(events, OneThenNone());
    ServedInOrder(ServerOf(events, OneThenNone()), events, OneThenNone(), 0, 0);
    EndOfOneThenNone();
    assert events[0..1] == [first];
  }

  // ----- numbers in other forms -----

  lemma {:induction false} HexDigitsOnly(h: string)
    requires HexValue(h).Some?
    ensures h != [] && forall c :: c in h ==> IsDigitIn(c, 16)
  {
    if |h| == 1 {
    } else {
      HexDigitsOnly(h[..|h| - 1]);
      assert h == h[..|h| - 1] + [h[|h| - 1]];
    }
  }

  lemma PlainStart(h: string)
    requires HexValue(h).Some?
    ensures h != [] && SkipSpace(h) == h && h[0] != '-' && h[0] != '+'
    ensures |h| > 1 ==> h[1] != 'x' && h[1] != 'X'
  {
    HexDigitsOnly(h);
    assert h[0] in h && (|h| > 1 ==> h[1] in h);
  }

  /** A hexadecimal prefix changes nothing. */
  lemma PrefixedForm(h: string, x: char, v: nat)
    requires HexValue(h) == Some(v) && v < 0x1_0000_0000_0000_0000 && (x == 'x' || x == 'X')
    ensures Strtoul16(['0', x] + h) == Some(v)
  {
    PlainStart(h);
    hide HexValue;
    assert (['0', x] + h)[2..] == h;
  }

  lemma OneBefore(c: char, h: string)
    ensures ([c] + h)[1..] == h && ([c] + h)[0] == c
    ensures !IsCSpace(c) ==> SkipSpace([c] + h) == [c] + h
    ensures IsCSpace(c) ==> SkipSpace([c] + h) == SkipSpace(h)
  {
    assert ([c] + h)[1..] == h;
  }

  /** strtoul takes a number with or without sign and leading space, wraps a negative one around, and takes a number that
      is too large as the largest. */
  lemma NumberForms(h: string, v: nat)
    requires HexValue(h) == Some(v) && 0 < v
    ensures v < 0x1_0000_0000_0000_0000 ==>
              Strtoul16(h) == Strtoul16(['+'] + h) == Strtoul16([' '] + h) == Some(v) &&
              Strtoul16(['-'] + h) == Some(0x1_0000_0000_0000_0000 - v)
    ensures v >= 0x1_0000_0000_0000_0000 ==> Strtoul16(h) == Some(0xFFFF_FFFF_FFFF_FFFF)
  {
    PlainStart(h);
    OneBefore('+', h);
    OneBefore('-', h);
    OneBefore(' ', h);
    hide HexValue, SkipSpace;
  }
}
