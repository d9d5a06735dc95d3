/**
 The DHCP client packets of crates/networking/src/networking.rs: building a
 request and parsing a reply (RFC 2131 section 3, RFC 2132 section 2).
 */
module Dhcp {
  import opened Common

  type Ipv4 = b: Bytes | |b| == 4 witness [0, 0, 0, 0]

  type Mac = b: Bytes | |b| == 6 witness [0, 0, 0, 0, 0, 0]

  /** A transaction id. */
  type Xid = x: nat | x < U32

  const COOKIE: Bytes := [99, 130, 83, 99]
  const HEADER_LEN := 240

  const OPT_PAD: u8 := 0
  const OPT_SUBNET_MASK: u8 := 1
  const OPT_ROUTER: u8 := 3
  const OPT_DNS: u8 := 6
  const OPT_REQUESTED_IP: u8 := 50
  const OPT_LEASE_TIME: u8 := 51
  const OPT_MSG_TYPE: u8 := 53
  const OPT_SERVER_ID: u8 := 54
  const OPT_PARAMETERS: u8 := 55
  const OPT_END: u8 := 255

  /** The options a request asks for. */
  const PARAMETERS: Bytes := [OPT_SUBNET_MASK, OPT_ROUTER, OPT_DNS, OPT_LEASE_TIME]

  datatype Options = Options(msgType: u8, serverId: Option<Ipv4>, subnetMask: Option<Ipv4>, router: Option<Ipv4>,
                             dnsServers: seq<Ipv4>, leaseTime: Option<nat>)

  datatype Response = Response(yourIp: Ipv4, options: Options)

  datatype ParseError = TooShort | NotReply | XidMismatch | BadCookie

  datatype Result<T> = Ok(value: T) | Err(error: ParseError)

  const NO_OPTIONS := Options(0, None, None, None, [], None)

  // ---- the option list ----

  datatype Item = Pad | Opt(code: u8, val: Bytes)

  predicate WellFormed(item: Item) {
    item.Opt? ==> item.code != OPT_PAD && item.code != OPT_END && |item.val| < 0x100
  }

  ghost predicate AllWellFormed(items: seq<Item>) {
    forall k | 0 <= k < |items| :: WellFormed(items[k])
  }

  function EncodeItem(item: Item): Bytes
    requires WellFormed(item)
  {
    match item
    case Pad => [OPT_PAD]
    case Opt(code, val) => [code, |val| as u8] + val
  }

  ghost function EncodeItems(items: seq<Item>): Bytes
    requires AllWellFormed(items)
  {
    if items == [] then [] else EncodeItem(items[0]) + EncodeItems(items[1..])
  }

  /** The head of the remaining bytes: nothing more to read, or an item and its size. */
  function NextItem(data: Bytes): (r: Option<(Item, nat)>)
    ensures r.Some? ==> 0 < r.value.1 <= |data| && WellFormed(r.value.0)
  {
    if data == [] || data[0] == OPT_END then None
    else if data[0] == OPT_PAD then Some((Pad, 1))
    else if |data| < 2 || 2 + data[1] as int > |data| then None
    else Some((Opt(data[0], data[2..2 + data[1] as int]), 2 + data[1] as int))
  }

  /** The items before the end marker, or before the first that is cut short. */
  ghost function Items(data: Bytes): seq<Item>
    decreases |data|
  {
    var next := NextItem(data);
    if next.None? then [] else [next.value.0] + Items(data[next.value.1..])
  }

  /** Reading a written list gives the list, whatever follows it when that does not start another item. */
  lemma {:induction false} ItemsRoundTrip(items: seq<Item>, tail: Bytes)
    requires AllWellFormed(items) && NextItem(tail).None?
    ensures Items(EncodeItems(items) + tail) == items
    decreases |items|
  {
    var data := EncodeItems(items) + tail;
    if items == [] {
      assert data == tail;
    } else {
      var item, rest := items[0], EncodeItems(items[1..]) + tail;
      assert data == EncodeItem(item) + rest;
      ItemHead(item, rest);
      ItemsRoundTrip(items[1..], tail);
    }
  }

  lemma ItemHead(item: Item, rest: Bytes)
    requires WellFormed(item)
    ensures NextItem(EncodeItem(item) + rest) == Some((item, |EncodeItem(item)|))
    ensures (EncodeItem(item) + rest)[|EncodeItem(item)|..] == rest
  {
    var data := EncodeItem(item) + rest;
    if item.Opt? {
      assert data[2..2 + |item.val|] == item.val;
    }
  }

  /** Nothing is read at the end of the bytes, at an end marker, or where an option is cut short; a pad is skipped and an option read whole. */
  lemma NextItemIs(data: Bytes)
    ensures NextItem(data).None? <==>
              data == [] || data[0] == 255 || (data[0] != 0 && (|data| == 1 || |data| < 2 + data[1] as int))
    ensures data != [] && data[0] == 0 ==> NextItem(data) == Some((Pad, 1))
    ensures NextItem(data).Some? && data[0] != 0 ==>
              NextItem(data) == Some((Opt(data[0], data[2..2 + data[1] as int]), 2 + data[1] as int))
  {
  }

  /** A list whose last option is cut short is read up to that option. */
  lemma {:induction false} CutListStops(items: seq<Item>, item: Item, n: nat)
    requires AllWellFormed(items) && WellFormed(item) && n < |EncodeItem(item)|
    ensures Items(EncodeItems(items) + EncodeItem(item)[..n]) == items
  {
    NextItemIs(EncodeItem(item)[..n]);
    ItemsRoundTrip(items, EncodeItem(item)[..n]);
  }

  // ---- what the options say ----

  /** The complete groups of four bytes. */
  function Addresses(val: Bytes): seq<Ipv4> {
    if |val| < 4 then [] else [val[..4]] + Addresses(val[4..])
  }

  lemma {:induction false} AddressesAre(val: Bytes)
    ensures |Addresses(val)| == |val| / 4
    ensures forall k | 0 <= k < |val| / 4 :: Addresses(val)[k] == val[4 * k..4 * k + 4]
    decreases |val|
  {
    if |val| >= 4 {
      AddressesAre(val[4..]);
      forall k | 0 <= k < |val| / 4 ensures Addresses(val)[k] == val[4 * k..4 * k + 4] {
        if k > 0 {
          assert Addresses(val)[k] == Addresses(val[4..])[k - 1] == val[4..][4 * (k - 1)..4 * (k - 1) + 4];
        } else {
          assert val[..4] == val[0..4];
        }
      }
    }
  }

  function Apply(o: Options, item: Item): Options {
    if item.Pad? then o
    else
      var val := item.val;
      if item.code == OPT_MSG_TYPE && |val| >= 1 then o.(msgType := val[0])
      else if item.code == OPT_SUBNET_MASK && |val| >= 4 then o.(subnetMask := Some(val[..4]))
      else if item.code == OPT_ROUTER && |val| >= 4 then o.(router := Some(val[..4]))
      else if item.code == OPT_DNS then o.(dnsServers := o.dnsServers + Addresses(val))
      else if item.code == OPT_LEASE_TIME && |val| >= 4 then o.(leaseTime := Some(FromBe32(val[..4])))
      else if item.code == OPT_SERVER_ID && |val| >= 4 then o.(serverId := Some(val[..4]))
      else o
  }

  ghost function ApplyAll(items: seq<Item>): Options {
    if items == [] then NO_OPTIONS else Apply(ApplyAll(items[..|items| - 1]), items[|items| - 1])
  }

  /** Item k is the last with this code whose value is long enough. */
  ghost predicate LastWith(items: seq<Item>, code: u8, least: nat, k: nat) {
    && k < |items| && items[k].Opt? && items[k].code == code && |items[k].val| >= least
    && forall j | k < j < |items| :: items[j].Opt? && items[j].code == code ==> |items[j].val| < least
  }

  ghost predicate NoneWith(items: seq<Item>, code: u8, least: nat) {
    forall j | 0 <= j < |items| :: items[j].Opt? && items[j].code == code ==> |items[j].val| < least
  }

  /** The field holds the value of the last long enough option, or None when there is none. */
  ghost predicate HoldsLast(items: seq<Item>, code: u8, least: nat, field: Option<Bytes>) {
    if field.None? then NoneWith(items, code, least)
    else exists k: nat :: LastWith(items, code, least, k) && field.value <= items[k].val && |field.value| == least
  }

  /** The addresses of all name server options, in order. */
  ghost function AllAddresses(items: seq<Item>): seq<Ipv4> {
    if items == [] then []
    else
      var last := items[|items| - 1];
      AllAddresses(items[..|items| - 1]) + if last.Opt? && last.code == 6 then Addresses(last.val) else []
  }

  /** The first bytes of the last long enough option with this code. */
  ghost function LastValue(items: seq<Item>, code: u8, least: nat): (r: Option<Bytes>)
    ensures r.Some? ==> |r.value| == least
  {
    if items == [] then None
    else
      var last := items[|items| - 1];
      if last.Opt? && last.code == code && |last.val| >= least then Some(last.val[..least])
      else LastValue(items[..|items| - 1], code, least)
  }

  /** It is the one that every later option fails to override. */
  lemma {:induction false} LastValueIs(items: seq<Item>, code: u8, least: nat)
    ensures HoldsLast(items, code, least, LastValue(items, code, least))
  {
    if items != [] {
      var init, last := items[..|items| - 1], items[|items| - 1];
      LastValueIs(init, code, least);
      HoldsLastPush(init, last, code, least, LastValue(init, code, least));
      assert init + [last] == items;
    }
  }

  lemma HoldsLastPush(items: seq<Item>, item: Item, code: u8, least: nat, field: Option<Bytes>)
    requires HoldsLast(items, code, least, field)
    ensures var takes := item.Opt? && item.code == code && |item.val| >= least;
            HoldsLast(items + [item], code, least, if takes then Some(item.val[..least]) else field)
  {
    var all := items + [item];
    if item.Opt? && item.code == code && |item.val| >= least {
      assert LastWith(all, code, least, |items|);
    } else if field.Some? {
      var k: nat :| LastWith(items, code, least, k) && field.value <= items[k].val && |field.value| == least;
      assert all[k] == items[k];
      assert LastWith(all, code, least, k);
    }
  }

  /** Of the mask, router and server options (RFC 2132 sections 3.3, 3.5 and 9.7) the last long enough one counts. */
  lemma {:induction false} AddressFieldsAre(items: seq<Item>)
    ensures var o := ApplyAll(items);
            && o.subnetMask == LastValue(items, 1, 4)
            && o.router == LastValue(items, 3, 4)
            && o.serverId == LastValue(items, 54, 4)
  {
    if items != [] {
      AddressFieldsAre(items[..|items| - 1]);
    }
  }

  /** So do the last message type, 0 without one, and the last lease time; name servers add up. */
  lemma {:induction false} OtherFieldsAre(items: seq<Item>)
    ensures var o := ApplyAll(items);
            && o.msgType == LastValue(items, 53, 1).GetOr([0])[0]
            && o.leaseTime == (var lease := LastValue(items, 51, 4); if lease.Some? then Some(FromBe32(lease.value)) else None)
            && o.dnsServers == AllAddresses(items)
  {
    if items != [] {
      OtherFieldsAre(items[..|items| - 1]);
    }
  }

  // ---- parsing ----

  /** The checks on the fixed part, in order. */
  function HeaderError(data: Bytes, expectedXid: Xid): Option<ParseError> {
    if |data| < HEADER_LEN then Some(TooShort)
    else if data[0] != 2 then Some(NotReply)
    else if FromBe32(data[4..8]) != expectedXid then Some(XidMismatch)
    else if data[236..240] != COOKIE then Some(BadCookie)
    else None
  }

  ghost function Parsed(data: Bytes, expectedXid: Xid): Result<Response> {
    var error := HeaderError(data, expectedXid);
    if error.Some? then Err(error.value) else Ok(Response(data[16..20], ApplyAll(Items(data[HEADER_LEN..]))))
  }

  /** The header is good, or the first of its checks that fails gives the error. */
  lemma HeaderErrorIs(data: Bytes, expectedXid: Xid)
    ensures HeaderError(data, expectedXid) == Some(TooShort) <==> |data| < 240
    ensures HeaderError(data, expectedXid) == Some(NotReply) <==> |data| >= 240 && data[0] != 2
    ensures HeaderError(data, expectedXid) == Some(XidMismatch) <==> |data| >= 240 && data[0] == 2 && data[4..8] != Be32(expectedXid)
    ensures HeaderError(data, expectedXid) == Some(BadCookie) <==>
              |data| >= 240 && data[0] == 2 && data[4..8] == Be32(expectedXid) && data[236..240] != [99, 130, 83, 99]
    ensures HeaderError(data, expectedXid) == None <==>
              |data| >= 240 && data[0] == 2 && data[4..8] == Be32(expectedXid) && data[236..240] == [99, 130, 83, 99]
  {
    Be32RoundTrip(expectedXid);
    if |data| >= 240 {
      Be32Of(data[4..8]);
    }
  }

  lemma AddressesStep(val: Bytes, j: nat, all: seq<Ipv4>)
    requires j + 4 <= |val|
    ensures all + Addresses(val[j..]) == all + [val[j..j + 4]] + Addresses(val[j + 4..])
  {
    assert val[j..][..4] == val[j..j + 4] && val[j..][4..] == val[j + 4..];
  }

  /** The name servers of one option. */
  method ReadAddresses(val: Bytes, before: seq<Ipv4>) returns (all: seq<Ipv4>)
    ensures all == before + Addresses(val)
  {
    all := before;
    var j := 0;
    assert val[0..] == val;
    while j + 3 < |val|
      invariant j <= |val| && before + Addresses(val) == all + Addresses(val[j..])
    {
      AddressesStep(val, j, all);
      assert [val[j], val[j + 1], val[j + 2], val[j + 3]] == val[j..j + 4];
      all := all + [[val[j], val[j + 1], val[j + 2], val[j + 3]]];
      j := j + 4;
    }
  }

  /** One option, by its code and length. */
  method ReadOption(o: Options, opt: u8, val: Bytes) returns (after: Options)
    requires opt != OPT_PAD && opt != OPT_END
    ensures after == Apply(o, Opt(opt, val))
  {
    after := o;
    assert |val| >= 4 ==> val[..4] == [val[0], val[1], val[2], val[3]];
    if opt == OPT_MSG_TYPE && |val| >= 1 {
      after := after.(msgType := val[0]);
    } else if opt == OPT_SUBNET_MASK && |val| >= 4 {
      after := after.(subnetMask := Some([val[0], val[1], val[2], val[3]]));
    } else if opt == OPT_ROUTER && |val| >= 4 {
      after := after.(router := Some([val[0], val[1], val[2], val[3]]));
    } else if opt == OPT_DNS {
      var servers := ReadAddresses(val, after.dnsServers);
      after := after.(dnsServers := servers);
    } else if opt == OPT_LEASE_TIME && |val| >= 4 {
      after := after.(leaseTime := Some(FromBe32([val[0], val[1], val[2], val[3]])));
    } else if opt == OPT_SERVER_ID && |val| >= 4 {
      after := after.(serverId := Some([val[0], val[1], val[2], val[3]]));
    }
  }

  /** The item at position i, read where it lies. */
  function ItemAt(data: Bytes, i: nat): (r: Option<(Item, nat)>)
    requires i < |data|
    ensures r.Some? ==> i < i + r.value.1 <= |data|
  {
    if data[i] == OPT_END then None
    else if data[i] == OPT_PAD then Some((Pad, 1))
    else if i + 1 >= |data| || i + 2 + data[i + 1] as int > |data| then None
    else Some((Opt(data[i], data[i + 2..i + 2 + data[i + 1] as int]), 2 + data[i + 1] as int))
  }

  lemma ItemAtIs(data: Bytes, i: nat)
    requires i < |data|
    ensures NextItem(data[i..]) == ItemAt(data, i)
  {
    var tail := data[i..];
    if i + 1 < |data| && i + 2 + data[i + 1] as int <= |data| {
      assert tail[2..2 + tail[1] as int] == data[i + 2..i + 2 + data[i + 1] as int];
    }
  }

  ghost function ItemsFrom(data: Bytes, i: nat): seq<Item>
    requires i <= |data|
    decreases |data| - i
  {
    if i == |data| || ItemAt(data, i).None? then []
    else [ItemAt(data, i).value.0] + ItemsFrom(data, i + ItemAt(data, i).value.1)
  }

  lemma ItemsStep(data: Bytes, i: nat)
    requires i <= |data|
    ensures Items(data[i..]) ==
              if i == |data| || ItemAt(data, i).None? then []
              else [ItemAt(data, i).value.0] + Items(data[i + ItemAt(data, i).value.1..])
  {
    if i < |data| {
      ItemAtIs(data, i);
      var next := ItemAt(data, i);
      if next.Some? {
        assert data[i..][next.value.1..] == data[i + next.value.1..];
      }
    }
  }

  lemma {:induction false} ItemsFromIs(data: Bytes, i: nat)
    requires i <= |data|
    ensures ItemsFrom(data, i) == Items(data[i..])
    decreases |data| - i
  {
    ItemsStep(data, i);
    if i < |data| && ItemAt(data, i).Some? {
      ItemsFromIs(data, i + ItemAt(data, i).value.1);
    }
  }

  /** What reading on from position i makes of the options so far. */
  ghost function Resumed(data: Bytes, i: nat, o: Options): Options
    decreases |data| - i
  {
    if i >= |data| || ItemAt(data, i).None? then o
    else Resumed(data, i + ItemAt(data, i).value.1, Apply(o, ItemAt(data, i).value.0))
  }

  lemma {:induction false} ResumedIs(data: Bytes, i: nat, done: seq<Item>)
    requires i <= |data|
    ensures Resumed(data, i, ApplyAll(done)) == ApplyAll(done + ItemsFrom(data, i))
    decreases |data| - i
  {
    if i == |data| || ItemAt(data, i).None? {
      assert done + [] == done;
    } else {
      var (item, size) := ItemAt(data, i).value;
      ResumedIs(data, i + size, done + [item]);
      assert (done + [item])[..|done|] == done;
      ConcatAssoc(done, [item], ItemsFrom(data, i + size));
    }
  }

  lemma {:induction false} ResumedAll(data: Bytes, start: nat)
    requires start <= |data|
    ensures Resumed(data, start, NO_OPTIONS) == ApplyAll(Items(data[start..]))
  {
    ResumedIs(data, start, []);
    ItemsFromIs(data, start);
    assert [] + Items(data[start..]) == Items(data[start..]);
  }

  method ParseOptions(data: Bytes, start: nat) returns (o: Options)
    requires start <= |data|
    ensures o == ApplyAll(Items(data[start..]))
  {
    o := NO_OPTIONS;
    var i := start;
    while i < |data|
      invariant start <= i <= |data| && Resumed(data, i, o) == Resumed(data, start, NO_OPTIONS)
    {
      var opt := data[i];
      if opt == OPT_END {
        break;
      }
      if opt == OPT_PAD {
        i := i + 1;
        continue;
      }
      if i + 1 >= |data| {
        break;
      }
      var len := data[i + 1] as int;
      var valStart := i + 2;
      var valEnd := valStart + len;
      if valEnd > |data| {
        break;
      }
      o := ReadOption(o, opt, data[valStart..valEnd]);
      i := valEnd;
    }
    ResumedAll(data, start);
  }

  method ParseDhcpResponse(data: Bytes, expectedXid: Xid) returns (r: Result<Response>)
    ensures r == Parsed(data, expectedXid)
    ensures r == Err(TooShort) <==> |data| < 240
    ensures r == Err(NotReply) <==> |data| >= 240 && data[0] != 2
    ensures r == Err(XidMismatch) <==> |data| >= 240 && data[0] == 2 && data[4..8] != Be32(expectedXid)
    ensures r == Err(BadCookie) <==>
              |data| >= 240 && data[0] == 2 && data[4..8] == Be32(expectedXid) && data[236..240] != [99, 130, 83, 99]
    ensures r.Ok? ==> r.value.yourIp == data[16..20] && r.value.options == ApplyAll(Items(data[240..]))
  {
    HeaderErrorIs(data, expectedXid);
    if |data| < HEADER_LEN {
      return Err(TooShort);
    }
    if data[0] != 2 {
      return Err(NotReply);
    }
    assert data[4..8] == [data[4], data[5], data[6], data[7]];
    var xid := FromBe32([data[4], data[5], data[6], data[7]]);
    if xid != expectedXid {
      return Err(XidMismatch);
    }
    var yourIp: Ipv4 := [data[16], data[17], data[18], data[19]];
    assert data[16..20] == yourIp;
    if data[236..240] != COOKIE {
      return Err(BadCookie);
    }
    var options := ParseOptions(data, HEADER_LEN);
    return Ok(Response(yourIp, options));
  }

  lemma HeaderStays(header: Bytes, body: Bytes, xid: Xid)
    requires |header| == HEADER_LEN
    ensures HeaderError(header + body, xid) == HeaderError(header, xid)
    ensures (header + body)[16..20] == header[16..20] && (header + body)[HEADER_LEN..] == body
  {
    var data := header + body;
    assert data[4..8] == header[4..8] && data[236..240] == header[236..240];
  }

  /**
   Any option list, with pads, behind a good header: what is parsed is what the
   items say, whatever follows the end marker (or a last item cut short).
   */
  lemma ParsesList(header: Bytes, items: seq<Item>, tail: Bytes, xid: Xid)
    requires |header| == HEADER_LEN && HeaderError(header, xid).None? && AllWellFormed(items) && NextItem(tail).None?
    ensures Parsed(header + EncodeItems(items) + tail, xid) == Ok(Response(header[16..20], ApplyAll(items)))
  {
    var body := EncodeItems(items) + tail;
    HeaderStays(header, body, xid);
    ItemsRoundTrip(items, tail);
    ConcatAssoc(header, EncodeItems(items), tail);
  }

  // ---- building ----

  /** The fixed part of a request: kind, hardware, transaction id, broadcast flag, hardware address, cookie; zero elsewhere. */
  ghost function HeaderByte(xid: Xid, mac: Mac, i: nat): u8 {
    if i == 0 || i == 1 then 1
    else if i == 2 then 6
    else if 4 <= i < 8 then Be32(xid)[i - 4]
    else if i == 10 then 0x80
    else if 28 <= i < 34 then mac[i - 28]
    else if 236 <= i < 240 then COOKIE[i - 236]
    else 0
  }

  ghost function Header(xid: Xid, mac: Mac): (h: Bytes)
    ensures |h| == HEADER_LEN
  {
    seq(HEADER_LEN, i requires 0 <= i => HeaderByte(xid, mac, i))
  }

  /** One more option at the end, when there is one. */
  function With(items: seq<Item>, code: u8, val: Option<Bytes>): seq<Item> {
    if val.Some? then items + [Opt(code, val.value)] else items
  }

  /** The options of a request. */
  ghost function RequestItems(msgType: u8, requestedIp: Option<Ipv4>, serverId: Option<Ipv4>): (items: seq<Item>)
    ensures AllWellFormed(items)
  {
    var kind := [Opt(OPT_MSG_TYPE, [msgType])];
    With(With(With(kind, OPT_REQUESTED_IP, requestedIp), OPT_SERVER_ID, serverId), OPT_PARAMETERS, Some(PARAMETERS))
  }

  ghost function Packet(msgType: u8, xid: Xid, mac: Mac, requestedIp: Option<Ipv4>, serverId: Option<Ipv4>): Bytes {
    Header(xid, mac) + EncodeItems(RequestItems(msgType, requestedIp, serverId)) + [OPT_END]
  }

  method BuildHeader(xid: Xid, mac: Mac) returns (header: Bytes)
    ensures header == Header(xid, mac)
  {
    var pkt := new u8[HEADER_LEN](_ => 0);
    pkt[0] := 1;
    pkt[1] := 1;
    pkt[2] := 6;
    pkt[3] := 0;
    var id := Be32(xid);
    for k := 0 to 4
      invariant forall i | 0 <= i < HEADER_LEN :: pkt[i] == if i == 0 || i == 1 then 1 else if i == 2 then 6 else if 4 <= i < 4 + k then id[i - 4] else 0
    {
      pkt[4 + k] := id[k];
    }
    pkt[10] := 0x80;
    pkt[11] := 0;
    for k := 0 to 6
      invariant forall i | 0 <= i < HEADER_LEN :: pkt[i] == if 28 <= i < 28 + k then mac[i - 28] else if 28 <= i < 34 || 236 <= i then 0 else HeaderByte(xid, mac, i)
    {
      pkt[28 + k] := mac[k];
    }
    for k := 0 to 4
      invariant forall i | 0 <= i < HEADER_LEN :: pkt[i] == if 236 + k <= i then 0 else HeaderByte(xid, mac, i)
    {
      pkt[236 + k] := COOKIE[k];
    }
    return pkt[..];
  }

  lemma {:induction false} EncodeItemsPush(items: seq<Item>, item: Item)
    requires AllWellFormed(items) && WellFormed(item)
    ensures AllWellFormed(items + [item]) && EncodeItems(items + [item]) == EncodeItems(items) + EncodeItem(item)
    decreases |items|
  {
    var all := items + [item];
    if items == [] {
      assert EncodeItems(all) == EncodeItem(item) + EncodeItems([]);
    } else {
      assert AllWellFormed(items[1..]);
      EncodeItemsPush(items[1..], item);
      assert all[0] == items[0] && all[1..] == items[1..] + [item];
      ConcatAssoc(EncodeItem(items[0]), EncodeItems(items[1..]), EncodeItem(item));
    }
  }

  ghost predicate Encoded(items: seq<Item>, bytes: Bytes) {
    AllWellFormed(items) && EncodeItems(items) == bytes
  }

  lemma EncodedPush(items: seq<Item>, bytes: Bytes, code: u8, val: Bytes)
    requires Encoded(items, bytes) && WellFormed(Opt(code, val))
    ensures Encoded(items + [Opt(code, val)], bytes + [code] + [|val| as u8] + val)
  {
    EncodeItemsPush(items, Opt(code, val));
    assert bytes + [code] + [|val| as u8] + val == bytes + ([code, |val| as u8] + val);
  }

  method BuildOptions(msgType: u8, requestedIp: Option<Ipv4>, serverId: Option<Ipv4>) returns (opts: Bytes)
    ensures opts == EncodeItems(RequestItems(msgType, requestedIp, serverId)) + [OPT_END]
  {
    opts := [];
    ghost var items: seq<Item> := [];
    EncodedPush(items, opts, OPT_MSG_TYPE, [msgType]);
    opts := opts + [OPT_MSG_TYPE] + [1] + [msgType];
    items := items + [Opt(OPT_MSG_TYPE, [msgType])];
    if requestedIp.Some? {
      EncodedPush(items, opts, OPT_REQUESTED_IP, requestedIp.value);
      opts := opts + [OPT_REQUESTED_IP] + [4] + requestedIp.value;
      items := items + [Opt(OPT_REQUESTED_IP, requestedIp.value)];
    }
    if serverId.Some? {
      EncodedPush(items, opts, OPT_SERVER_ID, serverId.value);
      opts := opts + [OPT_SERVER_ID] + [4] + serverId.value;
      items := items + [Opt(OPT_SERVER_ID, serverId.value)];
    }
    var wanted := PARAMETERS;
    EncodedPush(items, opts, OPT_PARAMETERS, wanted);
    opts := opts + [OPT_PARAMETERS] + [4] + wanted;
    items := items + [Opt(OPT_PARAMETERS, wanted)];
    assert items == RequestItems(msgType, requestedIp, serverId);
    opts := opts + [OPT_END];
  }

  method BuildDhcpPacket(msgType: u8, xid: Xid, mac: Mac, requestedIp: Option<Ipv4>, serverId: Option<Ipv4>) returns (pkt: Bytes)
    ensures pkt == Packet(msgType, xid, mac, requestedIp, serverId)
  {
    var header := BuildHeader(xid, mac);
    var opts := BuildOptions(msgType, requestedIp, serverId);
    ConcatAssoc(header, EncodeItems(RequestItems(msgType, requestedIp, serverId)), [OPT_END]);
    return header + opts;
  }

  lemma ApplyPush(items: seq<Item>, item: Item)
    ensures ApplyAll(items + [item]) == Apply(ApplyAll(items), item)
  {
    assert (items + [item])[..|items|] == items;
  }

  /** An option that carries nothing the parser keeps. */
  lemma PassedOver(items: seq<Item>, code: u8, val: Option<Bytes>)
    requires code == OPT_REQUESTED_IP || code == OPT_PARAMETERS
    ensures ApplyAll(With(items, code, val)) == ApplyAll(items)
  {
    if val.Some? {
      ApplyPush(items, Opt(code, val.value));
    }
  }

  lemma NamesServer(items: seq<Item>, serverId: Option<Ipv4>)
    requires ApplyAll(items).serverId == None
    ensures ApplyAll(With(items, OPT_SERVER_ID, serverId)) == ApplyAll(items).(serverId := serverId)
  {
    if serverId.Some? {
      ApplyPush(items, Opt(OPT_SERVER_ID, serverId.value));
      assert serverId.value[..4] == serverId.value;
    }
  }

  lemma RequestSays(msgType: u8, requestedIp: Option<Ipv4>, serverId: Option<Ipv4>)
    ensures ApplyAll(RequestItems(msgType, requestedIp, serverId)) == Options(msgType, serverId, None, None, [], None)
  {
    var kind := Opt(OPT_MSG_TYPE, [msgType]);
    assert [] + [kind] == [kind];
    ApplyPush([], kind);
    PassedOver([kind], OPT_REQUESTED_IP, requestedIp);
    NamesServer(With([kind], OPT_REQUESTED_IP, requestedIp), serverId);
    PassedOver(With(With([kind], OPT_REQUESTED_IP, requestedIp), OPT_SERVER_ID, serverId), OPT_PARAMETERS, Some(PARAMETERS));
  }

  lemma RequestHeader(xid: Xid, mac: Mac)
    ensures var header := Header(xid, mac);
            && HeaderError(header, xid) == Some(NotReply)
            && HeaderError(header[0 := 2], xid) == None && header[0 := 2][16..20] == [0, 0, 0, 0]
  {
    var header := Header(xid, mac)[0 := 2];
    Be32RoundTrip(xid);
    assert header[4..8] == Be32(xid) && header[236..240] == COOKIE && header[16..20] == [0, 0, 0, 0];
  }

  lemma FirstByte(header: Bytes, body: Bytes, tail: Bytes)
    requires |header| > 0
    ensures (header + body + tail)[0 := 2] == header[0 := 2] + body + tail
  {
  }

  /** A built request, turned into a reply by its first byte, is parsed back to its message type and server, under no other transaction id; as built it is no reply. */
  lemma RequestRoundTrip(msgType: u8, xid: Xid, mac: Mac, requestedIp: Option<Ipv4>, serverId: Option<Ipv4>, other: Xid)
    ensures var pkt := Packet(msgType, xid, mac, requestedIp, serverId);
            && Parsed(pkt[0 := 2], xid) == Ok(Response([0, 0, 0, 0], Options(msgType, serverId, None, None, [], None)))
            && Parsed(pkt, xid) == Err(NotReply)
            && (other != xid ==> Parsed(pkt[0 := 2], other) == Err(XidMismatch))
  {
    var items, header := RequestItems(msgType, requestedIp, serverId), Header(xid, mac);
    RequestHeader(xid, mac);
    FirstByte(header, EncodeItems(items), [OPT_END]);
    ParsesList(header[0 := 2], items, [OPT_END], xid);
    RequestSays(msgType, requestedIp, serverId);
    ConcatAssoc(header, EncodeItems(items), [OPT_END]);
    HeaderStays(header, EncodeItems(items) + [OPT_END], xid);
    if other != xid {
      OtherXid(header[0 := 2], EncodeItems(items) + [OPT_END], xid, other);
      ConcatAssoc(header[0 := 2], EncodeItems(items), [OPT_END]);
    }
  }

  lemma OtherXid(header: Bytes, body: Bytes, xid: Xid, other: Xid)
    requires |header| == HEADER_LEN && HeaderError(header, xid).None? && other != xid
    ensures Parsed(header + body, other) == Err(XidMismatch)
  {
    HeaderStays(header, body, other);
    HeaderErrorIs(header, xid);
    HeaderErrorIs(header, other);
    Be32RoundTrip(xid);
    Be32RoundTrip(other);
  }

  /** The fields of a built packet (RFC 2131 section 2), and what it asks for. */
  lemma PacketFields(msgType: u8, xid: Xid, mac: Mac, requestedIp: Option<Ipv4>, serverId: Option<Ipv4>)
    ensures var pkt := Packet(msgType, xid, mac, requestedIp, serverId);
            && |pkt| > 240
            && pkt[0..4] == [1, 1, 6, 0] && pkt[4..8] == Be32(xid) && pkt[8..12] == [0, 0, 0x80, 0]
            && (forall i | 12 <= i < 28 :: pkt[i] == 0) && pkt[28..34] == mac && (forall i | 34 <= i < 236 :: pkt[i] == 0)
            && pkt[236..240] == [99, 130, 83, 99]
  {
    var header := Header(xid, mac);
    var pkt := Packet(msgType, xid, mac, requestedIp, serverId);
    assert pkt[..240] == header;
    assert header[0..4] == [1, 1, 6, 0] && header[4..8] == Be32(xid) && header[8..12] == [0, 0, 0x80, 0];
    assert header[28..34] == mac && header[236..240] == [99, 130, 83, 99];
    assert pkt[0..4] == header[0..4] && pkt[4..8] == header[4..8] && pkt[8..12] == header[8..12];
    assert pkt[28..34] == header[28..34] && pkt[236..240] == header[236..240];
    forall i | 0 <= i < 240 ensures pkt[i] == header[i] {
    }
  }

  /** Read as an option list it holds its type, the address asked for, the server and the list of parameters, and ends there. */
  lemma PacketOptions(msgType: u8, xid: Xid, mac: Mac, requestedIp: Option<Ipv4>, serverId: Option<Ipv4>)
    ensures var pkt := Packet(msgType, xid, mac, requestedIp, serverId);
            && |pkt| > 240 && pkt[|pkt| - 1] == 255
            && Items(pkt[240..]) == [Opt(53, [msgType])]
                 + (if requestedIp.Some? then [Opt(50, requestedIp.value)] else [])
                 + (if serverId.Some? then [Opt(54, serverId.value)] else [])
                 + [Opt(55, [1, 3, 6, 51])]
  {
    var items := RequestItems(msgType, requestedIp, serverId);
    var pkt := Packet(msgType, xid, mac, requestedIp, serverId);
    ItemsRoundTrip(items, [OPT_END]);
    ConcatAssoc(Header(xid, mac), EncodeItems(items), [OPT_END]);
    assert pkt[240..] == EncodeItems(items) + [OPT_END];
  }
}
