/** Address-change ingestion (`nl_msg_cb`, `parse_addr_msg`, `af_addr_size`):
    how one decoded netlink message changes the interface records. The loop
    that applies it to the engine's records is `Engine.ParseAddrMsg`. */
module Ingest {
  import opened Types

  const UINT_MAX: nat := 0xFFFF_FFFF

  /** `IF_NAMESIZE`: the length bound of the name comparison. */
  const IF_NAMESIZE: nat := 16

  /** Kernel constants from the Linux headers, which are not part of this
      model: the message type RTM_NEWADDR, the attribute type IFA_LOCAL and
      the attribute-type bound RTA_MAX. */
  datatype Abi = Abi(rtmNewAddr: nat, ifaLocal: nat, rtaMax: nat)

  /** One route attribute: its type and its payload bytes. */
  datatype Attr = Attr(atype: nat, payload: seq<byte>)

  /** A decoded `ifaddrmsg`: its family, the name `if_indextoname` gives its
      interface index, and its attributes in message order. */
  datatype AddrMsg = AddrMsg(family: nat, ifname: string, attrs: seq<Attr>)

  /** A netlink message as `nl_msg_cb` sees it. */
  datatype NlMsg = NlMsg(msgType: nat, body: AddrMsg)

  /** `af_addr_size`: the size of the family's address structure, UINT_MAX for
      any other family. */
  function AfAddrSize(family: nat): (size: nat)
    ensures size != 0
    ensures size == 4 <==> family == AF_INET
    ensures size == 16 <==> family == AF_INET6
  {
    if family == AF_INET then 4
    else if family == AF_INET6 then 16
    else UINT_MAX
  }

  /** Only the two address families have a size an address can have; every
      other family gets UINT_MAX, more than the 16-bit length field of a
      netlink attribute can describe. (The model does not bound payload
      lengths; an address taken for such a family changes no record.) */
  lemma AddrSizeByFamily(family: nat)
    ensures AfAddrSize(family) == 4 <==> family == AF_INET
    ensures AfAddrSize(family) == 16 <==> family == AF_INET6
    ensures family != AF_INET && family != AF_INET6 ==> AfAddrSize(family) > 65535
  {
  }

  /** `mnl_attr_type_valid(attr, RTA_MAX) > 0`. */
  predicate TypeValid(abi: Abi, a: Attr) {
    a.atype <= abi.rtaMax
  }

  /** An attribute the attribute loop takes as the local address: a valid
      type, IFA_LOCAL, and a payload of exactly the family's address size. */
  predicate IsLocalAttr(abi: Abi, family: nat, a: Attr) {
    TypeValid(abi, a) && a.atype == abi.ifaLocal && |a.payload| == AfAddrSize(family)
  }

  /** The payload the attribute loop leaves in `addr`: that of the last
      attribute taken as the local address. */
  function LastLocal(abi: Abi, family: nat, attrs: seq<Attr>): (r: Option<seq<byte>>)
    ensures r.Some? ==> |r.value| == AfAddrSize(family)
  {
    if |attrs| == 0 then None
    else if IsLocalAttr(abi, family, attrs[|attrs| - 1]) then Some(attrs[|attrs| - 1].payload)
    else LastLocal(abi, family, attrs[..|attrs| - 1])
  }

  function LocalAddr(abi: Abi, msg: AddrMsg): Option<seq<byte>> {
    LastLocal(abi, msg.family, msg.attrs)
  }

  /** The attribute loop finds nothing exactly when no attribute qualifies, and
      otherwise keeps the payload of the last qualifying one. */
  lemma {:induction false} LocalAddrIsLastMatch(abi: Abi, family: nat, attrs: seq<Attr>)
    ensures LastLocal(abi, family, attrs).None? <==> forall k :: 0 <= k < |attrs| ==> !IsLocalAttr(abi, family, attrs[k])
    ensures LastLocal(abi, family, attrs).Some? ==>
      exists k :: (0 <= k < |attrs| && IsLocalAttr(abi, family, attrs[k])
                   && attrs[k].payload == LastLocal(abi, family, attrs).value
                   && forall j :: k < j < |attrs| ==> !IsLocalAttr(abi, family, attrs[j]))
  {
    if |attrs| > 0 {
      var init := attrs[..|attrs| - 1];
      LocalAddrIsLastMatch(abi, family, init);
      if !IsLocalAttr(abi, family, attrs[|attrs| - 1]) {
        assert forall k :: 0 <= k < |init| ==> init[k] == attrs[k];
        if LastLocal(abi, family, init).Some? {
          var k :| 0 <= k < |init| && IsLocalAttr(abi, family, init[k])
            && init[k].payload == LastLocal(abi, family, init).value
            && forall j :: k < j < |init| ==> !IsLocalAttr(abi, family, init[j]);
          assert attrs[k] == init[k];
        }
      }
    }
  }

  /** The attribute loop of `parse_addr_msg`. */
  method FindLocalAddr(abi: Abi, msg: AddrMsg) returns (addr: Option<seq<byte>>)
    ensures addr == LocalAddr(abi, msg)
    ensures addr.Some? ==> |addr.value| == AfAddrSize(msg.family)
  {
    var addrsize := AfAddrSize(msg.family);
    addr := None;
    var i := 0;
    while i < |msg.attrs|
      invariant 0 <= i <= |msg.attrs|
      invariant addr == LastLocal(abi, msg.family, msg.attrs[..i])
    {
      var a := msg.attrs[i];
      if a.atype <= abi.rtaMax {
        if a.atype == abi.ifaLocal {
          if |a.payload| == addrsize {
            addr := Some(a.payload);
          }
        }
      }
      assert msg.attrs[..i + 1][..i] == msg.attrs[..i];
      i := i + 1;
    }
    assert msg.attrs[..i] == msg.attrs;
  }

  // ---------------------------------------------------------------------------
  // The payload check as libmnl performs it

  /** `mnl_attr_validate2(attr, MNL_TYPE_BINARY, len) >= 0`: libmnl refuses a
      payload shorter than the expected length, and, when that length is
      nonzero, one longer than it. */
  predicate Validate2Binary(payload: seq<byte>, expLen: nat) {
    |payload| >= expLen && (expLen == 0 || |payload| <= expLen)
  }

  /** The attribute loop of `parse_addr_msg` as written, with libmnl's check
      applied to the family's address size. */
  function LastLocalLibmnl(abi: Abi, family: nat, attrs: seq<Attr>): Option<seq<byte>> {
    if |attrs| == 0 then None
    else if TypeValid(abi, attrs[|attrs| - 1]) && attrs[|attrs| - 1].atype == abi.ifaLocal
            && Validate2Binary(attrs[|attrs| - 1].payload, AfAddrSize(family))
    then Some(attrs[|attrs| - 1].payload)
    else LastLocalLibmnl(abi, family, attrs[..|attrs| - 1])
  }

  /** `af_addr_size` is never zero, so libmnl's check is an exact-length
      check: the loop as written takes exactly what `LastLocal` takes, and the
      `memcpy` of `addrsize` bytes never reads past the payload. */
  lemma {:induction false} LibmnlCheckIsExactLength(abi: Abi, family: nat, attrs: seq<Attr>)
    ensures LastLocalLibmnl(abi, family, attrs) == LastLocal(abi, family, attrs)
  {
    if |attrs| > 0 {
      LibmnlCheckIsExactLength(abi, family, attrs[..|attrs| - 1]);
    }
  }

  // ---------------------------------------------------------------------------
  // Applying the address to the records

  /** The first n characters of a name, as far as it goes. */
  function Take(s: string, n: nat): string {
    if |s| <= n then s else s[..n]
  }

  /** `strncmp(if_stat->ifname, ifname, IF_NAMESIZE) == 0` on NUL-free names. */
  predicate NameMatches(recName: string, ifname: string) {
    Take(recName, IF_NAMESIZE) == Take(ifname, IF_NAMESIZE)
  }

  /** Kernel interface names are shorter than IF_NAMESIZE, so for them the
      bounded comparison is plain equality. */
  lemma KernelNameMatchIsEquality(recName: string, ifname: string)
    requires |ifname| < IF_NAMESIZE
    ensures NameMatches(recName, ifname) <==> recName == ifname
  {
  }

  /** The loop body of `parse_addr_msg` for one record: a matching record of
      family AF_INET or AF_INET6 whose address of that family is unset or
      different takes the new address, sets its flag and re-arms its timer. */
  function IngestRecord(rec: Record, family: nat, ifname: string, addr: seq<byte>, now: real): (r: Record)
    requires |addr| == AfAddrSize(family)
    ensures SameConfig(r, rec) && SameDns(r, rec)
    ensures r != rec ==> NameMatches(rec.ifname, ifname) && r.timeout == rec.timeout.Again(now)
  {
    if !NameMatches(rec.ifname, ifname) then rec
    else if family == AF_INET then
      if !rec.localIpSet || rec.localIp != addr
      then rec.(localIp := addr, localIpSet := true, timeout := rec.timeout.Again(now))
      else rec
    else if family == AF_INET6 then
      if !rec.localIp6Set || rec.localIp6 != addr
      then rec.(localIp6 := addr, localIp6Set := true, timeout := rec.timeout.Again(now))
      else rec
    else rec
  }

  /** `parse_addr_msg` on a list of records. */
  function ApplyAddrMsg(records: seq<Record>, abi: Abi, msg: AddrMsg, now: real): (r: seq<Record>)
    ensures |r| == |records|
  {
    match LocalAddr(abi, msg)
    case None => records
    case Some(addr) =>
      seq(|records|, i requires 0 <= i < |records| => IngestRecord(records[i], msg.family, msg.ifname, addr, now))
  }

  /** `nl_msg_cb`: only RTM_NEWADDR reaches `parse_addr_msg`. */
  function ApplyNlMsg(records: seq<Record>, abi: Abi, msg: NlMsg, now: real): (r: seq<Record>)
    ensures |r| == |records|
  {
    if msg.msgType == abi.rtmNewAddr then ApplyAddrMsg(records, abi, msg.body, now) else records
  }

  /** A new IPv4 address for a matching record is stored, its flag set, and its
      timer re-armed to expire DEBOUNCE after now, replacing any earlier
      deadline; the IPv6 side, the DNS side and the configuration stay. */
  lemma NewAddressStored(rec: Record, ifname: string, addr: Addr4, now: real)
    requires RecordInv(rec) && NameMatches(rec.ifname, ifname)
    requires !rec.localIpSet || rec.localIp != addr
    ensures var r := IngestRecord(rec, AF_INET, ifname, addr, now);
      r.localIp == addr && r.localIpSet && r.timeout.deadline == Some(now + DEBOUNCE)
      && r.localIp6 == rec.localIp6 && r.localIp6Set == rec.localIp6Set
      && SameDns(r, rec) && SameConfig(r, rec)
  {
  }

  /** The same for a new IPv6 address. */
  lemma NewAddress6Stored(rec: Record, ifname: string, addr: Addr6, now: real)
    requires RecordInv(rec) && NameMatches(rec.ifname, ifname)
    requires !rec.localIp6Set || rec.localIp6 != addr
    ensures var r := IngestRecord(rec, AF_INET6, ifname, addr, now);
      r.localIp6 == addr && r.localIp6Set && r.timeout.deadline == Some(now + DEBOUNCE)
      && r.localIp == rec.localIp && r.localIpSet == rec.localIpSet
      && SameDns(r, rec) && SameConfig(r, rec)
  {
  }

  /** An IPv4 address that changes and changes back before the timer fires
      leaves the record as it was, with its timer re-armed at the second
      change. */
  lemma ChangeAndRevertRearms(rec: Record, ifname: string, a: Addr4, now1: real, now2: real)
    requires NameMatches(rec.ifname, ifname) && rec.localIpSet && a != rec.localIp
    ensures IngestRecord(IngestRecord(rec, AF_INET, ifname, a, now1), AF_INET, ifname, rec.localIp, now2)
         == rec.(timeout := rec.timeout.Again(now2))
  {
  }

  /** An address equal to the one already stored for its family changes
      nothing, the timer included; so does any family but the two. */
  lemma KnownAddressIgnored(rec: Record, family: nat, ifname: string, addr: seq<byte>, now: real)
    requires |addr| == AfAddrSize(family)
    requires (family == AF_INET ==> rec.localIpSet && rec.localIp == addr)
    requires (family == AF_INET6 ==> rec.localIp6Set && rec.localIp6 == addr)
    ensures IngestRecord(rec, family, ifname, addr, now) == rec
  {
  }

  /** Whatever the message, a record keeps its configuration and DNS side,
      and a record whose name does not match is left exactly as it was. */
  lemma IngestTouchesOnlyLocalSide(rec: Record, family: nat, ifname: string, addr: seq<byte>, now: real)
    requires |addr| == AfAddrSize(family)
    ensures var r := IngestRecord(rec, family, ifname, addr, now);
      SameConfig(r, rec) && SameDns(r, rec)
      && (family != AF_INET ==> r.localIp == rec.localIp && r.localIpSet == rec.localIpSet)
      && (family != AF_INET6 ==> r.localIp6 == rec.localIp6 && r.localIp6Set == rec.localIp6Set)
      && (!NameMatches(rec.ifname, ifname) ==> r == rec)
  {
  }

  /** Messages other than RTM_NEWADDR, messages without a usable IFA_LOCAL and
      messages of another family leave every record as it was. */
  lemma IgnoredMessages(records: seq<Record>, abi: Abi, msg: NlMsg, now: real)
    requires msg.msgType != abi.rtmNewAddr
          || LocalAddr(abi, msg.body).None?
          || (msg.body.family != AF_INET && msg.body.family != AF_INET6)
    ensures ApplyNlMsg(records, abi, msg, now) == records
  {
  }

  /** Interface names from the kernel are shorter than IF_NAMESIZE, so with
      distinct record names at most one record takes the address. */
  lemma AtMostOneRecordChanges(records: seq<Record>, abi: Abi, msg: AddrMsg, now: real, i: nat, j: nat)
    requires |msg.ifname| < IF_NAMESIZE
    requires i < |records| && j < |records|
    requires records[i].ifname != records[j].ifname
    ensures var r := ApplyAddrMsg(records, abi, msg, now);
      r[i] == records[i] || r[j] == records[j]
  {
    KernelNameMatchIsEquality(records[i].ifname, msg.ifname);
    KernelNameMatchIsEquality(records[j].ifname, msg.ifname);
  }

  /** Ingestion keeps the record invariant: a re-armed timer belongs to a
      record that has just stored a local address. */
  lemma IngestKeepsInvariant(records: seq<Record>, abi: Abi, msg: NlMsg, now: real)
    requires forall k :: 0 <= k < |records| ==> RecordInv(records[k])
    ensures var r := ApplyNlMsg(records, abi, msg, now);
      forall k :: 0 <= k < |r| ==> RecordInv(r[k])
  {
  }
}
