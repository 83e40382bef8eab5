/** The daemon's state: the list of interface records, changed in place by the
    netlink callback and by the timer callback of one record. The position of a
    record in the sequence stands for the pointer `container_of` recovers. */
module Daemon {
  import opened Types
  import opened Resolver
  import opened Ddns
  import opened Ingest
  import opened Timeout
  import LegacyNet
  import Net

  /** The first half of `timeout_cb` on one record: stops its timer and
      resolves the domain when a DNS flag is false. */
  method StopAndResolve(rec0: Record, v: Variant, res: Resolution) returns (rec: Record, resolveCalled: bool)
    ensures rec == Checked(v, rec0, res)
    ensures resolveCalled == NeedsResolve(rec0)
  {
    rec := rec0.(timeout := rec0.timeout.Stop());
    resolveCalled := false;
    if !rec.dnsIpSet || !rec.dnsIp6Set {
      resolveCalled := true;
      match v {
        case Legacy => rec := LegacyNet.ResolveDomain(rec, res);
        case Current => rec := Net.ResolveDomain(rec, res);
      }
    }
  }

  /** The body of `timeout_cb` on one record: after the stop and the resolve,
      compares the raw addresses of each family and performs the update when
      either differs. */
  method TimeoutBody(rec0: Record, v: Variant, res: Resolution, t: Transfer, text: AddrText)
      returns (rec: Record, resolveCalled: bool, request: Option<string>)
    ensures rec == Fire(v, rec0, res, t, text).rec
    ensures resolveCalled == Fire(v, rec0, res, t, text).resolveCalled
    ensures request == Fire(v, rec0, res, t, text).request
  {
    var updateRequired := false;
    rec, resolveCalled := StopAndResolve(rec0, v, res);

    if rec.localIp != rec.dnsIp {
      updateRequired := true;
    }
    if rec.localIp6 != rec.dnsIp6 {
      updateRequired := true;
    }

    request := None;
    if updateRequired {
      var url;
      match v {
        case Legacy => rec, url := LegacyNet.PerformUpdate(rec, text, t);
        case Current => rec, url := Net.PerformUpdate(rec, text, t);
      }
      request := Some(url);
    }
  }

  class Engine {
    var records: seq<Record>

    ghost predicate Valid()
      reads this
    {
      forall k :: 0 <= k < |records| ==> RecordInv(records[k])
    }

    /** The engine over the list `read_config` built. */
    constructor (head: seq<Record>)
      requires forall k :: 0 <= k < |head| ==> RecordInv(head[k])
      ensures Valid() && records == head
    {
      records := head;
    }

    /** `nl_msg_cb`: RTM_NEWADDR goes to `parse_addr_msg`, anything else is
        ignored. */
    method OnNetlinkMsg(abi: Abi, msg: NlMsg, now: real)
      requires Valid()
      modifies this
      ensures Valid()
      ensures records == ApplyNlMsg(old(records), abi, msg, now)
    {
      if msg.msgType == abi.rtmNewAddr {
        ParseAddrMsg(abi, msg.body, now);
      }
      IngestKeepsInvariant(old(records), abi, msg, now);
    }

    /** `parse_addr_msg`: finds the local address among the attributes, then
        walks the records, and a matching record of the message's family whose
        address is unset or different takes the new bytes, sets its flag and
        re-arms its timer. */
    method ParseAddrMsg(abi: Abi, msg: AddrMsg, now: real)
      modifies this
      ensures records == ApplyAddrMsg(old(records), abi, msg, now)
    {
      var addr := FindLocalAddr(abi, msg);
      if addr.Some? {
        var a := addr.value;
        var i := 0;
        while i < |records|
          invariant 0 <= i <= |records| == |old(records)|
          invariant forall k :: 0 <= k < i ==> records[k] == IngestRecord(old(records)[k], msg.family, msg.ifname, a, now)
          invariant forall k :: i <= k < |records| ==> records[k] == old(records)[k]
        {
          var rec := records[i];
          if NameMatches(rec.ifname, msg.ifname) {
            if msg.family == AF_INET {
              if !rec.localIpSet || rec.localIp != a {
                rec := rec.(localIp := a, localIpSet := true);
                rec := rec.(timeout := rec.timeout.Again(now));
              }
            } else if msg.family == AF_INET6 {
              if !rec.localIp6Set || rec.localIp6 != a {
                rec := rec.(localIp6 := a, localIp6Set := true);
                rec := rec.(timeout := rec.timeout.Again(now));
              }
            }
          }
          records := records[i := rec];
          i := i + 1;
        }
      }
    }

    /** `timeout_cb` for the record at index i, the record `container_of`
        finds from the watcher. libev calls it only for an active timer whose
        deadline has come. The request carries the record's own URL, domain
        and addresses, and its `myip` value is never empty. */
    method OnTimeout(i: nat, now: real, v: Variant, res: Resolution, t: Transfer, text: AddrText)
        returns (resolveCalled: bool, request: Option<string>)
      requires Valid() && i < |records|
      requires records[i].timeout.Active() && records[i].timeout.deadline.value <= now
      modifies this
      ensures Valid()
      ensures records == old(records)[i := Fire(v, old(records)[i], res, t, text).rec]
      ensures resolveCalled == Fire(v, old(records)[i], res, t, text).resolveCalled
      ensures request == Fire(v, old(records)[i], res, t, text).request
      ensures request.Some? ==>
        request.value == Snprintf(RequestUrl(old(records)[i], text), UrlBufferSize(old(records)[i]))
      ensures |text.ip| > 0 && |text.ip6| > 0 ==> |MyIp(old(records)[i], text)| > 0
    {
      var rec;
      rec, resolveCalled, request := TimeoutBody(records[i], v, res, t, text);
      FireKeepsInvariant(v, records[i], res, t, text);
      RequestFromFiredRecord(v, records[i], res, t, text);
      if |text.ip| > 0 && |text.ip6| > 0 {
        ArmedFireNeverSendsEmptyMyIp(v, records[i], res, text);
      }
      records := records[i := rec];
    }
  }
}
