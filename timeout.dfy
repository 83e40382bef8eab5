/** The decision `timeout_cb` takes when a record's timer fires, for either
    variant of resolve and update, and what follows from it over a sequence of
    events on one record. */
module Timeout {
  import opened Types
  import opened Resolver
  import opened Ddns
  import Ingest
  import LegacyNet
  import Net

  /** Which pair of `resolve_domain` / `perform_ddns_update` the callback runs:
      Legacy is the pair `timeout_cb` calls in nlddcd.c; Current puts the pair
      of net.c behind the same guard and comparison. */
  datatype Variant = Legacy | Current

  function Resolve(v: Variant, rec: Record, res: Resolution): Record {
    match v
    case Legacy => LegacyNet.Resolved(rec, res)
    case Current => Net.Resolved(rec, res)
  }

  function Update(v: Variant, rec: Record, t: Transfer): Record {
    match v
    case Legacy => LegacyNet.Updated(rec, t)
    case Current => Net.Updated(rec, t)
  }

  /** The resolve guard: a DNS family is not known yet. */
  predicate NeedsResolve(rec: Record) {
    !rec.dnsIpSet || !rec.dnsIp6Set
  }

  /** The comparison: the raw local and DNS bytes of either family differ,
      whatever the `_set` flags say. */
  predicate AddressesDiffer(rec: Record) {
    rec.localIp != rec.dnsIp || rec.localIp6 != rec.dnsIp6
  }

  /** What one firing leaves behind: the record, whether the domain was
      resolved, and the URL of the update request when one was made. */
  datatype Outcome = Outcome(rec: Record, resolveCalled: bool, request: Option<string>)

  /** The record as the comparison sees it: timer stopped, domain resolved
      when the guard asks for it. */
  function Checked(v: Variant, rec: Record, res: Resolution): Record {
    var stopped := rec.(timeout := rec.timeout.Stop());
    if NeedsResolve(stopped) then Resolve(v, stopped, res) else stopped
  }

  /** `timeout_cb` for a record, with the resolver result, the update
      transfer and the address texts it would use. */
  function Fire(v: Variant, rec: Record, res: Resolution, t: Transfer, text: AddrText): (o: Outcome)
    ensures o.resolveCalled <==> !rec.dnsIpSet || !rec.dnsIp6Set
    ensures !o.rec.timeout.Active() && o.rec.timeout.repeat == rec.timeout.repeat
  {
    var checked := Checked(v, rec, res);
    ResolveUpdateFrame(v, rec.(timeout := rec.timeout.Stop()), res, t);
    ResolveUpdateFrame(v, checked, res, t);
    if AddressesDiffer(checked) then
      Outcome(Update(v, checked, t), NeedsResolve(rec), Some(Snprintf(RequestUrl(checked, text), UrlBufferSize(checked))))
    else
      Outcome(checked, NeedsResolve(rec), None)
  }

  /** Resolve and update never touch the timer, the local side or the
      configuration. */
  lemma ResolveUpdateFrame(v: Variant, rec: Record, res: Resolution, t: Transfer)
    ensures var r := Resolve(v, rec, res);
      r.timeout == rec.timeout && SameLocal(r, rec) && SameConfig(r, rec)
    ensures var r := Update(v, rec, t);
      r.timeout == rec.timeout && SameLocal(r, rec) && SameConfig(r, rec)
  {
    match v {
      case Legacy =>
        LegacyNet.ResolveMarksBothKnown(rec, res);
        LegacyNet.UpdateEffect(rec, t);
      case Current =>
        Net.ResolveRecordsFamilies(rec, res);
        Net.UpdateSyncsDnsWithLocal(rec, t);
    }
  }

  /** A firing leaves the timer stopped, with its repeat kept: there is no
      automatic retry. The local side and the configuration are unchanged. */
  lemma FireStopsTimer(v: Variant, rec: Record, res: Resolution, t: Transfer, text: AddrText)
    ensures var o := Fire(v, rec, res, t, text);
      !o.rec.timeout.Active() && o.rec.timeout.repeat == rec.timeout.repeat
      && SameLocal(o.rec, rec) && SameConfig(o.rec, rec)
  {
    var stopped := rec.(timeout := rec.timeout.Stop());
    ResolveUpdateFrame(v, stopped, res, t);
    ResolveUpdateFrame(v, Checked(v, rec, res), res, t);
  }

  /** The domain is resolved exactly when a DNS flag is false; otherwise the
      resolver result has no influence on the outcome. */
  lemma ResolveOnlyWhenFlagMissing(v: Variant, rec: Record, res1: Resolution, res2: Resolution, t: Transfer, text: AddrText)
    ensures Fire(v, rec, res1, t, text).resolveCalled <==> !rec.dnsIpSet || !rec.dnsIp6Set
    ensures !NeedsResolve(rec) ==> Fire(v, rec, res1, t, text) == Fire(v, rec, res2, t, text)
  {
  }

  /** An update request is made exactly when, after any resolve, the local
      bytes of a family differ from the DNS bytes; the `_set` flags of the
      local side play no part in that decision. */
  lemma UpdateIffBytesDiffer(v: Variant, rec: Record, res: Resolution, t: Transfer, text: AddrText, set4: bool, set6: bool)
    ensures var c := Checked(v, rec, res);
      Fire(v, rec, res, t, text).request.Some? <==> c.localIp != c.dnsIp || c.localIp6 != c.dnsIp6
    ensures Fire(v, rec.(localIpSet := set4, localIp6Set := set6), res, t, text).request.Some?
         == Fire(v, rec, res, t, text).request.Some?
  {
    CheckedIgnoresLocalFlags(v, rec, res, set4, set6);
  }

  /** What the comparison reads after the resolve does not depend on the
      local `_set` flags. */
  lemma CheckedIgnoresLocalFlags(v: Variant, rec: Record, res: Resolution, set4: bool, set6: bool)
    ensures var c1, c2 := Checked(v, rec, res), Checked(v, rec.(localIpSet := set4, localIp6Set := set6), res);
      c1.localIp == c2.localIp && c1.localIp6 == c2.localIp6 && c1.dnsIp == c2.dnsIp && c1.dnsIp6 == c2.dnsIp6
  {
    var s1 := rec.(timeout := rec.timeout.Stop());
    var s2 := s1.(localIpSet := set4, localIp6Set := set6);
    assert rec.(localIpSet := set4, localIp6Set := set6).(timeout := rec.timeout.Stop()) == s2;
    ResolveUpdateFrame(v, s1, res, InitFailed);
    ResolveUpdateFrame(v, s2, res, InitFailed);
  }

  /** A firing keeps the record invariant. */
  lemma FireKeepsInvariant(v: Variant, rec: Record, res: Resolution, t: Transfer, text: AddrText)
    requires RecordInv(rec)
    ensures RecordInv(Fire(v, rec, res, t, text).rec)
  {
    FireStopsTimer(v, rec, res, t, text);
  }

  /** A timer only fires while active, and an active timer belongs to a record
      with a local address, so the `myip` value of the request is never empty
      when the address texts are not. */
  lemma ArmedFireNeverSendsEmptyMyIp(v: Variant, rec: Record, res: Resolution, text: AddrText)
    requires RecordInv(rec) && rec.timeout.Active()
    requires |text.ip| > 0 && |text.ip6| > 0
    ensures |MyIp(Checked(v, rec, res), text)| > 0
  {
    ResolveUpdateFrame(v, rec.(timeout := rec.timeout.Stop()), res, InitFailed);
  }

  /** The request a firing sends is built from the fired record's own URL,
      domain and local addresses: resolving never changes them. */
  lemma RequestFromFiredRecord(v: Variant, rec: Record, res: Resolution, t: Transfer, text: AddrText)
    ensures MyIp(Checked(v, rec, res), text) == MyIp(rec, text)
    ensures Fire(v, rec, res, t, text).request.Some? ==>
      Fire(v, rec, res, t, text).request.value == Snprintf(RequestUrl(rec, text), UrlBufferSize(rec))
  {
    ResolveUpdateFrame(v, rec.(timeout := rec.timeout.Stop()), res, t);
  }

  /** After a confirmed update every set local family equals its DNS address.
      With both local families set, a later firing of the re-armed timer
      (the addresses unchanged, as after `Ingest.ChangeAndRevertRearms`)
      neither resolves nor updates. */
  lemma ConfirmedUpdateQuietsNextFire(v: Variant, rec: Record, res: Resolution, t: Transfer, text: AddrText,
                                      now: real, res2: Resolution, t2: Transfer, text2: AddrText)
    requires UpdateConfirmed(t)
    requires rec.localIpSet && rec.localIp6Set
    requires Fire(v, rec, res, t, text).request.Some?
    ensures var r := Fire(v, rec, res, t, text).rec;
      r.dnsIp == r.localIp && r.dnsIp6 == r.localIp6 && !NeedsResolve(r)
    ensures var r := Fire(v, rec, res, t, text).rec;
      var o := Fire(v, r.(timeout := r.timeout.Again(now)), res2, t2, text2);
      !o.resolveCalled && o.request.None?
  {
    var c := Checked(v, rec, res);
    ResolveUpdateFrame(v, rec.(timeout := rec.timeout.Stop()), res, t);
    match v {
      case Legacy =>
        LegacyNet.ResolveMarksBothKnown(rec.(timeout := rec.timeout.Stop()), res);
        LegacyNet.UpdateEffect(c, t);
      case Current =>
        Net.UpdateSyncsDnsWithLocal(c, t);
    }
  }

  /** The daemon only hears of IPv4 addresses, so a record's IPv6 side stays
      unset and zero. When the domain's resolved IPv6 address is not zero,
      every firing requests an update, and the update leaves the IPv6 DNS
      address as it was, so the two still differ at the next firing. */
  lemma UnsetIpv6AlwaysDiffers(v: Variant, rec: Record, res: Resolution, t: Transfer, text: AddrText)
    requires rec.localIp6 == ZERO6 && !rec.localIp6Set
    requires Checked(v, rec, res).dnsIp6 != ZERO6
    ensures var o := Fire(v, rec, res, t, text);
      o.request.Some? && o.rec.localIp6 == ZERO6 && !o.rec.localIp6Set
      && o.rec.dnsIp6 == Checked(v, rec, res).dnsIp6
  {
    var c := Checked(v, rec, res);
    ResolveUpdateFrame(v, rec.(timeout := rec.timeout.Stop()), res, t);
    match v {
      case Legacy => LegacyNet.UpdateEffect(c, t);
      case Current => Net.UpdateSyncsDnsWithLocal(c, t);
    }
  }

  // ---------------------------------------------------------------------------
  // Event sequences on one record

  /** Something that happens to a record: a new address from netlink, or the
      timer firing with the results the outside world gives it. */
  datatype Event =
    | AddrEvent(family: nat, ifname: string, addr: seq<byte>, now: real)
    | FireEvent(res: Resolution, t: Transfer, text: AddrText)

  function Step(v: Variant, rec: Record, e: Event): Record {
    match e
    case AddrEvent(family, ifname, addr, now) =>
      if |addr| == Ingest.AfAddrSize(family) then Ingest.IngestRecord(rec, family, ifname, addr, now) else rec
    case FireEvent(res, t, text) => Fire(v, rec, res, t, text).rec
  }

  function Run(v: Variant, rec: Record, events: seq<Event>): Record {
    if |events| == 0 then rec else Step(v, Run(v, rec, events[..|events| - 1]), events[|events| - 1])
  }

  /** How many firings of the sequence resolve the domain. */
  function Resolves(v: Variant, rec: Record, events: seq<Event>): nat {
    if |events| == 0 then 0
    else
      var before := Run(v, rec, events[..|events| - 1]);
      var e := events[|events| - 1];
      Resolves(v, rec, events[..|events| - 1])
      + (if e.FireEvent? && Fire(v, before, e.res, e.t, e.text).resolveCalled then 1 else 0)
  }

  /** In the older variant both DNS flags are set after any firing, and
      neither ingestion nor firing clears them. */
  lemma LegacyFlagsStaySet(rec: Record, e: Event)
    ensures e.FireEvent? ==> !NeedsResolve(Step(Legacy, rec, e))
    ensures !NeedsResolve(rec) ==> !NeedsResolve(Step(Legacy, rec, e))
  {
    match e {
      case AddrEvent(family, ifname, addr, now) =>
        if |addr| == Ingest.AfAddrSize(family) {
          Ingest.IngestTouchesOnlyLocalSide(rec, family, ifname, addr, now);
        }
      case FireEvent(res, t, text) =>
        var c := Checked(Legacy, rec, res);
        if NeedsResolve(rec.(timeout := rec.timeout.Stop())) {
          LegacyNet.ResolveMarksBothKnown(rec.(timeout := rec.timeout.Stop()), res);
        }
        LegacyNet.UpdateEffect(c, t);
    }
  }

  /** In the older variant a domain is resolved at most once over any
      sequence of events, and never when both flags start set. */
  lemma {:induction false} LegacyResolvesAtMostOnce(rec: Record, events: seq<Event>)
    ensures Resolves(Legacy, rec, events) <= 1
    ensures Resolves(Legacy, rec, events) == 1 ==> !NeedsResolve(Run(Legacy, rec, events))
    ensures !NeedsResolve(rec) ==> Resolves(Legacy, rec, events) == 0 && !NeedsResolve(Run(Legacy, rec, events))
  {
    if |events| > 0 {
      var init := events[..|events| - 1];
      var e := events[|events| - 1];
      LegacyResolvesAtMostOnce(rec, init);
      var before := Run(Legacy, rec, init);
      LegacyFlagsStaySet(before, e);
    }
  }

  /** A sequence whose address events are all IPv4, as the daemon's
      subscription delivers, leaves a record's unset IPv6 side unset. */
  lemma {:induction false} Ipv4EventsKeepIpv6Unset(v: Variant, rec: Record, events: seq<Event>)
    requires rec.localIp6 == ZERO6 && !rec.localIp6Set
    requires forall k :: 0 <= k < |events| && events[k].AddrEvent? ==> events[k].family == AF_INET
    ensures Run(v, rec, events).localIp6 == ZERO6 && !Run(v, rec, events).localIp6Set
  {
    if |events| > 0 {
      var init := events[..|events| - 1];
      var e := events[|events| - 1];
      Ipv4EventsKeepIpv6Unset(v, rec, init);
      var before := Run(v, rec, init);
      match e {
        case AddrEvent(family, ifname, addr, now) =>
          if |addr| == Ingest.AfAddrSize(family) {
            Ingest.IngestTouchesOnlyLocalSide(before, family, ifname, addr, now);
          }
        case FireEvent(res, t, text) =>
          FireStopsTimer(v, before, res, t, text);
      }
    }
  }

  /** In the newer variant a domain without an IPv6 entry is resolved again
      at every firing as long as the interface has no IPv6 address. */
  lemma CurrentResolvesAgainWhileFamilyMissing(rec: Record, list: seq<AddrInfo>, t: Transfer, text: AddrText)
    requires NeedsResolve(rec) && !rec.localIp6Set
    requires forall k :: 0 <= k < |list| ==> !list[k].Inet6Addr?
    ensures var o := Fire(Current, rec, Resolution.Resolved(list), t, text);
      NeedsResolve(o.rec) && !o.rec.dnsIp6Set
  {
    var stopped := rec.(timeout := rec.timeout.Stop());
    LastInet6IsLastEntry(list);
    Net.ResolveRecordsFamilies(stopped, Resolution.Resolved(list));
    var c := Checked(Current, rec, Resolution.Resolved(list));
    Net.UpdateSyncsDnsWithLocal(c, t);
  }
}
