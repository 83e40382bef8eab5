/** The older `resolve_domain` and `perform_ddns_update` kept in nlddcd.c: the
    resolve marks both DNS families as known even when the lookup fails, and
    a confirmed update copies the set local addresses without touching flags. */
module LegacyNet {
  import opened Types
  import opened Resolver
  import opened Ddns

  /** The record after the older `resolve_domain`. */
  function Resolved(rec: Record, res: Resolution): Record {
    match res
    case ResolveFailed(_) => rec.(dnsIpSet := true, dnsIp6Set := true)
    case Resolved(list) =>
      rec.(dnsIp := LastInet(list).GetOr(rec.dnsIp), dnsIp6 := LastInet6(list).GetOr(rec.dnsIp6),
           dnsIpSet := true, dnsIp6Set := true)
  }

  /** The older `resolve_domain`: walks the result list overwriting the DNS
      address of each entry's family, then sets both flags, whatever happened. */
  method ResolveDomain(rec: Record, res: Resolution) returns (r: Record)
    ensures r == Resolved(rec, res)
  {
    r := rec;
    if res.Resolved? {
      var i := 0;
      while i < |res.list|
        invariant 0 <= i <= |res.list|
        invariant r == rec.(dnsIp := LastInet(res.list[..i]).GetOr(rec.dnsIp),
                            dnsIp6 := LastInet6(res.list[..i]).GetOr(rec.dnsIp6))
      {
        LastStep(res.list, i);
        var entry := res.list[i];
        if entry.InetAddr? {
          r := r.(dnsIp := entry.addr);
        } else if entry.Inet6Addr? {
          r := r.(dnsIp6 := entry.addr6);
        }
        i := i + 1;
      }
      assert res.list[..i] == res.list;
    }
    r := r.(dnsIpSet := true, dnsIp6Set := true);
  }

  /** After the older resolve both DNS flags are set, even on failure; on
      success each family's DNS address is the last one of that family in the
      result, or stays as it was when the result has none; nothing else changes. */
  lemma ResolveMarksBothKnown(rec: Record, res: Resolution)
    ensures var r := Resolved(rec, res);
      r.dnsIpSet && r.dnsIp6Set && r.resolved == rec.resolved
      && SameLocal(r, rec) && SameConfig(r, rec) && r.timeout == rec.timeout
    ensures res.ResolveFailed? ==> Resolved(rec, res).dnsIp == rec.dnsIp && Resolved(rec, res).dnsIp6 == rec.dnsIp6
    ensures res.Resolved? ==>
      (exists k :: 0 <= k < |res.list| && res.list[k] == InetAddr(Resolved(rec, res).dnsIp)
                   && forall j :: k < j < |res.list| ==> !res.list[j].InetAddr?)
      || ((forall k :: 0 <= k < |res.list| ==> !res.list[k].InetAddr?) && Resolved(rec, res).dnsIp == rec.dnsIp)
    ensures res.Resolved? ==>
      (exists k :: 0 <= k < |res.list| && res.list[k] == Inet6Addr(Resolved(rec, res).dnsIp6)
                   && forall j :: k < j < |res.list| ==> !res.list[j].Inet6Addr?)
      || ((forall k :: 0 <= k < |res.list| ==> !res.list[k].Inet6Addr?) && Resolved(rec, res).dnsIp6 == rec.dnsIp6)
  {
    if res.Resolved? {
      LastInetIsLastEntry(res.list);
      LastInet6IsLastEntry(res.list);
    }
  }

  /** The record after the older `perform_ddns_update`: on a confirmed update
      each set local address is copied to its DNS counterpart. */
  function Updated(rec: Record, t: Transfer): Record {
    if UpdateConfirmed(t) then
      rec.(dnsIp := if rec.localIpSet then rec.localIp else rec.dnsIp,
           dnsIp6 := if rec.localIp6Set then rec.localIp6 else rec.dnsIp6)
    else rec
  }

  /** The older `perform_ddns_update`: builds the request URL, runs the
      exchange, and on a confirmed reply copies the set local addresses. */
  method PerformUpdate(rec: Record, text: AddrText, t: Transfer) returns (r: Record, url: string)
    ensures r == Updated(rec, t)
    ensures url == Snprintf(RequestUrl(rec, text), UrlBufferSize(rec))
  {
    url := Snprintf(RequestUrl(rec, text), UrlBufferSize(rec));
    r := rec;
    var confirmed := Exchange(t);
    if confirmed {
      if rec.localIpSet {
        r := r.(dnsIp := rec.localIp);
      }
      if rec.localIp6Set {
        r := r.(dnsIp6 := rec.localIp6);
      }
    }
  }

  /** A confirmed update leaves every set local family equal to its DNS
      address, keeps all flags, and changes nothing else; a rejected reply or
      a failed transfer changes nothing at all. */
  lemma UpdateEffect(rec: Record, t: Transfer)
    ensures var r := Updated(rec, t);
      SameLocal(r, rec) && SameConfig(r, rec) && r.timeout == rec.timeout
      && r.dnsIpSet == rec.dnsIpSet && r.dnsIp6Set == rec.dnsIp6Set && r.resolved == rec.resolved
    ensures UpdateConfirmed(t) ==>
      (rec.localIpSet ==> Updated(rec, t).dnsIp == rec.localIp)
      && (rec.localIp6Set ==> Updated(rec, t).dnsIp6 == rec.localIp6)
      && (!rec.localIpSet ==> Updated(rec, t).dnsIp == rec.dnsIp)
      && (!rec.localIp6Set ==> Updated(rec, t).dnsIp6 == rec.dnsIp6)
    ensures !UpdateConfirmed(t) ==> Updated(rec, t) == rec
  {
  }
}
