/** The newer `resolve_domain` and `perform_ddns_update` of net.c: a resolve
    records which families the domain has and sets `resolved`, and a confirmed
    update keeps the DNS flags in step with the local ones. */
module Net {
  import opened Types
  import opened Resolver
  import opened Ddns

  /** The record after the newer `resolve_domain`. */
  function Resolved(rec: Record, res: Resolution): Record {
    match res
    case ResolveFailed(_) => rec
    case Resolved(list) =>
      rec.(dnsIp := LastInet(list).GetOr(rec.dnsIp), dnsIpSet := LastInet(list).Some?,
           dnsIp6 := LastInet6(list).GetOr(rec.dnsIp6), dnsIp6Set := LastInet6(list).Some?,
           resolved := true)
  }

  /** The newer `resolve_domain`: on success clears both DNS flags, walks the
      result list setting the address and flag of each entry's family, then
      sets `resolved`; on failure does nothing. */
  method ResolveDomain(rec: Record, res: Resolution) returns (r: Record)
    ensures r == Resolved(rec, res)
  {
    r := rec;
    if res.Resolved? {
      r := r.(dnsIpSet := false, dnsIp6Set := false);
      var i := 0;
      while i < |res.list|
        invariant 0 <= i <= |res.list|
        invariant r == rec.(dnsIp := LastInet(res.list[..i]).GetOr(rec.dnsIp),
                            dnsIpSet := LastInet(res.list[..i]).Some?,
                            dnsIp6 := LastInet6(res.list[..i]).GetOr(rec.dnsIp6),
                            dnsIp6Set := LastInet6(res.list[..i]).Some?)
      {
        LastStep(res.list, i);
        var entry := res.list[i];
        if entry.InetAddr? {
          r := r.(dnsIp := entry.addr, dnsIpSet := true);
        } else if entry.Inet6Addr? {
          r := r.(dnsIp6 := entry.addr6, dnsIp6Set := true);
        }
        i := i + 1;
      }
      assert res.list[..i] == res.list;
      r := r.(resolved := true);
    }
  }

  /** A successful resolve sets a family's flag iff the result holds an entry
      of that family, whose last such entry is then the DNS address; a family
      the result lacks keeps its old address bytes under a cleared flag;
      `resolved` becomes true. A failed resolve changes nothing. Neither
      touches the local side or the configuration. */
  lemma ResolveRecordsFamilies(rec: Record, res: Resolution)
    ensures var r := Resolved(rec, res);
      SameLocal(r, rec) && SameConfig(r, rec) && r.timeout == rec.timeout
    ensures res.ResolveFailed? ==> Resolved(rec, res) == rec
    ensures res.Resolved? ==> Resolved(rec, res).resolved
    ensures res.Resolved? ==>
      (Resolved(rec, res).dnsIpSet <==> exists k :: 0 <= k < |res.list| && res.list[k].InetAddr?)
    ensures res.Resolved? ==>
      (Resolved(rec, res).dnsIp6Set <==> exists k :: 0 <= k < |res.list| && res.list[k].Inet6Addr?)
    ensures res.Resolved? && !Resolved(rec, res).dnsIpSet ==> Resolved(rec, res).dnsIp == rec.dnsIp
    ensures res.Resolved? && !Resolved(rec, res).dnsIp6Set ==> Resolved(rec, res).dnsIp6 == rec.dnsIp6
    ensures res.Resolved? && Resolved(rec, res).dnsIpSet ==>
      exists k :: (0 <= k < |res.list| && res.list[k] == InetAddr(Resolved(rec, res).dnsIp)
                   && forall j :: k < j < |res.list| ==> !res.list[j].InetAddr?)
    ensures res.Resolved? && Resolved(rec, res).dnsIp6Set ==>
      exists k :: (0 <= k < |res.list| && res.list[k] == Inet6Addr(Resolved(rec, res).dnsIp6)
                   && forall j :: k < j < |res.list| ==> !res.list[j].Inet6Addr?)
  {
    if res.Resolved? {
      LastInetIsLastEntry(res.list);
      LastInet6IsLastEntry(res.list);
    }
  }

  /** The record after the newer `perform_ddns_update`: on a confirmed update
      each set local address is copied and each DNS flag takes the value of
      the local one. */
  function Updated(rec: Record, t: Transfer): Record {
    if UpdateConfirmed(t) then
      rec.(dnsIp := if rec.localIpSet then rec.localIp else rec.dnsIp,
           dnsIpSet := rec.localIpSet,
           dnsIp6 := if rec.localIp6Set then rec.localIp6 else rec.dnsIp6,
           dnsIp6Set := rec.localIp6Set)
    else rec
  }

  /** The newer `perform_ddns_update`. */
  method PerformUpdate(rec: Record, text: AddrText, t: Transfer) returns (r: Record, url: string)
    ensures r == Updated(rec, t)
    ensures url == Snprintf(RequestUrl(rec, text), UrlBufferSize(rec))
  {
    url := Snprintf(RequestUrl(rec, text), UrlBufferSize(rec));
    r := rec;
    var confirmed := Exchange(t);
    if confirmed {
      if r.localIpSet {
        r := r.(dnsIp := r.localIp);
      }
      r := r.(dnsIpSet := r.localIpSet);
      if r.localIp6Set {
        r := r.(dnsIp6 := r.localIp6);
      }
      r := r.(dnsIp6Set := r.localIp6Set);
    }
  }

  /** After a confirmed update the DNS side mirrors the local side: the flags
      are equal and every set family holds the local address; a rejected reply
      or a failed transfer changes nothing; the local side, the configuration
      and `resolved` are never touched. */
  lemma UpdateSyncsDnsWithLocal(rec: Record, t: Transfer)
    ensures var r := Updated(rec, t);
      SameLocal(r, rec) && SameConfig(r, rec) && r.timeout == rec.timeout && r.resolved == rec.resolved
    ensures UpdateConfirmed(t) ==>
      var r := Updated(rec, t);
      r.dnsIpSet == r.localIpSet && r.dnsIp6Set == r.localIp6Set
      && (r.localIpSet ==> r.dnsIp == r.localIp) && (r.localIp6Set ==> r.dnsIp6 == r.localIp6)
      && (!r.localIpSet ==> r.dnsIp == rec.dnsIp) && (!r.localIp6Set ==> r.dnsIp6 == rec.dnsIp6)
    ensures !UpdateConfirmed(t) ==> Updated(rec, t) == rec
  {
  }
}
