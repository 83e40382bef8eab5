/** The result of `getaddrinfo` for the configured domain, as both variants of
    `resolve_domain` read it. */
module Resolver {
  import opened Types

  /** One entry of the `addrinfo` list: an IPv4 or IPv6 socket address, or an
      entry of some other family, which both variants skip. */
  datatype AddrInfo = InetAddr(addr: Addr4) | Inet6Addr(addr6: Addr6) | OtherFamily(family: nat)

  /** `getaddrinfo` either fails with a nonzero code or returns the list. */
  datatype Resolution = ResolveFailed(code: int) | Resolved(list: seq<AddrInfo>)

  /** The IPv4 address a walk over the list leaves behind: the last one. */
  function LastInet(list: seq<AddrInfo>): Option<Addr4> {
    if |list| == 0 then None
    else if list[|list| - 1].InetAddr? then Some(list[|list| - 1].addr)
    else LastInet(list[..|list| - 1])
  }

  /** The IPv6 address a walk over the list leaves behind: the last one. */
  function LastInet6(list: seq<AddrInfo>): Option<Addr6> {
    if |list| == 0 then None
    else if list[|list| - 1].Inet6Addr? then Some(list[|list| - 1].addr6)
    else LastInet6(list[..|list| - 1])
  }

  /** LastInet finds an address exactly when the list holds an IPv4 entry,
      and then it is the entry no later IPv4 entry follows. */
  lemma {:induction false} LastInetIsLastEntry(list: seq<AddrInfo>)
    ensures LastInet(list).None? <==> forall k :: 0 <= k < |list| ==> !list[k].InetAddr?
    ensures LastInet(list).Some? ==>
      exists k :: (0 <= k < |list| && list[k] == InetAddr(LastInet(list).value)
                   && forall j :: k < j < |list| ==> !list[j].InetAddr?)
  {
    if |list| > 0 {
      var n := |list| - 1;
      var init := list[..n];
      LastInetIsLastEntry(init);
      if list[n].InetAddr? {
        assert list[n] == InetAddr(LastInet(list).value);
      } else {
        assert LastInet(list) == LastInet(init);
        assert forall k :: 0 <= k < n ==> init[k] == list[k];
        if LastInet(init).Some? {
          var k :| 0 <= k < n && init[k] == InetAddr(LastInet(init).value)
            && forall j :: k < j < n ==> !init[j].InetAddr?;
          assert list[k] == InetAddr(LastInet(list).value);
          assert forall j :: k < j < |list| ==> !list[j].InetAddr?;
        }
      }
    }
  }

  /** LastInet6 finds an address exactly when the list holds an IPv6 entry,
      and then it is the entry no later IPv6 entry follows. */
  lemma {:induction false} LastInet6IsLastEntry(list: seq<AddrInfo>)
    ensures LastInet6(list).None? <==> forall k :: 0 <= k < |list| ==> !list[k].Inet6Addr?
    ensures LastInet6(list).Some? ==>
      exists k :: (0 <= k < |list| && list[k] == Inet6Addr(LastInet6(list).value)
                   && forall j :: k < j < |list| ==> !list[j].Inet6Addr?)
  {
    if |list| > 0 {
      var n := |list| - 1;
      var init := list[..n];
      LastInet6IsLastEntry(init);
      if list[n].Inet6Addr? {
        assert list[n] == Inet6Addr(LastInet6(list).value);
      } else {
        assert LastInet6(list) == LastInet6(init);
        assert forall k :: 0 <= k < n ==> init[k] == list[k];
        if LastInet6(init).Some? {
          var k :| 0 <= k < n && init[k] == Inet6Addr(LastInet6(init).value)
            && forall j :: k < j < n ==> !init[j].Inet6Addr?;
          assert list[k] == Inet6Addr(LastInet6(list).value);
          assert forall j :: k < j < |list| ==> !list[j].Inet6Addr?;
        }
      }
    }
  }

  /** Extending the walk by one entry: how the last address of each family evolves. */
  lemma LastStep(list: seq<AddrInfo>, k: nat)
    requires k < |list|
    ensures LastInet(list[..k + 1]) == if list[k].InetAddr? then Some(list[k].addr) else LastInet(list[..k])
    ensures LastInet6(list[..k + 1]) == if list[k].Inet6Addr? then Some(list[k].addr6) else LastInet6(list[..k])
  {
    assert list[..k + 1][..k] == list[..k];
  }
}
