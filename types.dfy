/** Shared vocabulary of the daemon: bytes, addresses, the libev timer as seen
    by the daemon, and the per-interface record `interface_status_t`. */
module Types {

  newtype byte = x: int | 0 <= x < 256

  datatype Option<T> = None | Some(value: T) {
    function GetOr(default: T): T {
      match this
      case Some(v) => v
      case None => default
    }
  }

  /** `struct in_addr` and `struct in6_addr`, as their raw bytes. */
  type Addr4 = s: seq<byte> | |s| == 4 witness [0, 0, 0, 0]
  type Addr6 = s: seq<byte> | |s| == 16 witness ZERO6

  const ZERO4: Addr4 := [0, 0, 0, 0]
  const ZERO6: seq<byte> := [0, 0, 0, 0, 0, 0, 0, 0, 0, 0, 0, 0, 0, 0, 0, 0]

  /** Address family numbers as Linux defines them. */
  const AF_UNSPEC: nat := 0
  const AF_INET: nat := 2
  const AF_INET6: nat := 10
  const AF_NETLINK: nat := 16

  /** Repeat interval every record's timer is initialised with; each re-arm
      puts the deadline this far after the current time (the debounce delay). */
  const DEBOUNCE: real := 5.0

  /** An `ev_timer`: its repeat value and, while it is active, its deadline. */
  datatype Timer = Timer(repeat: real, deadline: Option<real>) {

    predicate Active() {
      deadline.Some?
    }

    /** `ev_timer_again`: a repeating timer is (re)started to expire `repeat`
        after `now`, replacing any pending deadline; a non-repeating one is stopped. */
    function Again(now: real): (t: Timer)
      ensures t.repeat == repeat
      ensures repeat > 0.0 ==> t.deadline == Some(now + repeat)
      ensures repeat <= 0.0 ==> !t.Active()
    {
      if repeat > 0.0 then Timer(repeat, Some(now + repeat)) else Timer(repeat, None)
    }

    /** `ev_timer_stop`: the timer no longer has a deadline. */
    function Stop(): (t: Timer)
      ensures t.repeat == repeat && !t.Active()
    {
      Timer(repeat, None)
    }
  }

  /** `ev_timer_init(w, cb, after, repeat)` leaves the watcher inactive. */
  function TimerInit(after: real, repeat: real): (t: Timer)
    ensures t.repeat == repeat && !t.Active()
  {
    Timer(repeat, None)
  }

  /** `interface_status_t`; the `next` link is the position in the engine's sequence. */
  datatype Record = Record(
    timeout: Timer,
    ifname: string,
    url: string,
    login: string,
    password: string,
    domain: string,
    localIp: Addr4,
    dnsIp: Addr4,
    localIp6: Addr6,
    dnsIp6: Addr6,
    localIpSet: bool,
    dnsIpSet: bool,
    localIp6Set: bool,
    dnsIp6Set: bool,
    resolved: bool)

  /** The configuration part of a record, fixed once the record is built. */
  predicate SameConfig(a: Record, b: Record) {
    a.ifname == b.ifname && a.url == b.url && a.login == b.login
    && a.password == b.password && a.domain == b.domain
  }

  /** The interface-side part of a record. */
  predicate SameLocal(a: Record, b: Record) {
    a.localIp == b.localIp && a.localIpSet == b.localIpSet
    && a.localIp6 == b.localIp6 && a.localIp6Set == b.localIp6Set
  }

  /** The DNS-side part of a record. */
  predicate SameDns(a: Record, b: Record) {
    a.dnsIp == b.dnsIp && a.dnsIpSet == b.dnsIpSet
    && a.dnsIp6 == b.dnsIp6 && a.dnsIp6Set == b.dnsIp6Set && a.resolved == b.resolved
  }

  /** What every record keeps from creation on: the debounce repeat value, and
      an active timer only once some local address has been stored. */
  predicate RecordInv(r: Record) {
    r.timeout.repeat == DEBOUNCE
    && (r.timeout.Active() ==> r.localIpSet || r.localIp6Set)
  }

  /** Position of the first occurrence of c in s. */
  function IndexOf(s: string, c: char): (k: nat)
    requires c in s
    ensures k < |s| && s[k] == c && c !in s[..k]
  {
    if s[0] == c then 0
    else
      assert c in s[1..] by { var j :| 0 <= j < |s| && s[j] == c; assert s[1..][j - 1] == c; }
      var k := 1 + IndexOf(s[1..], c);
      assert s[..k] == [s[0]] + s[1..][..k - 1];
      k
  }

  lemma IndexOfFirst(s: string, c: char, k: nat)
    requires k < |s| && s[k] == c && c !in s[..k]
    ensures IndexOf(s, c) == k
  {
  }
}
