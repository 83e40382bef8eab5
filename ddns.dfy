/** The dyndns2 update exchange shared by both variants of `perform_ddns_update`:
    the request URL with its `myip=` query, the bounded response buffer filled by
    `curl_recv_cb`, and the classification of the reply ("good" or "nochg"). */
module Ddns {
  import opened Types

  // ---------------------------------------------------------------------------
  // Request URL

  /** Text forms `inet_ntop` produced for the record's local addresses. */
  datatype AddrText = AddrText(ip: string, ip6: string)

  /** What `inet_ntop` guarantees: the text fits INET_ADDRSTRLEN (16) and
      INET6_ADDRSTRLEN (46) bytes including the terminator. */
  predicate TextFits(text: AddrText) {
    |text.ip| <= 15 && |text.ip6| <= 45
  }

  /** The value of the `myip` parameter: the IPv4 text if set, a comma only when
      both families are set, then the IPv6 text if set. */
  function MyIp(rec: Record, text: AddrText): string {
    var nAddrs := (if rec.localIpSet then 1 else 0) + (if rec.localIp6Set then 1 else 0);
    (if rec.localIpSet then text.ip else "")
    + (if nAddrs > 1 then "," else "")
    + (if rec.localIp6Set then text.ip6 else "")
  }

  /** `"%s?hostname=%s&myip=%s%s%s"` before it is written into the buffer. */
  function RequestUrl(rec: Record, text: AddrText): string {
    rec.url + "?hostname=" + rec.domain + "&myip=" + MyIp(rec, text)
  }

  /** Size of the buffer the URL is formatted into. */
  function UrlBufferSize(rec: Record): nat {
    |rec.url| + |rec.domain| + 128
  }

  /** `snprintf` into a buffer of `size` bytes keeps at most size - 1 characters. */
  function Snprintf(s: string, size: nat): (r: string)
    requires size >= 1
    ensures |r| < size && r <= s
    ensures |s| < size ==> r == s
  {
    if |s| < size then s else s[..size - 1]
  }

  /** The part of the URL after url and domain is at most 16 + 15 + 1 + 45 = 77
      characters, so the `url + domain + 128` byte buffer never truncates it. */
  lemma UrlNeverTruncated(rec: Record, text: AddrText)
    requires TextFits(text)
    ensures |RequestUrl(rec, text)| <= |rec.url| + |rec.domain| + 77
    ensures Snprintf(RequestUrl(rec, text), UrlBufferSize(rec)) == RequestUrl(rec, text)
  {
    assert |MyIp(rec, text)| <= 15 + 1 + 45;
  }

  /** How a reader of the query splits the `myip` value: at the comma when there
      is one, otherwise by whether the single address contains a colon. */
  function ParseMyIp(v: string): (Option<string>, Option<string>) {
    if ',' in v then
      var k := IndexOf(v, ',');
      (Some(v[..k]), Some(v[k + 1..]))
    else if v == [] then (None, None)
    else if ':' in v then (None, Some(v))
    else (Some(v), None)
  }

  /** Texts as `inet_ntop` writes them: a dotted quad has neither comma nor
      colon, an IPv6 text has a colon and no comma. */
  predicate NtopShaped(text: AddrText) {
    |text.ip| > 0 && ',' !in text.ip && ':' !in text.ip
    && ',' !in text.ip6 && ':' in text.ip6
  }

  /** Round trip: the `myip` value names exactly the families whose local
      address is set, each with its own text. */
  lemma MyIpRoundTrip(rec: Record, text: AddrText)
    requires NtopShaped(text)
    ensures ParseMyIp(MyIp(rec, text))
         == (if rec.localIpSet then Some(text.ip) else None, if rec.localIp6Set then Some(text.ip6) else None)
  {
    var v := MyIp(rec, text);
    if rec.localIpSet && rec.localIp6Set {
      assert v == text.ip + "," + text.ip6;
      assert v[|text.ip|] == ',';
      assert v[..|text.ip|] == text.ip;
      IndexOfFirst(v, ',', |text.ip|);
      assert v[|text.ip| + 1..] == text.ip6;
    } else if rec.localIpSet {
      assert v == text.ip;
    } else if rec.localIp6Set {
      assert v == text.ip6;
    } else {
      assert v == "";
    }
  }

  // ---------------------------------------------------------------------------
  // Response buffer

  /** `sizeof response->data`. */
  const RESPONSE_SIZE: nat := 256

  function Min(a: nat, b: nat): nat {
    if a <= b then a else b
  }

  /** The body kept after one more chunk is offered to `curl_recv_cb`. */
  function Append(body: seq<char>, chunk: seq<char>): (r: seq<char>)
    requires |body| < RESPONSE_SIZE
    ensures |r| < RESPONSE_SIZE
  {
    body + chunk[..Min(|chunk|, RESPONSE_SIZE - 1 - |body|)]
  }

  /** The whole reply as the server sent it, chunk after chunk. */
  function Flatten(chunks: seq<seq<char>>): seq<char> {
    if |chunks| == 0 then [] else Flatten(chunks[..|chunks| - 1]) + chunks[|chunks| - 1]
  }

  /** The body kept after every chunk has been offered to `curl_recv_cb`. */
  function Collect(chunks: seq<seq<char>>): (r: seq<char>)
    ensures |r| < RESPONSE_SIZE
  {
    if |chunks| == 0 then [] else Append(Collect(chunks[..|chunks| - 1]), chunks[|chunks| - 1])
  }

  /** The bounded appends keep exactly the first 255 bytes of the reply (all
      of it when it is shorter); nothing is reordered or dropped before that. */
  lemma {:induction false} CollectKeepsLeadingBytes(chunks: seq<seq<char>>)
    ensures Collect(chunks) == Flatten(chunks)[..Min(|Flatten(chunks)|, RESPONSE_SIZE - 1)]
  {
    if |chunks| > 0 {
      var init, last := chunks[..|chunks| - 1], chunks[|chunks| - 1];
      CollectKeepsLeadingBytes(init);
      var f := Flatten(init);
      var c := Collect(init);
      assert Flatten(chunks) == f + last;
      if |f| >= RESPONSE_SIZE - 1 {
        assert c == f[..RESPONSE_SIZE - 1];
        assert Collect(chunks) == c;
        assert (f + last)[..RESPONSE_SIZE - 1] == f[..RESPONSE_SIZE - 1];
      } else {
        assert c == f;
        var n := Min(|last|, RESPONSE_SIZE - 1 - |f|);
        assert Collect(chunks) == f + last[..n];
        assert (f + last)[..|f| + n] == f + last[..n];
      }
    }
  }

  /** `response_t`: a 256-byte buffer and the number of bytes received. */
  class ResponseBuffer {
    const data: array<char>
    var length: nat

    ghost predicate Valid()
      reads this
    {
      data.Length == RESPONSE_SIZE && length < RESPONSE_SIZE
    }

    /** The bytes received so far. */
    ghost function Body(): seq<char>
      reads this, data
      requires Valid()
    {
      data[..length]
    }

    /** The buffer `malloc`ed for one request, with `length` reset to zero. */
    constructor ()
      ensures Valid() && fresh(data) && length == 0
    {
      data := new char[RESPONSE_SIZE];
      length := 0;
    }

    /** `curl_recv_cb`: copies as much of the chunk as fits while keeping one
        byte for the terminator, leaves earlier bytes alone, and reports the
        whole chunk as consumed so the transfer is never aborted. */
    method Receive(chunk: seq<char>) returns (consumed: nat)
      requires Valid()
      modifies this`length, data
      ensures Valid()
      ensures consumed == |chunk|
      ensures length == old(length) + Min(|chunk|, RESPONSE_SIZE - 1 - old(length))
      ensures Body() == Append(old(Body()), chunk)
    {
      consumed := |chunk|;
      var free := RESPONSE_SIZE - length - 1;
      var n := Min(consumed, free);
      forall k | 0 <= k < n {
        data[length + k] := chunk[k];
      }
      length := length + n;
    }

    /** Terminates the body, cuts it at its first non-alphanumeric byte and
        compares what is left with "good" and "nochg", as `strcmp` does. */
    method CheckReply() returns (accepted: bool)
      requires Valid()
      modifies data
      ensures Valid() && length == old(length)
      ensures accepted == ReplyAccepted(old(Body()))
      ensures data[length] == '\0'
      ensures Body() == Truncated(old(Body()))
    {
      ghost var body := Body();
      data[length] := '\0';
      var i := 0;
      while i < length
        invariant 0 <= i <= length
        invariant forall k :: 0 <= k < i ==> IsAlnum(data[k])
        invariant data[..length] == body
        invariant data[length] == '\0'
      {
        if !IsAlnum(data[i]) {
          data[i] := '\0';
          break;
        }
        i := i + 1;
      }
      AlnumRunUnique(body, i);
      assert data[..length] == Truncated(body);
      assert data[..i] == body[..i];
      accepted := StrcmpEqual(data[..], "good") || StrcmpEqual(data[..], "nochg");
      StrcmpAtTerminator(data[..], i, "good");
      StrcmpAtTerminator(data[..], i, "nochg");
    }
  }

  // ---------------------------------------------------------------------------
  // Reply classification

  /** `isalnum` in the C locale. */
  predicate IsAlnum(c: char) {
    ('0' <= c <= '9') || ('A' <= c <= 'Z') || ('a' <= c <= 'z')
  }

  /** Length of the reply's leading run of alphanumeric bytes. */
  function AlnumRun(s: seq<char>): (n: nat)
    ensures n <= |s|
    ensures forall k :: 0 <= k < n ==> IsAlnum(s[k])
    ensures n < |s| ==> !IsAlnum(s[n])
  {
    if |s| == 0 || !IsAlnum(s[0]) then 0 else 1 + AlnumRun(s[1..])
  }

  lemma AlnumRunUnique(s: seq<char>, n: nat)
    requires n <= |s|
    requires forall k :: 0 <= k < n ==> IsAlnum(s[k])
    requires n < |s| ==> !IsAlnum(s[n])
    ensures AlnumRun(s) == n
  {
  }

  /** The body after the loop: its first non-alphanumeric byte, if any, is NUL. */
  function Truncated(body: seq<char>): seq<char> {
    var n := AlnumRun(body);
    if n < |body| then body[n := '\0'] else body
  }

  /** The update is confirmed iff the reply's leading alphanumeric word is
      "good" or "nochg". */
  predicate ReplyAccepted(body: seq<char>) {
    var word := body[..AlnumRun(body)];
    word == "good" || word == "nochg"
  }

  /** `strcmp(buf, w) == 0` for a NUL-free word w. */
  predicate StrcmpEqual(buf: seq<char>, w: string) {
    |w| < |buf| && buf[..|w|] == w && buf[|w|] == '\0'
  }

  lemma StrcmpAtTerminator(buf: seq<char>, i: nat, w: string)
    requires i < |buf| && buf[i] == '\0'
    requires forall k :: 0 <= k < i ==> buf[k] != '\0'
    requires forall k :: 0 <= k < |w| ==> w[k] != '\0'
    ensures StrcmpEqual(buf, w) <==> buf[..i] == w
  {
  }

  /** The reply starts with word w, which is followed by its end or by a
      byte that is not alphanumeric. */
  predicate StartsWithWord(body: seq<char>, w: string) {
    |w| <= |body| && body[..|w|] == w && (|w| == |body| || !IsAlnum(body[|w|]))
  }

  /** An independent reading of the reply convention: accepted iff the reply
      begins with the word "good" or the word "nochg". */
  lemma ReplyAcceptedIffLeadingWord(body: seq<char>)
    ensures ReplyAccepted(body) <==> StartsWithWord(body, "good") || StartsWithWord(body, "nochg")
  {
    LeadingWord(body, "good");
    LeadingWord(body, "nochg");
  }

  lemma LeadingWord(body: seq<char>, w: string)
    requires forall k :: 0 <= k < |w| ==> IsAlnum(w[k])
    ensures body[..AlnumRun(body)] == w <==> StartsWithWord(body, w)
  {
    if StartsWithWord(body, w) {
      AlnumRunUnique(body, |w|);
    }
  }

  // ---------------------------------------------------------------------------
  // The exchange

  /** How the libcurl part of an update ended: `curl_easy_init` failed, the
      transfer failed with a nonzero CURLcode, or it completed and delivered
      the reply to the write callback in these chunks. */
  datatype Transfer = InitFailed | TransportError(code: nat) | Completed(chunks: seq<seq<char>>)

  /** The update is confirmed: the transfer completed and the kept body is an
      accepted reply. */
  predicate UpdateConfirmed(t: Transfer) {
    t.Completed? && ReplyAccepted(Collect(t.chunks))
  }

  /** Runs the exchange: feeds each delivered chunk to the write callback of a
      fresh response buffer, then checks the reply. */
  method Exchange(t: Transfer) returns (confirmed: bool)
    ensures confirmed == UpdateConfirmed(t)
  {
    confirmed := false;
    if t.Completed? {
      var response := new ResponseBuffer();
      var i := 0;
      while i < |t.chunks|
        invariant 0 <= i <= |t.chunks|
        invariant fresh(response.data)
        invariant response.Valid()
        invariant response.Body() == Collect(t.chunks[..i])
      {
        var _ := response.Receive(t.chunks[i]);
        assert t.chunks[..i + 1][..i] == t.chunks[..i];
        i := i + 1;
      }
      assert t.chunks[..i] == t.chunks;
      confirmed := response.CheckReply();
    }
  }
}
