# nlddcd in Dafny

nlddcd is a dynamic-DNS client for Linux. It listens on a netlink socket for
address changes of configured interfaces. It joins only the IPv4 address
group and its initial dump asks only for IPv4 addresses. When an interface
gets a new IPv4 address the daemon arms a five-second debounce timer for that
interface.
When the timer fires, the daemon resolves the interface's domain if a DNS
address is still unknown. If the local and DNS addresses differ, it sends a
dyndns2 update request (`<url>?hostname=<domain>&myip=<v4>,<v6>`) and
believes the server only when the reply starts with the word `good` or
`nochg`.

This project models that core and proves properties of it:

- `Types` (types.dfy) holds the per-interface record `interface_status_t` as a
  datatype. It also holds the libev timer, seen as a repeat value plus an
  optional deadline, and the Linux address-family numbers.
- `Conf` (conf.dfy) models configuration loading:
  - the check that every interface section has `url`, `login`, `password`
    and `domain`;
  - the parse result;
  - building the record list, where each record is prepended;
  - `read_config`.
- `Ingest` (ingest.dfy) covers `af_addr_size`, the attribute loop of
  `parse_addr_msg`, the per-record update it performs, and `nl_msg_cb`.
- `Resolver`, `Ddns`, `LegacyNet` and `Net` cover the two variants of
  `resolve_domain` and `perform_ddns_update`:
  - `LegacyNet` is the older one, in nlddcd.c. It is the pair that
    nlddcd.c's `timeout_cb` calls. `Net` is the newer one in net.c.
    Nothing in the modelled files calls it.
  - `Ddns` holds the shared request URL and its `myip` value.
  - `Ddns` also holds the 256-byte response buffer that `curl_recv_cb`
    fills, as a class over an `array<char>`, and the reply classification.
- `Timeout` (timeout.dfy) gives `timeout_cb` as a function of the record and
  the outside world's answers, together with properties over event sequences.
  Its `Legacy` variant is `timeout_cb` as written. Its `Current` variant keeps
  the same guard and comparison but calls net.c's pair instead.
- `Daemon` (engine.dfy) holds the record list as the field of a class. Its
  methods `OnNetlinkMsg`, `ParseAddrMsg` and `OnTimeout` update that field in
  place and are proved against `Ingest` and `Timeout`.
- `NlLookup`, `NlFlags` and `NlAddr` model the debugging formatters of
  nlutils.c:
  - the code-to-name switches;
  - the `strcat` flag lists;
  - the colon-separated hex form of a link-layer address.

The outside world enters as parameters:

- the resolver result (`Resolution`);
- how the HTTP transfer ended and the chunks it delivered (`Transfer`);
- the text `inet_ntop` produced (`AddrText`);
- the current time;
- the kernel's numeric constants (`Abi`, `NlmsgAbi`, and the code and mask
  sequences of the formatters).

The daemon does none of the following, so neither does the model:

- retries or back-off after a failed update;
- handling of RTM_DELADDR;
- filtering by address scope or by temporary flag;
- skipping the update when no local address is known.

## Model

| member | source | states |
|---|---|---|
| Types.TimerInit | conf.c:76 | A freshly initialised watcher is inactive and keeps the given repeat value. |
| Types.Timer.Again | nlddcd.c:402 | Re-arming a repeating timer sets its deadline to now plus the repeat and replaces any pending one. |
| Types.Timer.Stop | nlddcd.c:223 | A stopped timer has no deadline and keeps its repeat value. |
| Conf.ValidateInterfaceConfig | conf.c:15-31 | Reports exactly the missing sub-options, in declaration order. Accepts the section iff none is missing. |
| Conf.CompleteIffAllPresent | conf.c:36-41 | A section is complete iff each of the four declared sub-options is present. |
| Conf.MissingNamesExact | conf.c:22-28 | A sub-option name is reported iff that sub-option is absent. |
| Conf.ValidationFailsIffSomeMissing | conf.c:15-31 | Rejection happens exactly when the report is non-empty. |
| Conf.ParseConfig | conf.c:34-62 | Parsing succeeds iff the file was read and parsed, every section validated, and titles are distinct. The result keeps the sections' order, and each entry carries its section's title, url, login, password and domain. |
| Conf.NewRecord | conf.c:72-83 | A new record has the section's title and options, all addresses zero, all flags false, and an inactive timer with the 5-second repeat. It satisfies the record invariant. |
| Conf.PrepareInterfaceStatus | conf.c:65-88 | One record per section, prepended, so the list holds the sections in reverse order. |
| Conf.ReadConfig | conf.c:91-101 | Returns true iff parsing succeeded. Only then is the list replaced by the new records. |
| Conf.PreparedNamesDistinct | conf.c:45 | Because titles are unique, the record names are pairwise distinct and equal to the titles in reverse order. |
| Conf.PreparedRecordsValid | conf.c:76 | Every freshly loaded record satisfies the record invariant and has an inactive timer. |
| Resolver.LastInetIsLastEntry | nlddcd.c:196-205 | The walk over the result list finds an IPv4 address iff one is listed. That address is the last IPv4 entry. |
| Resolver.LastInet6IsLastEntry | nlddcd.c:196-205 | The same for IPv6 entries. |
| Ddns.Snprintf | nlddcd.c:113-117 | Formatting into a buffer keeps a prefix shorter than the buffer, and keeps all of the text when it fits. |
| Ddns.UrlNeverTruncated | net.c:59-80 | With texts as long as `inet_ntop` can make them, the URL fits its `url + domain + 128` byte buffer and is never cut. |
| Ddns.MyIpRoundTrip | nlddcd.c:102-117 | Splitting the `myip` value gives back exactly the families whose local flag is set, each with its own text. |
| Ddns.Append | nlddcd.c:78-89 | The kept body stays below the 256-byte buffer size. |
| Ddns.Collect | net.c:25-36 | After any number of chunks the kept body is below the buffer size. |
| Ddns.CollectKeepsLeadingBytes | nlddcd.c:78-89 | The bounded appends keep exactly the first 255 bytes of the whole reply, or all of it when it is shorter. |
| Ddns.ResponseBuffer.constructor | nlddcd.c:100-134 | A fresh buffer of 256 bytes with length zero. |
| Ddns.ResponseBuffer.Receive | net.c:25-36 | Copies as much of the chunk as fits while keeping a terminator byte. Earlier bytes are unchanged. Reports the whole chunk as consumed. |
| Ddns.ResponseBuffer.CheckReply | nlddcd.c:140-151 | Terminates the body and cuts it at its first non-alphanumeric byte. Answers whether the remaining string is "good" or "nochg". |
| Ddns.AlnumRun | nlddcd.c:143-148 | The loop stops at the first non-alphanumeric byte; all bytes before it are alphanumeric. |
| Ddns.StrcmpAtTerminator | nlddcd.c:150-151 | `strcmp` against a word compares exactly the bytes before the first NUL. |
| Ddns.ReplyAcceptedIffLeadingWord | net.c:105-114 | A reply is accepted iff it begins with the whole word "good" or "nochg". |
| Ddns.Exchange | nlddcd.c:121-163 | The update is confirmed iff the transfer completed and the kept reply is accepted. |
| Ingest.AfAddrSize | nlddcd.c:246-256 | The size is never zero. It is 4 exactly for AF_INET and 16 exactly for AF_INET6. |
| Ingest.AddrSizeByFamily | nlddcd.c:246-256 | The size is 4 exactly for AF_INET and 16 exactly for AF_INET6. Any other family gets a size above 65535, more than a 16-bit attribute length can describe. |
| Ingest.LastLocal | nlddcd.c:359-369 | A found address has exactly the family's address size. |
| Ingest.LocalAddrIsLastMatch | nlddcd.c:359-369 | The attribute loop finds nothing iff no attribute is a valid IFA_LOCAL of the right size. Otherwise it keeps the last such payload. |
| Ingest.FindLocalAddr | nlddcd.c:359-369 | The loop computes the last qualifying payload, which has the family's address size. |
| Ingest.LibmnlCheckIsExactLength | nlddcd.c:359-369 | With libmnl's binary check (neither shorter than the expected length nor, when it is nonzero, longer), the attribute loop as written takes exactly what the exact-length loop takes, since `af_addr_size` is never zero; the `memcpy` never reads past the payload. |
| Ingest.KernelNameMatchIsEquality | nlddcd.c:377 | For names shorter than IF_NAMESIZE the bounded comparison is plain equality. |
| Ingest.ApplyAddrMsg | nlddcd.c:373-406 | Handling an address message keeps the number of records. |
| Ingest.ApplyNlMsg | nlddcd.c:410-419 | Handling any netlink message keeps the number of records. |
| Ingest.IngestRecord | nlddcd.c:376-403 | One record's step of `parse_addr_msg` keeps the configuration and the DNS side. A record that changes at all has a matching name and has its timer re-armed at now. |
| Ingest.NewAddressStored | nlddcd.c:381-402 | A new or changed IPv4 address of a matching record is stored and its flag set. The timer is re-armed to now + 5 s. The IPv6 side, DNS side and configuration are kept. |
| Ingest.NewAddress6Stored | nlddcd.c:386-402 | The same for IPv6. |
| Ingest.ChangeAndRevertRearms | nlddcd.c:394-402 | An IPv4 address that changes and changes back before the timer fires leaves the record as it was, with the timer re-armed at the second change. |
| Ingest.KnownAddressIgnored | nlddcd.c:390-394 | An address equal to the stored one changes nothing, the timer included. A family other than the two changes nothing. |
| Ingest.IngestTouchesOnlyLocalSide | nlddcd.c:377-404 | Every record keeps its configuration and DNS side. Only the message's family changes. A record whose name does not match is untouched. |
| Ingest.IgnoredMessages | nlddcd.c:410-419 | Non-RTM_NEWADDR messages, messages without a usable IFA_LOCAL, and other families leave all records as they were. |
| Ingest.AtMostOneRecordChanges | nlddcd.c:376-377 | With distinct record names and a kernel-length interface name, at most one record takes the address. |
| Ingest.IngestKeepsInvariant | nlddcd.c:394-402 | Records keep the invariant that an active timer implies a stored local address. |
| LegacyNet.ResolveDomain | nlddcd.c:185-215 | The loop leaves each family's DNS address at its last result entry, then sets both flags. |
| LegacyNet.ResolveMarksBothKnown | nlddcd.c:185-215 | Both DNS flags are set even when the lookup fails. On success each family holds its last listed address, or keeps the old bytes when none is listed. Nothing else changes. |
| LegacyNet.PerformUpdate | nlddcd.c:92-182 | Sends the formatted URL. On a confirmed reply copies the set local addresses to the DNS side. |
| LegacyNet.UpdateEffect | nlddcd.c:150-162 | A confirmed update makes each set family's DNS address equal to the local one and keeps all flags. A rejected or failed update changes nothing. |
| Net.ResolveDomain | net.c:141-176 | The loop clears both flags, then sets each family's address and flag from its last result entry, then sets `resolved`. A failed lookup changes nothing. |
| Net.ResolveRecordsFamilies | net.c:141-176 | A family's flag is set iff the result lists it, with its last entry as the address. A missing family keeps its bytes under a cleared flag. `resolved` becomes true. |
| Net.PerformUpdate | net.c:54-138 | Sends the formatted URL. On a confirmed reply copies set addresses and sets each DNS flag equal to the local flag. |
| Net.UpdateSyncsDnsWithLocal | net.c:113-127 | After a confirmed update, the DNS flags equal the local ones and each set family holds the local address. Otherwise nothing changes. |
| Timeout.Fire | nlddcd.c:218-243 | `timeout_cb` resolves iff a DNS flag is false, and leaves the timer stopped with its repeat kept. |
| Timeout.ResolveUpdateFrame | net.c:54-176 | Neither variant of resolve or update touches the timer, the local side or the configuration. |
| Timeout.FireStopsTimer | nlddcd.c:223 | After a firing the timer is stopped with its repeat kept, so there is no retry. The local side is unchanged. |
| Timeout.ResolveOnlyWhenFlagMissing | nlddcd.c:225-227 | The domain is resolved iff a DNS flag is false. Otherwise the resolver result does not matter. |
| Timeout.UpdateIffBytesDiffer | nlddcd.c:229-242 | An update is requested iff the raw bytes of a family differ after the resolve. The local flags play no part. |
| Timeout.CheckedIgnoresLocalFlags | nlddcd.c:229-238 | The compared addresses do not depend on the local `_set` flags. |
| Timeout.FireKeepsInvariant | nlddcd.c:218-243 | A firing keeps the record invariant. |
| Timeout.ArmedFireNeverSendsEmptyMyIp | nlddcd.c:102-117 | A timer that fires was armed by a stored address, so the `myip` value is never empty. |
| Timeout.ConfirmedUpdateQuietsNextFire | nlddcd.c:225-242 | After a confirmed update with both families set, DNS equals local. When the timer is later re-armed with the addresses unchanged, its firing neither resolves nor updates. |
| Timeout.RequestFromFiredRecord | nlddcd.c:102-117 | The request a firing sends is formatted from the fired record's own URL, domain and local addresses; resolving does not change its `myip` value. |
| Timeout.UnsetIpv6AlwaysDiffers | nlddcd.c:229-242 | With the IPv6 side never stored, a domain whose resolved IPv6 address is not zero gets an update request at every firing. The update leaves the IPv6 DNS address as it was, so the next firing differs again. |
| Timeout.Ipv4EventsKeepIpv6Unset | nlddcd.c:386-402 | Over any sequence whose address events are IPv4, as the daemon's subscription delivers, the IPv6 side stays unset and zero. |
| Timeout.LegacyFlagsStaySet | nlddcd.c:213-214 | In the older variant, after a firing both DNS flags are set and no event clears them. |
| Timeout.LegacyResolvesAtMostOnce | nlddcd.c:225-227 | In the older variant, a domain is resolved at most once over any event sequence. |
| Timeout.CurrentResolvesAgainWhileFamilyMissing | net.c:152-167 | With nlddcd.c's `timeout_cb` guard in front of net.c's `resolve_domain`, a domain without AAAA entries is resolved again at every firing while the interface has no IPv6 address. |
| Daemon.StopAndResolve | nlddcd.c:221-227 | Stops the timer and resolves exactly when a DNS flag is false. |
| Daemon.TimeoutBody | nlddcd.c:218-243 | Computes the record, the resolve decision and the request of one firing, as `Timeout.Fire` specifies. |
| Daemon.Engine.OnNetlinkMsg | nlddcd.c:410-419 | The record list becomes the result of ingesting the message, and the record invariant is kept. |
| Daemon.Engine.ParseAddrMsg | nlddcd.c:341-407 | The records loop updates the list in place exactly as per-record ingestion specifies. |
| Daemon.Engine.OnTimeout | nlddcd.c:218-243 | Fires only an active timer whose deadline has come. Replaces only that record by the outcome of `timeout_cb` and keeps the invariant. The request is formatted from the record's own URL, domain and addresses, and its `myip` value is never empty when the address texts are not. |
| NlLookup.Lookup | nlutils.c:22-56 | A switch returns the name of the first matching label, and "unknown" when no label matches. When no name is "unknown", it returns "unknown" iff no label matches. |
| NlLookup.LookupSwitch | nlutils.c:22-56 | With distinct labels each code maps to its own name. "unknown" comes back exactly for unlisted values. |
| NlLookup.NlFamily2Str | nlutils.c:12-20 | AF_NETLINK is named. Any other family is "unknown". |
| NlLookup.NlmsgType2Str | nlutils.c:22-56 | Each of the 14 message types maps to its name. "unknown" is returned iff the type is unlisted. |
| NlLookup.RtmFamily2Str | nlutils.c:110-120 | AF_INET and AF_INET6 are named. Any other family is "unknown". |
| NlLookup.RtmTable2Str | nlutils.c:122-138 | Each of the 5 reserved tables maps to its name, otherwise "unknown". |
| NlLookup.RtmProtocol2Str | nlutils.c:140-178 | Each of the 16 protocols maps to its name, otherwise "unknown". |
| NlLookup.RtmScope2Str | nlutils.c:180-196 | Each of the 5 scopes maps to its name, otherwise "unknown". |
| NlLookup.RtmType2Str | nlutils.c:198-228 | Each of the 12 route types maps to its name, otherwise "unknown". |
| NlLookup.RtmRtaType2Str | nlutils.c:248-306 | Each of the 26 route attributes maps to its name, otherwise "unknown". |
| NlLookup.RtaPref2Str | nlutils.c:308-322 | Each of the 4 router preferences maps to its name, otherwise "unknown". |
| NlLookup.IfiFamily2Str | nlutils.c:324-332 | AF_UNSPEC is named. Any other family is "unknown". |
| NlLookup.IflaRtaType2Str | nlutils.c:334-428 | Each of the 44 link attributes maps to its name, otherwise "unknown". |
| NlLookup.IfaFamily2Str | nlutils.c:442-452 | AF_INET and AF_INET6 are named. Any other family is "unknown". |
| NlLookup.IfaRtaType2Str | nlutils.c:454-478 | Each of the 9 address attributes maps to its name, otherwise "unknown". |
| NlFlags.RenderStep | nlutils.c:485-487 | One `if (flags & MASK) strcat` step appends "NAME " exactly when the flag is set. |
| NlFlags.SelectedPositions | nlutils.c:485-520 | The output holds one token per set flag, and each set flag's name sits right after those of the set flags declared before it. |
| NlFlags.StrcatFlags | nlutils.c:480-523 | The buffer is the names of the set flags, each followed by a space, in declaration order. |
| NlFlags.RtmFlags2Str | nlutils.c:230-246 | The rendered RTM_F_* names of the set flags. |
| NlFlags.IfaFlags2Str | nlutils.c:480-523 | The rendered IFA_F_* names of the set flags. |
| NlFlags.FlagsOutput | nlutils.c:480-523 | With distinct space-free names, a name is a token of the output iff its flag is set. The output is empty iff no flag is set. |
| NlFlags.RtmTableWellFormed | nlutils.c:235-244 | The three RTM_F_* names are distinct and contain no spaces. |
| NlFlags.IfaTableDistinct | nlutils.c:485-520 | The twelve IFA_F_* names are distinct. |
| NlFlags.IfaTableTokens | nlutils.c:485-520 | No IFA_F_* name contains a space. |
| NlFlags.IfaFlagsOutput | nlutils.c:480-523 | An IFA_F_* name appears in the output iff its bit is set. The output is empty iff no bit is. |
| NlFlags.RtmFlagsOutput | nlutils.c:230-246 | An RTM_F_* name appears in the output iff its bit is set. The output is empty iff no bit is. |
| NlFlags.FlagBuffersSuffice | nlutils.c:480-523 | Both outputs, terminator included, fit in their 1024-byte static buffers. |
| NlFlags.NlmsgFlags2Str | nlutils.c:58-108 | The output is the general flags, then the GET flags for GET types, else the NEW flags for NEW types. |
| NlFlags.NlmsgBufferSuffices | nlutils.c:58-108 | The output, terminator included, fits the 1024-byte static buffer for every flag word and message type. |
| NlFlags.NlmsgCommonFirst | nlutils.c:63-80 | The six general flags come first whatever the message type. |
| NlFlags.NlmsgTablesDisjoint | nlutils.c:63-104 | No name is in two of the three tables. |
| NlFlags.NlmsgTypedFlags | nlutils.c:81-105 | ROOT, MATCH and ATOMIC are shown only for GET types, and REPLACE, EXCL, CREATE and APPEND only for non-GET NEW types. In each case a name is shown iff its bit is set. |
| NlFlags.NlmsgCommonFlags | nlutils.c:63-80 | Each general flag's name is shown iff its bit is set, whatever the message type. |
| NlFlags.NlmsgEmptyIffNoFlag | nlutils.c:58-108 | The output is empty iff no bit tested for the message type is set: the general bits, plus the GET or NEW bits when the type is one of those. |
| NlFlags.OverlapRenderedByType | nlutils.c:81-105 | With the kernel's shared bits, one bit is named ROOT/MATCH/ATOMIC on a GET message and REPLACE/EXCL/CREATE on a NEW message, never both. |
| NlAddr.Hex2 | nlutils.c:435 | `%02x` of a byte is two characters. |
| NlAddr.HexColonLength | nlutils.c:435-438 | The text is three characters per byte less one. |
| NlAddr.IflaAddr2Str | nlutils.c:430-440 | The loop builds the colon-separated hex text of the address, 3n-1 characters long, which fits the 1024-byte buffer. |
| NlAddr.HexValueDigit | nlutils.c:435 | Each lower-case hex digit reads back as its value. |
| NlAddr.ParseHex2 | nlutils.c:435-437 | `%02x` of a byte reads back as that byte. |
| NlAddr.HexColonRoundTrip | nlutils.c:430-440 | Reading the text back gives exactly the address bytes. |
| NlAddr.HexColonInjective | nlutils.c:430-440 | Different addresses give different texts. |

## Left out

- Event loop, sockets and library calls. The libev loop, the netlink socket
  (opening, binding, the address dump request, receiving and splitting
  datagrams), `curl` option setting, `getaddrinfo` and `inet_ntop` are
  external. Their results are parameters (`Resolution`, `Transfer`,
  `AddrText`, the time).
- Program entry and teardown. Signal handling, `main`, the command line,
  logging and error printing, and `cleanup_config` are not modelled.
- `if_indextoname`. The interface name is part of the decoded message. A
  failed lookup, which would leave the name buffer uninitialised, is not
  modelled.
- Linked list. The record list is a sequence in list order. The `next`
  pointer and `container_of` are replaced by positions. Aliasing between
  records cannot occur in the model.
- Numeric kernel constants. The values of RTM_NEWADDR, IFA_LOCAL, RTA_MAX,
  the NLM_F_*, RTM_F_* and IFA_F_* masks and the switch case labels come
  from the Linux headers. They are parameters, so each formatter is proved
  for any distinct values.
- Attribute type masking. `mnl_attr_get_type` masks the NLA_F_NESTED and
  NLA_F_NET_BYTEORDER bits. The attribute type in the model is the type
  after masking.
- `parse_addr_attr_cb` and the `mnl_attr_parse` call are disabled in the
  source, so they are not modelled.
- Static formatter buffers. Each formatter returns a pointer into a static
  buffer that the next call overwrites. The model returns fresh strings, so
  that reuse is not captured.
- `NlFlags.StrcatFlags`: the source unrolls one `if (flags & MASK)
  strcat(...)` per flag. The model runs the same tests in the same order as
  one loop over a mask/name table.
- `NlAddr.IflaAddr2Str` requires 1 to 341 bytes. The source reads `addr[0]`
  even for an empty address and would overflow its 1024-byte buffer beyond
  341 bytes. The source checks neither case, and no caller in the
  repository uses this formatter.
- `Ingest.AtMostOneRecordChanges` assumes the message's interface name is
  shorter than IF_NAMESIZE, as kernel names are. Under the bounded
  `strncmp`, two configured names that agree in their first 16 characters
  would both match.
- C integer widths are not modelled. No arithmetic in the core can
  overflow for the lengths involved.
- Textual form of `inet_ntop`. Only its bounds (15 and 45 characters) and
  its shape (dots for IPv4, colons for IPv6) are assumed.
- `Ingest.IngestRecord` and `Ingest.NewAddress6Stored` model the AF_INET6
  branch of `parse_addr_msg`, which the daemon never feeds. It joins only
  RTNLGRP_IPV4_IFADDR (nlddcd.c:461) and dumps only AF_INET (nlddcd.c:451).
  So the local IPv6 side stays zero and unset for the whole run
  (`Timeout.Ipv4EventsKeepIpv6Unset`). For a domain with an AAAA record,
  every firing sees differing IPv6 bytes and requests an update
  (`Timeout.UnsetIpv6AlwaysDiffers`, `Timeout.UpdateIffBytesDiffer`).
- `Timeout.CurrentResolvesAgainWhileFamilyMissing` and the other `Current`
  variant lemmas pair net.c's functions with nlddcd.c's `timeout_cb`. The
  callback that goes with net.c is not part of this model: nlddcd.c includes
  only conf.h and calls its own pair. The `resolved` flag that net.c sets is
  never read anywhere.
- Response bytes as characters. `curl_recv_cb` copies raw bytes. The model
  keeps them as `char` in `Ddns.ResponseBuffer`, which holds one character per
  byte.
- `Ddns.IsAlnum` is `isalnum` in the C locale. The program never calls
  `setlocale`, so no other locale applies.
