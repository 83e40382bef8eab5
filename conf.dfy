/** Configuration loading (conf.c): validation of each `interface` section and
    construction of the list of interface records. */
module Conf {
  import opened Types

  /** One parsed `interface "<title>" { ... }` section; an absent sub-option is None. */
  datatype Section = Section(
    title: string,
    url: Option<string>,
    login: Option<string>,
    password: Option<string>,
    domain: Option<string>)

  /** The sub-options of an interface section, in declaration order. */
  const OPTION_NAMES: seq<string> := ["url", "login", "password", "domain"]

  /** The value of the k-th sub-option of a section. */
  function OptionValue(sec: Section, k: nat): Option<string>
    requires k < |OPTION_NAMES|
  {
    if k == 0 then sec.url
    else if k == 1 then sec.login
    else if k == 2 then sec.password
    else sec.domain
  }

  predicate Complete(sec: Section) {
    sec.url.Some? && sec.login.Some? && sec.password.Some? && sec.domain.Some?
  }

  lemma CompleteIffAllPresent(sec: Section)
    ensures Complete(sec) <==> forall k :: 0 <= k < |OPTION_NAMES| ==> OptionValue(sec, k).Some?
  {
    assert OptionValue(sec, 0) == sec.url && OptionValue(sec, 1) == sec.login;
    assert OptionValue(sec, 2) == sec.password && OptionValue(sec, 3) == sec.domain;
  }

  /** Names of the sub-options among the first n that the section lacks, in order. */
  function MissingAmong(sec: Section, n: nat): seq<string>
    requires n <= |OPTION_NAMES|
  {
    if n == 0 then []
    else MissingAmong(sec, n - 1) + (if OptionValue(sec, n - 1).None? then [OPTION_NAMES[n - 1]] else [])
  }

  function Missing(sec: Section): seq<string> {
    MissingAmong(sec, |OPTION_NAMES|)
  }

  /** `validate_interface_config`: every sub-option is checked and every missing
      one is reported, in declaration order; the section is accepted iff none is. */
  method ValidateInterfaceConfig(sec: Section) returns (ok: bool, reported: seq<string>)
    ensures reported == Missing(sec)
    ensures ok <==> Complete(sec)
    ensures forall k :: 0 <= k < |OPTION_NAMES| ==> (OPTION_NAMES[k] in reported <==> OptionValue(sec, k).None?)
  {
    ok := true;
    reported := [];
    var k := 0;
    while k < |OPTION_NAMES|
      invariant 0 <= k <= |OPTION_NAMES|
      invariant reported == MissingAmong(sec, k)
      invariant ok <==> forall j :: 0 <= j < k ==> OptionValue(sec, j).Some?
    {
      if OptionValue(sec, k).None? {
        reported := reported + [OPTION_NAMES[k]];
        ok := false;
      }
      k := k + 1;
    }
    MissingNamesExact(sec);
    CompleteIffAllPresent(sec);
  }

  /** An option name is reported exactly when that option is absent. */
  lemma MissingNamesExact(sec: Section)
    ensures forall k :: 0 <= k < |OPTION_NAMES| ==> (OPTION_NAMES[k] in Missing(sec) <==> OptionValue(sec, k).None?)
  {
    forall k | 0 <= k < |OPTION_NAMES|
      ensures OPTION_NAMES[k] in Missing(sec) <==> OptionValue(sec, k).None?
    {
      MissingAmongMembers(sec, |OPTION_NAMES|, k);
    }
  }

  lemma {:induction false} MissingAmongMembers(sec: Section, n: nat, k: nat)
    requires n <= |OPTION_NAMES| && k < |OPTION_NAMES|
    ensures OPTION_NAMES[k] in MissingAmong(sec, n) <==> k < n && OptionValue(sec, k).None?
  {
    if n > 0 {
      MissingAmongMembers(sec, n - 1, k);
    }
  }

  /** A section is rejected exactly when at least one sub-option is missing. */
  lemma ValidationFailsIffSomeMissing(sec: Section)
    ensures Complete(sec) <==> Missing(sec) == []
    ensures !Complete(sec) ==> |Missing(sec)| >= 1
  {
    MissingNamesExact(sec);
    CompleteIffAllPresent(sec);
    if Complete(sec) {
      NoneMissingAmong(sec, |OPTION_NAMES|);
    } else {
      var k :| 0 <= k < |OPTION_NAMES| && OptionValue(sec, k).None?;
      assert OPTION_NAMES[k] in Missing(sec);
    }
  }

  lemma {:induction false} NoneMissingAmong(sec: Section, n: nat)
    requires n <= |OPTION_NAMES|
    requires forall j :: 0 <= j < n ==> OptionValue(sec, j).Some?
    ensures MissingAmong(sec, n) == []
  {
    if n > 0 {
      NoneMissingAmong(sec, n - 1);
    }
  }

  /** A validated section, with every sub-option present. */
  datatype InterfaceConfig = InterfaceConfig(title: string, url: string, login: string, password: string, domain: string)

  function Validated(sec: Section): InterfaceConfig
    requires Complete(sec)
  {
    InterfaceConfig(sec.title, sec.url.value, sec.login.value, sec.password.value, sec.domain.value)
  }

  /** What the configuration parser was given: a file it could not open, text
      it could not parse, or a list of interface sections. */
  datatype ParseInput = FileError | SyntaxError | Sections(sections: seq<Section>)

  predicate DistinctTitles(secs: seq<Section>) {
    forall i, j :: 0 <= i < j < |secs| ==> secs[i].title != secs[j].title
  }

  /** `parse_config`: succeeds iff the file parsed, every section passed
      `validate_interface_config`, and no two sections share a title. */
  function ParseConfig(input: ParseInput): (r: Option<seq<InterfaceConfig>>)
    ensures r.Some? <==> input.Sections? && (forall s :: s in input.sections ==> Complete(s)) && DistinctTitles(input.sections)
    ensures r.Some? ==> |r.value| == |input.sections|
    ensures r.Some? ==> forall k :: 0 <= k < |r.value| ==> r.value[k].title == input.sections[k].title
    ensures r.Some? ==> forall k :: 0 <= k < |r.value| ==>
      Some(r.value[k].url) == input.sections[k].url && Some(r.value[k].login) == input.sections[k].login
      && Some(r.value[k].password) == input.sections[k].password && Some(r.value[k].domain) == input.sections[k].domain
  {
    match input
    case Sections(secs) =>
      if (forall s :: s in secs ==> Complete(s)) && DistinctTitles(secs)
      then
        assert forall k :: 0 <= k < |secs| ==> Complete(secs[k]) by {
          forall k | 0 <= k < |secs| ensures Complete(secs[k]) { assert secs[k] in secs; }
        }
        Some(seq(|secs|, k requires 0 <= k < |secs| => Validated(secs[k])))
      else None
    case _ => None
  }

  /** A freshly `calloc`ed record for one section: no address known, every
      flag false, timer initialised but inactive with the debounce repeat. */
  function NewRecord(cfg: InterfaceConfig): (r: Record)
    ensures r.ifname == cfg.title && r.url == cfg.url && r.login == cfg.login
      && r.password == cfg.password && r.domain == cfg.domain
    ensures r.localIp == ZERO4 && r.dnsIp == ZERO4 && r.localIp6 == ZERO6 && r.dnsIp6 == ZERO6
    ensures !r.localIpSet && !r.dnsIpSet && !r.localIp6Set && !r.dnsIp6Set && !r.resolved
    ensures !r.timeout.Active() && r.timeout.repeat == DEBOUNCE
    ensures RecordInv(r)
  {
    Record(TimerInit(0.0, DEBOUNCE), cfg.title, cfg.url, cfg.login, cfg.password, cfg.domain,
           ZERO4, ZERO4, ZERO6, ZERO6, false, false, false, false, false)
  }

  /** `prepare_interface_status`: one record per section, each prepended to the
      list, so the list holds the sections' records in reverse order. */
  method PrepareInterfaceStatus(configs: seq<InterfaceConfig>) returns (head: seq<Record>)
    ensures |head| == |configs|
    ensures forall k :: 0 <= k < |head| ==> head[k] == NewRecord(configs[|configs| - 1 - k])
  {
    head := [];
    var i := 0;
    while i < |configs|
      invariant 0 <= i <= |configs|
      invariant |head| == i
      invariant forall k :: 0 <= k < i ==> head[k] == NewRecord(configs[i - 1 - k])
    {
      var rec := NewRecord(configs[i]);
      head := [rec] + head;
      i := i + 1;
    }
  }

  /** `read_config`: true iff the configuration was accepted; only then is the
      list head replaced by the freshly built records. */
  method ReadConfig(input: ParseInput, oldHead: seq<Record>) returns (ok: bool, head: seq<Record>)
    ensures ok <==> ParseConfig(input).Some?
    ensures !ok ==> head == oldHead
    ensures ok ==> |head| == |input.sections|
    ensures ok ==> forall k :: 0 <= k < |head| ==> head[k] == NewRecord(ParseConfig(input).value[|head| - 1 - k])
  {
    var config := ParseConfig(input);
    if config.Some? {
      head := PrepareInterfaceStatus(config.value);
      ok := true;
    } else {
      head := oldHead;
      ok := false;
    }
  }

  /** Titles are unique, so the records' names are pairwise distinct: a lookup
      by name finds at most one record. */
  lemma {:induction false} PreparedNamesDistinct(input: ParseInput, head: seq<Record>)
    requires ParseConfig(input).Some?
    requires |head| == |input.sections|
    requires forall k :: 0 <= k < |head| ==> head[k] == NewRecord(ParseConfig(input).value[|head| - 1 - k])
    ensures forall i, j :: 0 <= i < j < |head| ==> head[i].ifname != head[j].ifname
    ensures forall k :: 0 <= k < |head| ==> head[k].ifname == input.sections[|head| - 1 - k].title
  {
    var n := |head|;
    forall i, j | 0 <= i < j < n
      ensures head[i].ifname != head[j].ifname
    {
      assert head[i].ifname == input.sections[n - 1 - i].title;
      assert head[j].ifname == input.sections[n - 1 - j].title;
      assert 0 <= n - 1 - j < n - 1 - i < n;
    }
  }

  /** Every record of a freshly loaded configuration satisfies the record invariant. */
  lemma PreparedRecordsValid(configs: seq<InterfaceConfig>, head: seq<Record>)
    requires |head| == |configs|
    requires forall k :: 0 <= k < |head| ==> head[k] == NewRecord(configs[|configs| - 1 - k])
    ensures forall k :: 0 <= k < |head| ==> RecordInv(head[k]) && !head[k].timeout.Active()
  {
  }
}
