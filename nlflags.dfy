/** The flag-set formatters of the netlink debugging helpers (nlutils.c): each
    clears a static buffer and `strcat`s the name of every set flag followed by
    one space, in declaration order; `nlmsg_flags2str` adds flags whose meaning
    depends on the message type. The masks' numeric values come from the Linux
    headers, which are not part of this model, so they are parameters. */
module NlFlags {
  import opened Types

  /** The test each formatter applies: `flags & MASK` is nonzero. */
  predicate IsSet(flags: bv32, mask: bv32) {
    flags & mask != 0
  }

  /** Which flags of a table are set. */
  function SetBits(flags: bv32, masks: seq<bv32>): (bits: seq<bool>)
    ensures |bits| == |masks|
    ensures forall k :: 0 <= k < |masks| ==> bits[k] == IsSet(flags, masks[k])
  {
    seq(|masks|, k requires 0 <= k < |masks| => IsSet(flags, masks[k]))
  }

  /** Names of the set flags, in declaration order. */
  function Selected(bits: seq<bool>, names: seq<string>): seq<string>
    requires |bits| == |names|
  {
    if |bits| == 0 then []
    else
      Selected(bits[..|bits| - 1], names[..|names| - 1])
      + (if bits[|bits| - 1] then [names[|names| - 1]] else [])
  }

  /** The buffer after one `strcat(buf, "<name> ")` per token. */
  function Join(tokens: seq<string>): string {
    if |tokens| == 0 then "" else tokens[0] + " " + Join(tokens[1..])
  }

  /** The text a formatter builds over (a prefix of) its table. */
  function Render(bits: seq<bool>, names: seq<string>): string
    requires |bits| == |names|
  {
    Join(Selected(bits, names))
  }

  lemma {:induction false} JoinConcat(a: seq<string>, b: seq<string>)
    ensures Join(a + b) == Join(a) + Join(b)
  {
    if |a| > 0 {
      assert (a + b)[1..] == a[1..] + b;
      JoinConcat(a[1..], b);
    } else {
      assert a + b == b;
    }
  }

  /** One more `if (flags & MASK) strcat(...)` step extends the text by the
      flag's name and a space exactly when the flag is set. */
  lemma RenderStep(bits: seq<bool>, names: seq<string>, k: nat)
    requires |bits| == |names| && k < |bits|
    ensures Render(bits[..k + 1], names[..k + 1])
         == Render(bits[..k], names[..k]) + (if bits[k] then names[k] + " " else "")
  {
    assert bits[..k + 1][..k] == bits[..k];
    assert names[..k + 1][..k] == names[..k];
    var piece := if bits[k] then [names[k]] else [];
    JoinConcat(Selected(bits[..k], names[..k]), piece);
    assert Join([names[k]]) == names[k] + " ";
  }

  predicate DistinctNames(names: seq<string>) {
    forall i, j :: 0 <= i < j < |names| ==> names[i] != names[j]
  }

  /** A name is in the output exactly when its flag is set. */
  lemma {:induction false} SelectedMembers(bits: seq<bool>, names: seq<string>, k: nat)
    requires |bits| == |names| && DistinctNames(names) && k < |names|
    ensures names[k] in Selected(bits, names) <==> bits[k]
  {
    var n := |bits|;
    var ib, iname := bits[..n - 1], names[..n - 1];
    assert DistinctNames(iname);
    if k < n - 1 {
      SelectedMembers(ib, iname, k);
      assert iname[k] == names[k] && ib[k] == bits[k];
    } else {
      SelectedOnly(ib, iname);
      assert names[k] !in iname;
    }
  }

  /** Every name in the output comes from the table. */
  lemma {:induction false} SelectedOnly(bits: seq<bool>, names: seq<string>)
    requires |bits| == |names|
    ensures forall t :: t in Selected(bits, names) ==> t in names
  {
    if |bits| > 0 {
      SelectedOnly(bits[..|bits| - 1], names[..|names| - 1]);
    }
  }

  /** How many flags of the table are set. */
  function CountSet(bits: seq<bool>): nat {
    if |bits| == 0 then 0
    else CountSet(bits[..|bits| - 1]) + (if bits[|bits| - 1] then 1 else 0)
  }

  /** The output holds one token per set flag, and the token of a set flag
      sits right after those of the set flags declared before it: the output
      is in declaration order. */
  lemma {:induction false} SelectedPositions(bits: seq<bool>, names: seq<string>, k: nat)
    requires |bits| == |names| && k < |bits|
    ensures |Selected(bits, names)| == CountSet(bits)
    ensures bits[k] ==>
      CountSet(bits[..k]) < |Selected(bits, names)| && Selected(bits, names)[CountSet(bits[..k])] == names[k]
  {
    var n := |bits|;
    var ib, iname := bits[..n - 1], names[..n - 1];
    if k < n - 1 {
      SelectedPositions(ib, iname, k);
      assert ib[..k] == bits[..k] && iname[k] == names[k] && ib[k] == bits[k];
    } else {
      if n - 1 > 0 {
        SelectedPositions(ib, iname, 0);
      }
      assert bits[..k] == ib;
    }
  }

  /** No token at all, and so the empty string, exactly when no flag is set. */
  lemma {:induction false} EmptyIffNoFlag(bits: seq<bool>, names: seq<string>)
    requires |bits| == |names|
    ensures Render(bits, names) == "" <==> forall k :: 0 <= k < |bits| ==> !bits[k]
  {
    if |bits| > 0 {
      var n := |bits|;
      EmptyIffNoFlag(bits[..n - 1], names[..n - 1]);
      RenderStep(bits, names, n - 1);
      assert bits[..n] == bits && names[..n] == names;
      assert forall k :: 0 <= k < n - 1 ==> bits[..n - 1][k] == bits[k];
    }
  }

  /** Splitting the text after each space, as a reader of the output does. */
  function Split(s: string): seq<string> {
    if s == "" then []
    else if ' ' in s then
      var k := IndexOf(s, ' ');
      [s[..k]] + Split(s[k + 1..])
    else [s]
  }

  predicate Token(t: string) {
    |t| > 0 && ' ' !in t
  }

  /** Each token is followed by exactly one space: splitting the text at its
      spaces gives back the tokens. */
  lemma {:induction false} SplitJoin(tokens: seq<string>)
    requires forall k :: 0 <= k < |tokens| ==> Token(tokens[k])
    ensures Split(Join(tokens)) == tokens
  {
    if |tokens| > 0 {
      var s := Join(tokens);
      var t := tokens[0];
      assert s == t + " " + Join(tokens[1..]);
      assert s[..|t|] == t;
      IndexOfFirst(s, ' ', |t|);
      assert s[|t| + 1..] == Join(tokens[1..]);
      SplitJoin(tokens[1..]);
    }
  }

  /** For a table of distinct space-free names: a name is a token of the
      text exactly when its flag is set, and the text is empty exactly when
      no flag is. */
  lemma FlagsOutput(bits: seq<bool>, names: seq<string>, k: nat)
    requires |bits| == |names| && k < |names| && DistinctNames(names)
    requires forall j :: 0 <= j < |names| ==> Token(names[j])
    ensures names[k] in Split(Render(bits, names)) <==> bits[k]
    ensures Render(bits, names) == "" <==> forall j :: 0 <= j < |bits| ==> !bits[j]
  {
    var sel := Selected(bits, names);
    SelectedOnly(bits, names);
    forall j | 0 <= j < |sel|
      ensures Token(sel[j])
    {
      assert sel[j] in names;
    }
    SplitJoin(sel);
    SelectedMembers(bits, names, k);
    EmptyIffNoFlag(bits, names);
  }

  // ---------------------------------------------------------------------------
  // rtm_flags2str and ifa_flags2str

  const RTM_FLAG_NAMES: seq<string> := ["RTM_F_NOTIFY", "RTM_F_CLONED", "RTM_F_EQUALIZE"]

  const IFA_FLAG_NAMES: seq<string> :=
    ["IFA_F_TEMPORARY", "IFA_F_NODAD", "IFA_F_OPTIMISTIC", "IFA_F_DADFAILED",
     "IFA_F_HOMEADDRESS", "IFA_F_DEPRECATED", "IFA_F_TENTATIVE", "IFA_F_PERMANENT",
     "IFA_F_MANAGETEMPADDR", "IFA_F_NOPREFIXROUTE", "IFA_F_MCAUTOJOIN", "IFA_F_STABLE_PRIVACY"]

  /** The `if (flags & MASK) strcat(buf, "NAME ")` sequence every flag
      formatter is made of, run over a table of masks and names in
      declaration order; `buf` starts empty as after `buf[0] = 0`. */
  method StrcatFlags(flags: bv32, masks: seq<bv32>, names: seq<string>) returns (buf: string)
    requires |masks| == |names|
    ensures buf == Render(SetBits(flags, masks), names)
  {
    ghost var bits := SetBits(flags, masks);
    buf := "";
    assert bits[..0] == [] && names[..0] == [];
    for k := 0 to |masks|
      invariant buf == Render(bits[..k], names[..k])
    {
      RenderStep(bits, names, k);
      if flags & masks[k] != 0 {
        buf := buf + names[k] + " ";
      }
    }
    assert bits[..|masks|] == bits && names[..|masks|] == names;
  }

  /** `rtm_flags2str`: masks are RTM_F_NOTIFY, RTM_F_CLONED, RTM_F_EQUALIZE. */
  method RtmFlags2Str(masks: seq<bv32>, flags: bv32) returns (buf: string)
    requires |masks| == |RTM_FLAG_NAMES|
    ensures buf == Render(SetBits(flags, masks), RTM_FLAG_NAMES)
  {
    buf := StrcatFlags(flags, masks, RTM_FLAG_NAMES);
  }

  /** `ifa_flags2str`: masks are the twelve IFA_F_* values in the order of
      IFA_FLAG_NAMES. */
  method IfaFlags2Str(masks: seq<bv32>, flags: bv32) returns (buf: string)
    requires |masks| == |IFA_FLAG_NAMES|
    ensures buf == Render(SetBits(flags, masks), IFA_FLAG_NAMES)
  {
    buf := StrcatFlags(flags, masks, IFA_FLAG_NAMES);
  }

  /** Each table names every flag once, each with a token free of spaces. */
  lemma RtmTableWellFormed()
    ensures DistinctNames(RTM_FLAG_NAMES)
    ensures forall k :: 0 <= k < |RTM_FLAG_NAMES| ==> Token(RTM_FLAG_NAMES[k])
  {
  }

  lemma IfaTableDistinct()
    ensures DistinctNames(IFA_FLAG_NAMES)
  {
  }

  lemma IfaTableTokens()
    ensures forall k :: 0 <= k < |IFA_FLAG_NAMES| ==> Token(IFA_FLAG_NAMES[k])
  {
  }

  /** What `ifa_flags2str` emits: a flag's name is in the text, as a token of
      its own, exactly when its bit is set, and the text is empty exactly when
      no flag is set. */
  lemma IfaFlagsOutput(masks: seq<bv32>, flags: bv32, k: nat)
    requires |masks| == |IFA_FLAG_NAMES| && k < |masks|
    ensures IFA_FLAG_NAMES[k] in Split(Render(SetBits(flags, masks), IFA_FLAG_NAMES)) <==> IsSet(flags, masks[k])
    ensures Render(SetBits(flags, masks), IFA_FLAG_NAMES) == "" <==> forall j :: 0 <= j < |masks| ==> !IsSet(flags, masks[j])
  {
    IfaTableDistinct();
    IfaTableTokens();
    FlagsOutput(SetBits(flags, masks), IFA_FLAG_NAMES, k);
  }

  /** The same for `rtm_flags2str`. */
  lemma RtmFlagsOutput(masks: seq<bv32>, flags: bv32, k: nat)
    requires |masks| == |RTM_FLAG_NAMES| && k < |masks|
    ensures RTM_FLAG_NAMES[k] in Split(Render(SetBits(flags, masks), RTM_FLAG_NAMES)) <==> IsSet(flags, masks[k])
    ensures Render(SetBits(flags, masks), RTM_FLAG_NAMES) == "" <==> forall j :: 0 <= j < |masks| ==> !IsSet(flags, masks[j])
  {
    RtmTableWellFormed();
    FlagsOutput(SetBits(flags, masks), RTM_FLAG_NAMES, k);
  }

  /** The room the whole table takes when every flag is set. */
  function TableLength(names: seq<string>): nat {
    if |names| == 0 then 0 else TableLength(names[..|names| - 1]) + |names[|names| - 1]| + 1
  }

  /** The text never needs more room than the whole table. */
  lemma {:induction false} RenderLength(bits: seq<bool>, names: seq<string>)
    requires |bits| == |names|
    ensures |Render(bits, names)| <= TableLength(names)
  {
    var n := |bits|;
    if n > 0 {
      RenderLength(bits[..n - 1], names[..n - 1]);
      RenderStep(bits, names, n - 1);
      assert bits[..n] == bits && names[..n] == names;
    }
  }

  /** Both formatters stay well inside their 1024-byte static buffers,
      terminator included. */
  lemma FlagBuffersSuffice(bits3: seq<bool>, bits12: seq<bool>)
    requires |bits3| == |RTM_FLAG_NAMES| && |bits12| == |IFA_FLAG_NAMES|
    ensures |Render(bits3, RTM_FLAG_NAMES)| < 1024
    ensures |Render(bits12, IFA_FLAG_NAMES)| < 1024
  {
    RenderLength(bits3, RTM_FLAG_NAMES);
    RenderLength(bits12, IFA_FLAG_NAMES);
    assert TableLength(IFA_FLAG_NAMES) < 1024 by {
      var n := IFA_FLAG_NAMES;
      assert forall k :: 0 <= k < |n| ==> |n[k]| <= 20;
      TableLengthBound(n, 20);
    }
    assert TableLength(RTM_FLAG_NAMES) < 1024 by {
      assert forall k :: 0 <= k < |RTM_FLAG_NAMES| ==> |RTM_FLAG_NAMES[k]| <= 20;
      TableLengthBound(RTM_FLAG_NAMES, 20);
    }
  }

  lemma {:induction false} TableLengthBound(names: seq<string>, m: nat)
    requires forall k :: 0 <= k < |names| ==> |names[k]| <= m
    ensures TableLength(names) <= |names| * (m + 1)
  {
    if |names| > 0 {
      TableLengthBound(names[..|names| - 1], m);
    }
  }

  // ---------------------------------------------------------------------------
  // nlmsg_flags2str

  const COMMON_NAMES: seq<string> :=
    ["NLM_F_REQUEST", "NLM_F_MULTI", "NLM_F_ACK", "NLM_F_ECHO", "NLM_F_DUMP_INTR", "NLM_F_DUMP_FILTERED"]
  const GET_NAMES: seq<string> := ["NLM_F_ROOT", "NLM_F_MATCH", "NLM_F_ATOMIC"]
  const NEW_NAMES: seq<string> := ["NLM_F_REPLACE", "NLM_F_EXCL", "NLM_F_CREATE", "NLM_F_APPEND"]

  /** Kernel values `nlmsg_flags2str` tests: the masks of the flags valid for
      any message, for GET requests and for NEW requests (in the order of the
      name tables), and the three GET and three NEW message types (link,
      address, route). */
  datatype NlmsgAbi = NlmsgAbi(
    common: seq<bv32>, getMasks: seq<bv32>, newMasks: seq<bv32>,
    getTypes: seq<nat>, newTypes: seq<nat>)

  predicate WellShaped(abi: NlmsgAbi) {
    |abi.common| == |COMMON_NAMES| && |abi.getMasks| == |GET_NAMES| && |abi.newMasks| == |NEW_NAMES|
    && |abi.getTypes| == 3 && |abi.newTypes| == 3
  }

  /** The Linux headers give ROOT, MATCH and ATOMIC the same bits as REPLACE,
      EXCL and CREATE; only the message type tells which is meant. */
  predicate KernelOverlap(abi: NlmsgAbi)
    requires WellShaped(abi)
  {
    forall k :: 0 <= k < |abi.getMasks| ==> abi.getMasks[k] == abi.newMasks[k]
  }

  /** The tokens of the type-dependent flags: GET types are tested first. */
  function TypedTokens(abi: NlmsgAbi, flags: bv16, msgType: nat): seq<string>
    requires WellShaped(abi)
  {
    if msgType in abi.getTypes then Selected(SetBits(flags as bv32, abi.getMasks), GET_NAMES)
    else if msgType in abi.newTypes then Selected(SetBits(flags as bv32, abi.newMasks), NEW_NAMES)
    else []
  }

  /** The flag names `nlmsg_flags2str` emits, in order. */
  function NlmsgTokens(abi: NlmsgAbi, flags: bv16, msgType: nat): seq<string>
    requires WellShaped(abi)
  {
    Selected(SetBits(flags as bv32, abi.common), COMMON_NAMES) + TypedTokens(abi, flags, msgType)
  }

  /** `nlmsg_flags2str`: the six general flags, then the GET flags when the
      type is one of the three GET types, else the NEW flags when it is one of
      the three NEW types. */
  method NlmsgFlags2Str(abi: NlmsgAbi, flags: bv16, msgType: nat) returns (buf: string)
    requires WellShaped(abi)
    ensures buf == Join(NlmsgTokens(abi, flags, msgType))
  {
    var f := flags as bv32;
    buf := StrcatFlags(f, abi.common, COMMON_NAMES);
    var tail := "";
    if msgType == abi.getTypes[0] || msgType == abi.getTypes[1] || msgType == abi.getTypes[2] {
      tail := StrcatFlags(f, abi.getMasks, GET_NAMES);
    } else if msgType == abi.newTypes[0] || msgType == abi.newTypes[1] || msgType == abi.newTypes[2] {
      tail := StrcatFlags(f, abi.newMasks, NEW_NAMES);
    }
    buf := buf + tail;
    JoinConcat(Selected(SetBits(f, abi.common), COMMON_NAMES), TypedTokens(abi, flags, msgType));
  }

  /** The six general flags come first, in order, whatever the message type. */
  lemma NlmsgCommonFirst(abi: NlmsgAbi, flags: bv16, msgType: nat)
    requires WellShaped(abi)
    ensures Render(SetBits(flags as bv32, abi.common), COMMON_NAMES) <= Join(NlmsgTokens(abi, flags, msgType))
  {
    JoinConcat(Selected(SetBits(flags as bv32, abi.common), COMMON_NAMES), TypedTokens(abi, flags, msgType));
  }

  /** The output, terminator included, stays inside the 1024-byte static
      buffer of `nlmsg_flags2str` for every flag word and message type. */
  lemma NlmsgBufferSuffices(abi: NlmsgAbi, flags: bv16, msgType: nat)
    requires WellShaped(abi)
    ensures |Join(NlmsgTokens(abi, flags, msgType))| < 1024
  {
    var f := flags as bv32;
    JoinConcat(Selected(SetBits(f, abi.common), COMMON_NAMES), TypedTokens(abi, flags, msgType));
    ShortTableRender(SetBits(f, abi.common), COMMON_NAMES);
    if msgType in abi.getTypes {
      ShortTableRender(SetBits(f, abi.getMasks), GET_NAMES);
    } else if msgType in abi.newTypes {
      ShortTableRender(SetBits(f, abi.newMasks), NEW_NAMES);
    }
  }

  /** A table of at most six names of at most twenty characters renders to
      at most 126 characters. */
  lemma ShortTableRender(bits: seq<bool>, names: seq<string>)
    requires |bits| == |names| && |names| <= 6
    requires forall k :: 0 <= k < |names| ==> |names[k]| <= 20
    ensures |Render(bits, names)| <= 126
  {
    RenderLength(bits, names);
    TableLengthBound(names, 20);
  }

  /** No name is in two of the three tables. */
  lemma NlmsgTablesDisjoint()
    ensures forall i, j :: 0 <= i < |COMMON_NAMES| && 0 <= j < |GET_NAMES| ==> COMMON_NAMES[i] != GET_NAMES[j]
    ensures forall i, j :: 0 <= i < |COMMON_NAMES| && 0 <= j < |NEW_NAMES| ==> COMMON_NAMES[i] != NEW_NAMES[j]
    ensures forall i, j :: 0 <= i < |GET_NAMES| && 0 <= j < |NEW_NAMES| ==> GET_NAMES[i] != NEW_NAMES[j]
    ensures DistinctNames(GET_NAMES) && DistinctNames(NEW_NAMES)
  {
  }

  /** ROOT, MATCH and ATOMIC are shown only for GET types and REPLACE, EXCL,
      CREATE and APPEND only for NEW types, each exactly when its bit is set;
      for any other type no type-specific name is shown. */
  lemma NlmsgTypedFlags(abi: NlmsgAbi, flags: bv16, msgType: nat, k: nat)
    requires WellShaped(abi)
    ensures k < |GET_NAMES| ==>
      (GET_NAMES[k] in NlmsgTokens(abi, flags, msgType) <==>
       msgType in abi.getTypes && IsSet(flags as bv32, abi.getMasks[k]))
    ensures k < |NEW_NAMES| ==>
      (NEW_NAMES[k] in NlmsgTokens(abi, flags, msgType) <==>
       msgType !in abi.getTypes && msgType in abi.newTypes && IsSet(flags as bv32, abi.newMasks[k]))
  {
    var f := flags as bv32;
    var c := Selected(SetBits(f, abi.common), COMMON_NAMES);
    NlmsgTablesDisjoint();
    SelectedOnly(SetBits(f, abi.common), COMMON_NAMES);
    SelectedOnly(SetBits(f, abi.getMasks), GET_NAMES);
    SelectedOnly(SetBits(f, abi.newMasks), NEW_NAMES);
    if k < |GET_NAMES| {
      SelectedMembers(SetBits(f, abi.getMasks), GET_NAMES, k);
      assert GET_NAMES[k] !in c;
    }
    if k < |NEW_NAMES| {
      SelectedMembers(SetBits(f, abi.newMasks), NEW_NAMES, k);
      assert NEW_NAMES[k] !in c;
    }
  }

  /** Each of the six general flags is shown exactly when its bit is set,
      whatever the message type. */
  lemma NlmsgCommonFlags(abi: NlmsgAbi, flags: bv16, msgType: nat, k: nat)
    requires WellShaped(abi) && k < |COMMON_NAMES|
    ensures COMMON_NAMES[k] in NlmsgTokens(abi, flags, msgType) <==> IsSet(flags as bv32, abi.common[k])
  {
    var f := flags as bv32;
    NlmsgTablesDisjoint();
    assert DistinctNames(COMMON_NAMES);
    SelectedMembers(SetBits(f, abi.common), COMMON_NAMES, k);
    SelectedOnly(SetBits(f, abi.getMasks), GET_NAMES);
    SelectedOnly(SetBits(f, abi.newMasks), NEW_NAMES);
    assert COMMON_NAMES[k] !in TypedTokens(abi, flags, msgType);
  }

  /** The output is empty exactly when none of the bits tested for this
      message type is set: the general flags, and the GET or NEW flags when
      the type is one of those. */
  lemma NlmsgEmptyIffNoFlag(abi: NlmsgAbi, flags: bv16, msgType: nat)
    requires WellShaped(abi)
    ensures Join(NlmsgTokens(abi, flags, msgType)) == "" <==>
      (forall j :: 0 <= j < |abi.common| ==> !IsSet(flags as bv32, abi.common[j]))
      && (msgType in abi.getTypes ==>
            forall j :: 0 <= j < |abi.getMasks| ==> !IsSet(flags as bv32, abi.getMasks[j]))
      && (msgType !in abi.getTypes && msgType in abi.newTypes ==>
            forall j :: 0 <= j < |abi.newMasks| ==> !IsSet(flags as bv32, abi.newMasks[j]))
  {
    var f := flags as bv32;
    JoinConcat(Selected(SetBits(f, abi.common), COMMON_NAMES), TypedTokens(abi, flags, msgType));
    EmptyIffNoFlag(SetBits(f, abi.common), COMMON_NAMES);
    EmptyIffNoFlag(SetBits(f, abi.getMasks), GET_NAMES);
    EmptyIffNoFlag(SetBits(f, abi.newMasks), NEW_NAMES);
  }

  /** With the kernel's overlapping masks, one set bit is shown as ROOT,
      MATCH or ATOMIC on a GET message and as REPLACE, EXCL or CREATE on a
      NEW message, never as both. */
  lemma OverlapRenderedByType(abi: NlmsgAbi, flags: bv16, getType: nat, newType: nat, k: nat)
    requires WellShaped(abi) && KernelOverlap(abi) && k < |GET_NAMES|
    requires getType in abi.getTypes && newType in abi.newTypes && newType !in abi.getTypes
    requires IsSet(flags as bv32, abi.getMasks[k])
    ensures GET_NAMES[k] in NlmsgTokens(abi, flags, getType) && NEW_NAMES[k] !in NlmsgTokens(abi, flags, getType)
    ensures NEW_NAMES[k] in NlmsgTokens(abi, flags, newType) && GET_NAMES[k] !in NlmsgTokens(abi, flags, newType)
  {
    NlmsgTypedFlags(abi, flags, getType, k);
    NlmsgTypedFlags(abi, flags, newType, k);
  }
}
