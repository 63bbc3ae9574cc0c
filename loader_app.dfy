/** XivAlexanderLoader: the command-line front end that picks target game
    processes and decides, per process, whether to load or unload the addon. */
module LoaderApp {
  import opened Text
  import XivAlex

  // ---------------------------------------------------------------------
  // The two option enums and their textual names

  datatype LoaderAction = Auto | Ask | Load | Unload | Launcher | Count
  datatype LauncherType = Auto | International | Korean | Chinese | Count

  /** The enumerators in declaration order, i.e. static_cast<LoaderAction>(i) for i < Count_. */
  const Actions: seq<LoaderAction> :=
    [LoaderAction.Auto, LoaderAction.Ask, LoaderAction.Load, LoaderAction.Unload, LoaderAction.Launcher]
  const Launchers: seq<LauncherType> :=
    [LauncherType.Auto, LauncherType.International, LauncherType.Korean, LauncherType.Chinese]

  /** repr(LoaderAction): the option's name; the sentinel prints as its number. */
  function LoaderActionRepr(a: LoaderAction): (r: string)
    ensures |r| > 0 && ' ' !in r && IsLowered(r)
    ensures r in ActionNames <==> a != LoaderAction.Count
  {
    match a
    case Ask => "ask"
    case Load => "load"
    case Unload => "unload"
    case Launcher => "launcher"
    case Auto => "auto"
    case Count => "(5)"
  }

  /** repr(LauncherType). */
  function LauncherTypeRepr(t: LauncherType): (r: string)
    ensures |r| > 0 && ' ' !in r && IsLowered(r)
    ensures r in LauncherNames <==> t != LauncherType.Count
  {
    match t
    case Auto => "auto"
    case International => "international"
    case Korean => "korean"
    case Chinese => "chinese"
    case Count => "(4)"
  }

  /** The names the parsers compare against, repr(static_cast<...>(i)) for each i below Count_. */
  const ActionNames: seq<string> := ["auto", "ask", "load", "unload", "launcher"]
  const LauncherNames: seq<string> := ["auto", "international", "korean", "chinese"]

  lemma NamesAreReprs()
    ensures |ActionNames| == |Actions| && |LauncherNames| == |Launchers|
    ensures forall i :: 0 <= i < |Actions| ==> ActionNames[i] == LoaderActionRepr(Actions[i])
    ensures forall i :: 0 <= i < |Launchers| ==> LauncherNames[i] == LauncherTypeRepr(Launchers[i])
  {
  }

  // ---------------------------------------------------------------------
  // Prefix matching of option values

  /** The two strings agree on every index both have: either is a prefix of the other. */
  predicate Compatible(v: string, name: string)
  {
    forall j :: 0 <= j < |v| && j < |name| ==> v[j] == name[j]
  }

  /** The index of the first name compatible with v. */
  function FirstCompatible(v: string, names: seq<string>): (r: Option<nat>)
    ensures r.Some? ==> r.value < |names| && Compatible(v, names[r.value])
    ensures r.Some? ==> forall k :: 0 <= k < r.value ==> !Compatible(v, names[k])
    ensures r.None? ==> forall k :: 0 <= k < |names| ==> !Compatible(v, names[k])
    decreases |names|
  {
    if |names| == 0 then None
    else if Compatible(v, names[0]) then Some(0)
    else
      match FirstCompatible(v, names[1..])
      case None => None
      case Some(k) => Some(k + 1)
  }

  /** A compatible name with no compatible name before it is the first one. */
  lemma FirstCompatibleAt(v: string, names: seq<string>, i: nat)
    requires i < |names| && Compatible(v, names[i])
    requires forall k :: 0 <= k < i ==> !Compatible(v, names[k])
    ensures FirstCompatible(v, names) == Some(i)
  {
  }

  /** The matching loop shared by both parsers: the outer loop over the names,
      the inner one comparing while `equal` holds and both strings have characters. */
  method MatchName(v: string, names: seq<string>) returns (r: Option<nat>)
    ensures r == FirstCompatible(v, names)
  {
    var i := 0;
    while i < |names|
      invariant 0 <= i <= |names|
      invariant forall k :: 0 <= k < i ==> !Compatible(v, names[k])
    {
      var compare := names[i];
      var equal := true;
      var j := 0;
      while equal && j < |v| && j < |compare|
        invariant 0 <= j <= |v| && j <= |compare|
        invariant equal ==> forall m :: 0 <= m < j ==> v[m] == compare[m]
        invariant !equal ==> 0 < j && v[j - 1] != compare[j - 1]
      {
        equal := v[j] == compare[j];
        j := j + 1;
      }
      if equal {
        FirstCompatibleAt(v, names, i);
        return Some(i);
      }
      i := i + 1;
    }
    return None;
  }

  /** ParseLoaderAction, as a value: lowercase, then the first name the value is compatible with. */
  function LoaderActionOf(val: string): (r: Result<LoaderAction>)
    ensures r.Ok? ==> r.value != LoaderAction.Count && Compatible(Lower(val), LoaderActionRepr(r.value))
    ensures r.Err? <==> forall k :: 0 <= k < |ActionNames| ==> !Compatible(Lower(val), ActionNames[k])
    ensures r.Err? ==> r.message == "Invalid action"
  {
    NamesAreReprs();
    match FirstCompatible(Lower(val), ActionNames)
    case Some(i) => Ok(Actions[i])
    case None => Err("Invalid action")
  }

  method ParseLoaderAction(val: string) returns (r: Result<LoaderAction>)
    ensures r == LoaderActionOf(val)
  {
    var v := Lower(val);
    var i := MatchName(v, ActionNames);
    if i.Some? {
      return Ok(Actions[i.value]);
    }
    return Err("Invalid action");
  }

  /** ParseLauncherType, as a value: like the action parser, but an unmatched value
      starting with one of "edgfj" still means the international launcher. */
  function LauncherTypeOf(val: string): (r: Result<LauncherType>)
    ensures r.Ok? ==> r.value != LauncherType.Count
    ensures r.Ok? ==>
              Compatible(Lower(val), LauncherTypeRepr(r.value)) ||
              (r.value == LauncherType.International && 0 < |val| && Lower(val)[0] in "edgfj")
    ensures r.Err? <==>
              (forall k :: 0 <= k < |LauncherNames| ==> !Compatible(Lower(val), LauncherNames[k])) &&
              !(0 < |val| && Lower(val)[0] in "edgfj")
    ensures r.Err? ==> r.message == "Invalid launcher type"
  {
    NamesAreReprs();
    var v := Lower(val);
    match FirstCompatible(v, LauncherNames)
    case Some(i) => Ok(Launchers[i])
    case None =>
      assert !Compatible(v, LauncherNames[0]);
      if v[0] in "edgfj" then Ok(LauncherType.International)
      else Err("Invalid launcher type")
  }

  method ParseLauncherType(val: string) returns (r: Result<LauncherType>)
    ensures r == LauncherTypeOf(val)
  {
    var v := Lower(val);
    var i := MatchName(v, LauncherNames);
    if i.Some? {
      return Ok(Launchers[i.value]);
    }
    assert !Compatible(v, LauncherNames[0]);
    if v[0] == 'e' || v[0] == 'd' || v[0] == 'g' || v[0] == 'f' || v[0] == 'j' {
      return Ok(LauncherType.International);
    }
    return Err("Invalid launcher type");
  }

  /** Both parsers ignore ASCII case. */
  lemma ParsersIgnoreCase(val: string)
    ensures LoaderActionOf(Lower(val)) == LoaderActionOf(val)
    ensures LauncherTypeOf(Lower(val)) == LauncherTypeOf(val)
  {
    LowerIdempotent(val);
  }

  /** Any value that is a prefix of an action's name (or has it as prefix) parses
      to an action no later in the list, and the empty value means auto. */
  lemma EmptyValueIsAuto()
    ensures LoaderActionOf("") == Ok(LoaderAction.Auto)
    ensures LauncherTypeOf("") == Ok(LauncherType.Auto)
  {
    FirstCompatibleAt(Lower(""), ActionNames, 0);
    FirstCompatibleAt(Lower(""), LauncherNames, 0);
  }

  /** Printing an action and parsing it back gives the action. */
  lemma {:induction false} LoaderActionRoundTrip(a: LoaderAction)
    requires a != LoaderAction.Count
    ensures LoaderActionOf(LoaderActionRepr(a)) == Ok(a)
  {
    var names := ActionNames;
    var s := LoaderActionRepr(a);
    assert IsLowered(s) by {
      forall i | 0 <= i < |s| ensures 'a' <= s[i] <= 'z' {
        match a
        case Auto => assert s == "auto";
        case Ask => assert s == "ask";
        case Load => assert s == "load";
        case Unload => assert s == "unload";
        case Launcher => assert s == "launcher";
      }
    }
    LowerOfLowered(s);
    match a
    case Auto =>
      FirstCompatibleAt(s, names, 0);
    case Ask =>
      assert s[1] != names[0][1];
      FirstCompatibleAt(s, names, 1);
    case Load =>
      assert s[0] != names[0][0] && s[0] != names[1][0];
      FirstCompatibleAt(s, names, 2);
    case Unload =>
      assert s[0] != names[0][0] && s[0] != names[1][0] && s[0] != names[2][0];
      FirstCompatibleAt(s, names, 3);
    case Launcher =>
      assert s[0] != names[0][0] && s[0] != names[1][0] && s[1] != names[2][1] && s[0] != names[3][0];
      FirstCompatibleAt(s, names, 4);
  }

  /** Printing a launcher type and parsing it back gives the type. */
  lemma {:induction false} LauncherTypeRoundTrip(t: LauncherType)
    requires t != LauncherType.Count
    ensures LauncherTypeOf(LauncherTypeRepr(t)) == Ok(t)
  {
    var names := LauncherNames;
    var s := LauncherTypeRepr(t);
    assert IsLowered(s) by {
      forall i | 0 <= i < |s| ensures 'a' <= s[i] <= 'z' {
        match t
        case Auto => assert s == "auto";
        case International => assert s == "international";
        case Korean => assert s == "korean";
        case Chinese => assert s == "chinese";
      }
    }
    LowerOfLowered(s);
    match t
    case Auto =>
      FirstCompatibleAt(s, names, 0);
    case International =>
      assert s[0] != names[0][0];
      FirstCompatibleAt(s, names, 1);
    case Korean =>
      assert s[0] != names[0][0] && s[0] != names[1][0];
      FirstCompatibleAt(s, names, 2);
    case Chinese =>
      assert s[0] != names[0][0] && s[0] != names[1][0] && s[0] != names[2][0];
      FirstCompatibleAt(s, names, 3);
  }

  /** Abbreviations resolve to the first name in declaration order. */
  lemma LoaderActionAbbreviations()
    ensures LoaderActionOf("l") == Ok(LoaderAction.Load)
    ensures LoaderActionOf("la") == Ok(LoaderAction.Launcher)
  {
    var names := ActionNames;
    assert Lower("l") == "l";
    assert "l"[0] != names[0][0] && "l"[0] != names[1][0];
    FirstCompatibleAt("l", names, 2);
    assert Lower("la") == "la";
    assert "la"[0] != names[0][0] && "la"[0] != names[1][0] && "la"[1] != names[2][1] && "la"[0] != names[3][0];
    FirstCompatibleAt("la", names, 4);
  }

  /** Values longer than a name are compared only up to the name's length, in any case. */
  lemma LoaderActionLongValue()
    ensures LoaderActionOf("LOADX") == Ok(LoaderAction.Load)
  {
    var names := ActionNames;
    assert Lower("LOADX") == "loadx";
    assert "loadx"[0] != names[0][0] && "loadx"[0] != names[1][0];
    FirstCompatibleAt("loadx", names, 2);
  }

  /** A value compatible with no name is refused. */
  lemma LoaderActionUnknown()
    ensures LoaderActionOf("x") == Err("Invalid action")
  {
    assert Lower("x") == "x";
    assert forall k :: 0 <= k < |ActionNames| ==> "x"[0] != ActionNames[k][0];
  }

  lemma LauncherTypeAbbreviation()
    ensures LauncherTypeOf("k") == Ok(LauncherType.Korean)
  {
    var names := LauncherNames;
    assert Lower("k") == "k";
    assert "k"[0] != names[0][0] && "k"[0] != names[1][0];
    FirstCompatibleAt("k", names, 2);
  }

  /** Region abbreviations outside the names fall back to the international launcher. */
  lemma LauncherTypeFallback()
    ensures LauncherTypeOf("JP") == Ok(LauncherType.International)
  {
    assert Lower("JP") == "jp";
    assert forall k :: 0 <= k < |LauncherNames| ==> "jp"[0] != LauncherNames[k][0];
  }

  lemma LauncherTypeUnknown()
    ensures LauncherTypeOf("x") == Err("Invalid launcher type")
  {
    assert Lower("x") == "x";
    assert forall k :: 0 <= k < |LauncherNames| ==> "x"[0] != LauncherNames[k][0];
  }

  // ---------------------------------------------------------------------
  // Target classification

  const DwordModulus: int := 0x1_0000_0000

  /** A target is a process id or a (lowercased) path suffix. */
  datatype Target = PidTarget(pid: nat) | SuffixTarget(suffix: string)

  /** A target is a process id exactly when stoi consumed all of it (which the
      empty target, consuming nothing, also satisfies); the int is converted to
      DWORD, so a negative number wraps around modulo 2^32. */
  function ClassifyTarget(t: string): (r: Target)
    ensures r.PidTarget? <==> t == "" || (Stoi(t).Some? && Stoi(t).value.consumed == |t|)
    ensures r.PidTarget? ==> r.pid < DwordModulus
    ensures r.PidTarget? && t != "" ==> r.pid == Stoi(t).value.value % DwordModulus
    ensures t == "" ==> r == PidTarget(0)
    ensures r.SuffixTarget? ==> r.suffix == Lower(t)
  {
    var parsed := Stoi(t);
    var idx := if parsed.Some? then parsed.value.consumed else 0;
    if idx != |t| then SuffixTarget(Lower(t))
    else if parsed.None? then PidTarget(0)
    else if parsed.value.value < 0 then PidTarget(parsed.value.value + DwordModulus)
    else PidTarget(parsed.value.value)
  }

  /** A decimal number in int range is taken as that process id. */
  lemma ClassifyDecimal(n: nat)
    requires n <= IntMax
    ensures ClassifyTarget(Decimal(n)) == PidTarget(n)
  {
    StoiDecimal(n);
  }

  /** A target that does not end in a digit is a path suffix; the empty one is pid 0. */
  lemma ClassifyNonNumeric(t: string)
    ensures t == "" ==> ClassifyTarget(t) == PidTarget(0)
    ensures t != "" && !IsDigit(t[|t| - 1]) ==> ClassifyTarget(t) == SuffixTarget(Lower(t))
  {
  }

  /** A signed decimal is consumed whole by stoi, so it is a process id; a
      negative one wraps around to a large DWORD. */
  lemma ClassifySigned(n: nat, c: char)
    requires n <= IntMax && (c == '+' || c == '-')
    ensures ClassifyTarget([c] + Decimal(n)) == PidTarget(if c == '-' && n > 0 then DwordModulus - n else n)
  {
    assert ([c] + Decimal(n))[1..] == Decimal(n);
    StoiSignedDigits([c] + Decimal(n));
  }

  /** White space in front of a non-empty target changes neither whether it
      is a process id nor which one. */
  lemma ClassifySpaced(c: char, t: string)
    requires IsSpace(c) && t != ""
    ensures ClassifyTarget([c] + t).PidTarget? <==> ClassifyTarget(t).PidTarget?
    ensures ClassifyTarget(t).PidTarget? ==> ClassifyTarget([c] + t) == ClassifyTarget(t)
  {
    StoiAfterSpace(c, t);
  }

  /** A decimal beyond the range of int makes stoi throw: it is a path suffix. */
  lemma ClassifyOutOfRange(n: nat)
    requires n > IntMax
    ensures ClassifyTarget(Decimal(n)) == SuffixTarget(Decimal(n))
  {
    StoiOutOfRange(Decimal(n));
    LowerOfLowered(Decimal(n));
  }

  /** A target starting with anything but white space, a sign or a digit is a path suffix. */
  lemma ClassifyLeadingText(t: string)
    requires t != "" && !IsSpace(t[0]) && t[0] != '+' && t[0] != '-' && !IsDigit(t[0])
    ensures ClassifyTarget(t) == SuffixTarget(Lower(t))
  {
    assert LeadingSpaceCount(t) == 0;
    assert t[0..] == t;
  }

  /** Every target classified. */
  function Classified(targets: seq<string>): (r: seq<Target>)
    ensures |r| == |targets|
    ensures forall i :: 0 <= i < |targets| ==> r[i] == ClassifyTarget(targets[i])
  {
    seq(|targets|, i requires 0 <= i < |targets| => ClassifyTarget(targets[i]))
  }

  /** The process ids among classified targets. */
  function PidsOf(ts: seq<Target>): set<nat>
    decreases |ts|
  {
    if |ts| == 0 then {}
    else PidsOf(ts[..|ts| - 1]) + (if ts[|ts| - 1].PidTarget? then {ts[|ts| - 1].pid} else {})
  }

  /** The path suffixes among classified targets. */
  function SuffixesOf(ts: seq<Target>): set<string>
    decreases |ts|
  {
    if |ts| == 0 then {}
    else SuffixesOf(ts[..|ts| - 1]) + (if ts[|ts| - 1].SuffixTarget? then {ts[|ts| - 1].suffix} else {})
  }

  /** Every pid target is filed as a pid and nothing else is. */
  lemma {:induction false} PidsOfMembers(ts: seq<Target>, pid: nat)
    ensures pid in PidsOf(ts) <==> PidTarget(pid) in ts
    decreases |ts|
  {
    if |ts| > 0 {
      var init := ts[..|ts| - 1];
      assert ts == init + [ts[|ts| - 1]];
      PidsOfMembers(init, pid);
    }
  }

  /** Every suffix target is filed as a suffix and nothing else is. */
  lemma {:induction false} SuffixesOfMembers(ts: seq<Target>, s: string)
    ensures s in SuffixesOf(ts) <==> SuffixTarget(s) in ts
    decreases |ts|
  {
    if |ts| > 0 {
      var init := ts[..|ts| - 1];
      assert ts == init + [ts[|ts| - 1]];
      SuffixesOfMembers(init, s);
    }
  }

  // ---------------------------------------------------------------------
  // The parameter object

  /** What argparse extracted from the command line: the raw -a and -l values
      (converted by the parsers above), the flags and the remaining targets. */
  datatype Options = Options(
    action: Option<string>,
    launcher: Option<string>,
    quiet: bool,
    disableRunAs: bool,
    web: bool,
    injectIntoStdinHandle: bool,
    targets: seq<string>)

  /** "-h" or "-help" anywhere after the program name. */
  predicate HelpRequested(args: seq<string>)
  {
    exists i :: 1 <= i < |args| && (args[i] == "-h" || args[i] == "-help")
  }

  /** The converted -a and -l values. */
  datatype Settings = Settings(action: LoaderAction, launcherType: LauncherType)

  /** What argparse makes of -a and -l: each absent one is auto; the action is
      converted first, so its error wins when both are refused. */
  function SettingsOf(o: Options): Result<Settings>
  {
    var a := if o.action.None? then Ok(LoaderAction.Auto) else LoaderActionOf(o.action.value);
    var l := if o.launcher.None? then Ok(LauncherType.Auto) else LauncherTypeOf(o.launcher.value);
    if a.Err? then Err(a.message)
    else if l.Err? then Err(l.message)
    else Ok(Settings(a.value, l.value))
  }

  method ParseSettings(o: Options) returns (r: Result<Settings>)
    ensures r == SettingsOf(o)
  {
    var a := Ok(LoaderAction.Auto);
    if o.action.Some? {
      a := ParseLoaderAction(o.action.value);
    }
    if a.Err? {
      return Err(a.message);
    }
    var l := Ok(LauncherType.Auto);
    if o.launcher.Some? {
      l := ParseLauncherType(o.launcher.value);
    }
    if l.Err? {
      return Err(l.message);
    }
    return Ok(Settings(a.value, l.value));
  }

  /** Parsed settings never hold a sentinel; absent options are auto. */
  lemma SettingsAreReal(o: Options)
    ensures SettingsOf(o).Ok? ==>
      SettingsOf(o).value.action != LoaderAction.Count && SettingsOf(o).value.launcherType != LauncherType.Count
    ensures o.action.None? && o.launcher.None? ==> SettingsOf(o) == Ok(Settings(LoaderAction.Auto, LauncherType.Auto))
  {
  }

  const GameExecutable32Name: string := "ffxiv.exe"
  const GameExecutable64Name: string := "ffxiv_dx11.exe"
  const DefaultSuffixes: set<string> := {GameExecutable32Name, GameExecutable64Name}

  /** The suffix set after GetTargetPidList: the game executables when nothing was named. */
  function SuffixesAfterDefaults(pids: set<nat>, suffixes: set<string>): set<string>
  {
    if pids == {} && suffixes == {} then DefaultSuffixes else suffixes
  }

  /** A running process: its id and its image path, None when it could not be opened or queried. */
  datatype ProcessEntry = ProcessEntry(pid: nat, path: Option<string>)

  predicate HasSuffixIn(path: string, suffixes: set<string>)
  {
    exists s :: s in suffixes && EndsWith(path, s)
  }

  predicate PathMatches(p: ProcessEntry, suffixes: set<string>)
  {
    p.path.Some? && HasSuffixIn(Lower(p.path.value), suffixes)
  }

  /** Ids of processes whose lowercased image path ends with one of the suffixes. */
  function MatchingPids(ps: seq<ProcessEntry>, suffixes: set<string>): (r: set<nat>)
    ensures forall pid :: pid in r <==> exists p :: p in ps && p.pid == pid && PathMatches(p, suffixes)
  {
    set p | p in ps && PathMatches(p, suffixes) :: p.pid
  }

  lemma MatchingPidsAppend(ps: seq<ProcessEntry>, p: ProcessEntry, suffixes: set<string>)
    ensures MatchingPids(ps + [p], suffixes) == MatchingPids(ps, suffixes) + (if PathMatches(p, suffixes) then {p.pid} else {})
  {
    var expected := MatchingPids(ps, suffixes) + (if PathMatches(p, suffixes) then {p.pid} else {});
    forall pid ensures pid in MatchingPids(ps + [p], suffixes) <==> pid in expected {
      if pid in MatchingPids(ps + [p], suffixes) {
        var q :| q in ps + [p] && q.pid == pid && PathMatches(q, suffixes);
        if q != p {
          assert q in ps;
        }
      }
    }
  }

  /** The inner search of GetTargetPidList: does any suffix end the path? */
  method EndsWithAny(path: string, suffixes: set<string>) returns (found: bool)
    ensures found == HasSuffixIn(path, suffixes)
  {
    found := false;
    var rest := suffixes;
    while rest != {} && !found
      invariant rest <= suffixes
      invariant found ==> HasSuffixIn(path, suffixes)
      invariant !found ==> forall s :: s in suffixes && s !in rest ==> !EndsWith(path, s)
      decreases |rest|
    {
      var suffix :| suffix in rest;
      found := EndsWith(path, suffix);
      rest := rest - {suffix};
    }
  }

  class LoaderParameter {
    var action: LoaderAction
    var launcherType: LauncherType
    var quiet: bool
    var help: bool
    var web: bool
    var disableAutoRunAs: bool
    var injectIntoStdinHandle: bool
    var targetPids: set<nat>
    var targetSuffix: set<string>
    var runProgram: string
    var runProgramArgs: seq<string>

    constructor ()
      ensures action == LoaderAction.Auto && launcherType == LauncherType.Auto
      ensures !quiet && !help && !web && disableAutoRunAs && !injectIntoStdinHandle
      ensures targetPids == {} && targetSuffix == {}
      ensures runProgram == "" && runProgramArgs == []
    {
      action := LoaderAction.Auto;
      launcherType := LauncherType.Auto;
      quiet := false;
      help := false;
      web := false;
      disableAutoRunAs := true;
      injectIntoStdinHandle := false;
      targetPids := {};
      targetSuffix := {};
      runProgram := "";
      runProgramArgs := [];
    }

    /** The loop over the targets: each is classified, then filed as a pid or a suffix. */
    method AddTargets(targets: seq<string>)
      modifies this`targetPids, this`targetSuffix
      ensures targetPids == old(targetPids) + PidsOf(Classified(targets))
      ensures targetSuffix == old(targetSuffix) + SuffixesOf(Classified(targets))
    {
      var kinds := Classified(targets);
      FileTargets(kinds);
    }

    method FileTargets(kinds: seq<Target>)
      modifies this`targetPids, this`targetSuffix
      ensures targetPids == old(targetPids) + PidsOf(kinds)
      ensures targetSuffix == old(targetSuffix) + SuffixesOf(kinds)
    {
      var i := 0;
      while i < |kinds|
        invariant 0 <= i <= |kinds|
        invariant targetPids == old(targetPids) + PidsOf(kinds[..i])
        invariant targetSuffix == old(targetSuffix) + SuffixesOf(kinds[..i])
      {
        assert kinds[..i + 1][..i] == kinds[..i];
        match kinds[i] {
          case SuffixTarget(s) =>
            targetSuffix := targetSuffix + {s};
          case PidTarget(pid) =>
            targetPids := targetPids + {pid};
        }
        i := i + 1;
      }
      assert kinds[..i] == kinds;
    }

    /** Parse: a help switch short-circuits everything; otherwise an option value
        the parsers refuse fails the whole parse and leaves the fields alone. */
    method Parse(args: seq<string>, options: Result<Options>) returns (r: Outcome)
      requires |args| >= 1
      modifies this
      ensures HelpRequested(args) ==> r == Pass && help
      ensures !HelpRequested(args) && options.Err? ==> r == Fail(options.message)
      ensures !HelpRequested(args) && options.Ok? && SettingsOf(options.value).Err? ==>
        r == Fail(SettingsOf(options.value).message)
      ensures r.Fail? || HelpRequested(args) ==>
        action == old(action) && launcherType == old(launcherType) && quiet == old(quiet) &&
        web == old(web) && disableAutoRunAs == old(disableAutoRunAs) &&
        injectIntoStdinHandle == old(injectIntoStdinHandle) &&
        runProgram == old(runProgram) && runProgramArgs == old(runProgramArgs) &&
        targetPids == old(targetPids) && targetSuffix == old(targetSuffix)
      ensures !HelpRequested(args) ==> help == old(help)
      ensures r == Pass && !HelpRequested(args) ==>
        var o := options.value;
        SettingsOf(o) == Ok(Settings(action, launcherType)) &&
        quiet == o.quiet && web == o.web && disableAutoRunAs == o.disableRunAs &&
        injectIntoStdinHandle == o.injectIntoStdinHandle &&
        (o.targets != [] ==> runProgram == o.targets[0] && runProgramArgs == o.targets[1..]) &&
        (o.targets == [] ==> runProgram == old(runProgram) && runProgramArgs == old(runProgramArgs)) &&
        targetPids == old(targetPids) + PidsOf(Classified(o.targets)) &&
        targetSuffix == old(targetSuffix) + SuffixesOf(Classified(o.targets))
    {
      if HelpRequested(args) {
        help := true;
        return Pass;
      }
      if options.Err? {
        return Fail(options.message);
      }
      var o := options.value;
      var settings := ParseSettings(o);
      if settings.Err? {
        return Fail(settings.message);
      }
      Assign(o, settings.value);
      AddTargets(o.targets);
      return Pass;
    }

    /** Stores the parsed command line. */
    method Assign(o: Options, settings: Settings)
      modifies this`action, this`launcherType, this`quiet, this`web, this`disableAutoRunAs
      modifies this`injectIntoStdinHandle, this`runProgram, this`runProgramArgs
      ensures action == settings.action && launcherType == settings.launcherType
      ensures quiet == o.quiet && web == o.web && disableAutoRunAs == o.disableRunAs
      ensures injectIntoStdinHandle == o.injectIntoStdinHandle
      ensures o.targets != [] ==> runProgram == o.targets[0] && runProgramArgs == o.targets[1..]
      ensures o.targets == [] ==> runProgram == old(runProgram) && runProgramArgs == old(runProgramArgs)
    {
      action := settings.action;
      launcherType := settings.launcherType;
      quiet := o.quiet;
      web := o.web;
      disableAutoRunAs := o.disableRunAs;
      injectIntoStdinHandle := o.injectIntoStdinHandle;
      if o.targets != [] {
        runProgram := o.targets[0];
        runProgramArgs := o.targets[1..];
      }
    }

    /** GetTargetPidList: the named pids (whether running or not), plus every
        running process whose path ends with a named suffix; with nothing named,
        the suffixes become the game executables. */
    method GetTargetPidList(processList: seq<nat>, processes: seq<ProcessEntry>) returns (pids: set<nat>)
      modifies this`targetSuffix
      ensures targetSuffix == SuffixesAfterDefaults(targetPids, old(targetSuffix))
      ensures pids == targetPids + MatchingPids(processes, targetSuffix)
    {
      pids := {};
      if targetPids != {} {
        pids := set p | p in processList && p in targetPids;
        pids := pids + targetPids;
        RequestedPidsReturned(processList, targetPids);
      } else if targetSuffix == {} {
        targetSuffix := DefaultSuffixes;
      }
      if targetSuffix != {} {
        var found := RunningWithSuffix(processes, targetSuffix);
        pids := pids + found;
      } else {
        assert MatchingPids(processes, targetSuffix) == {};
      }
    }
  }

  /** The scan over the process snapshot: every process whose lowercased path
      ends with one of the suffixes; processes without a path are skipped. */
  method RunningWithSuffix(processes: seq<ProcessEntry>, suffixes: set<string>) returns (found: set<nat>)
    ensures found == MatchingPids(processes, suffixes)
  {
    found := {};
    var i := 0;
    assert processes[..0] == [];
    while i < |processes|
      invariant 0 <= i <= |processes|
      invariant found == MatchingPids(processes[..i], suffixes)
    {
      var p := processes[i];
      assert processes[..i + 1] == processes[..i] + [p];
      MatchingPidsAppend(processes[..i], p, suffixes);
      if p.path.Some? {
        var suffixFound := EndsWithAny(Lower(p.path.value), suffixes);
        if suffixFound {
          found := found + {p.pid};
        }
      }
      i := i + 1;
    }
    assert processes[..i] == processes;
  }

  /** Requested pids are always returned and always contain the running ones
      among them: intersecting with the process list adds nothing. */
  lemma RequestedPidsReturned(processList: seq<nat>, requested: set<nat>)
    ensures (set p | p in processList && p in requested) + requested == requested
  {
  }

  // ---------------------------------------------------------------------
  // What wWinMain tells the user when no process matched

  const NotRunningMessage: string := GameExecutable64Name + " not found. Run the game first, and then try again."
  const NoMatchMessage: string := "No matching process found."

  datatype NoMatchStep = StartLauncher | ShowError(message: string) | ExitQuietly

  /** The reaction to an empty pid list, judged on the targets the command line named. */
  function NoMatchReaction(action: LoaderAction, quiet: bool, pids: set<nat>, suffixes: set<string>): (r: NoMatchStep)
    ensures action == LoaderAction.Auto <==> r == StartLauncher
    ensures action != LoaderAction.Auto && quiet ==> r == ExitQuietly
    ensures r == ShowError(NotRunningMessage) <==> action != LoaderAction.Auto && !quiet && pids == {} && suffixes == {}
  {
    if action == LoaderAction.Auto then StartLauncher
    else if quiet then ExitQuietly
    else if pids == {} && suffixes == {} then ShowError(NotRunningMessage)
    else ShowError(NoMatchMessage)
  }

  /** The reaction as written: the sets are inspected after GetTargetPidList has
      filled in the default suffixes. */
  function NoMatchReactionAsWritten(action: LoaderAction, quiet: bool, pids: set<nat>, suffixes: set<string>): (r: NoMatchStep)
    ensures action == LoaderAction.Auto <==> r == StartLauncher
    ensures action != LoaderAction.Auto && quiet ==> r == ExitQuietly
    ensures action != LoaderAction.Auto && !quiet ==> r == ShowError(NoMatchMessage)
  {
    assert GameExecutable32Name in DefaultSuffixes;
    NoMatchReaction(action, quiet, pids, SuffixesAfterDefaults(pids, suffixes))
  }

  /** As written, the "not found, run the game first" message can never appear:
      with no targets named, the user is told no process matched instead. */
  lemma NoMatchReactionAsWrittenNeverSaysNotRunning(action: LoaderAction, quiet: bool, pids: set<nat>, suffixes: set<string>)
    ensures NoMatchReactionAsWritten(action, quiet, pids, suffixes) != ShowError(NotRunningMessage)
    ensures action != LoaderAction.Auto && !quiet && pids == {} && suffixes == {} ==>
      NoMatchReactionAsWritten(action, quiet, pids, suffixes) == ShowError(NoMatchMessage) &&
      NoMatchReaction(action, quiet, pids, suffixes) == ShowError(NotRunningMessage)
  {
    assert GameExecutable32Name in DefaultSuffixes;
  }

  // ---------------------------------------------------------------------
  // Package consistency

  /** The (file version, product version) pair of one shipped binary. */
  datatype ModuleVersion = ModuleVersion(fileVersion: string, productVersion: string)

  /** CheckPackageVersions: every binary must report the first one's versions. */
  method CheckPackageVersions(modules: seq<ModuleVersion>) returns (r: Outcome)
    ensures r == Pass <==> forall i :: 1 <= i < |modules| ==> modules[i] == modules[0]
    ensures r != Pass ==> r == Fail("Inconsistent files.")
  {
    var i := 1;
    while i < |modules|
      invariant 1 <= i <= if modules == [] then 1 else |modules|
      invariant forall k :: 1 <= k < i ==> modules[k] == modules[0]
    {
      if modules[0].fileVersion != modules[i].fileVersion || modules[0].productVersion != modules[i].productVersion {
        return Fail("Inconsistent files.");
      }
      i := i + 1;
    }
    return Pass;
  }

  // ---------------------------------------------------------------------
  // Per-process task

  /** The button the user pressed; Closed stands for any other return. */
  datatype PromptAnswer = Yes | No | Cancel | Closed

  /** Ask and Auto are settled by a message box; Yes loads, No unloads when the
      addon is present and skips otherwise, Cancel skips, anything else keeps the action. */
  function DecidedAction(action: LoaderAction, loaded: bool, answer: PromptAnswer): (r: LoaderAction)
    ensures action != LoaderAction.Ask && action != LoaderAction.Auto ==> r == action
    ensures action == LoaderAction.Ask || action == LoaderAction.Auto ==>
      (r == LoaderAction.Load <==> answer == Yes) &&
      (r == LoaderAction.Unload <==> loaded && answer == No) &&
      (r == LoaderAction.Count <==> (loaded && answer == Cancel) || (!loaded && answer == No)) &&
      (r != LoaderAction.Load && r != LoaderAction.Unload && r != LoaderAction.Count ==> r == action)
  {
    if action != LoaderAction.Ask && action != LoaderAction.Auto then action
    else if loaded then
      match answer
      case Yes => LoaderAction.Load
      case No => LoaderAction.Unload
      case Cancel => LoaderAction.Count
      case Closed => action
    else
      match answer
      case Yes => LoaderAction.Load
      case No => LoaderAction.Count
      case _ => action
  }

  /** What DoPidTask does with one process: hand it to the loader of the other
      bitness, do nothing, inject and run an action, or stop with the error
      the release lookup raised. */
  datatype PidTask = Relaunch(use64BitLoader: bool, args: string) | Skip | Inject(action: LoaderAction) | Abandon(message: string)

  /** DoPidTask's plan: a process of the other bitness is handed to the matching
      loader with the arguments as formatted; otherwise, before asking about a
      process without the addon, the game's region and version are looked up
      (release) and a failed lookup ends the task; the decided action is then
      carried out unless it is the sentinel or an unload of an addon that is not there. */
  function PlanPidTask(targetIs64: bool, selfIs64: bool, action: LoaderAction, quiet: bool,
                       pid: nat, loaded: bool, release: Result<XivAlex.RegionAndVersion>,
                       answer: PromptAnswer): (r: PidTask)
    ensures r.Relaunch? <==> targetIs64 != selfIs64
    ensures r.Relaunch? ==> r.use64BitLoader == targetIs64 && r.args == RelaunchArgsAsWritten(action, quiet, pid)
    ensures r.Abandon? <==>
              targetIs64 == selfIs64 && !loaded && release.Err? &&
              (action == LoaderAction.Ask || action == LoaderAction.Auto)
    ensures r.Abandon? ==> r.message == release.message
    ensures r.Inject? ==> r.action != LoaderAction.Count && (r.action == LoaderAction.Unload ==> loaded)
  {
    if targetIs64 != selfIs64 then Relaunch(targetIs64, RelaunchArgsAsWritten(action, quiet, pid))
    else if (action == LoaderAction.Ask || action == LoaderAction.Auto) && !loaded && release.Err? then
      Abandon(release.message)
    else
      var decided := DecidedAction(action, loaded, answer);
      if decided == LoaderAction.Count then Skip
      else if decided == LoaderAction.Unload && !loaded then Skip
      else Inject(decided)
  }

  /** The early-exit rule: with matching bitness and no failed lookup the module is
      injected exactly when the decision is a real action, and never to unload an
      absent addon; explicit Load and Unload never look anything up. */
  lemma PidTaskEarlyExit(targetIs64: bool, selfIs64: bool, action: LoaderAction, quiet: bool,
                         pid: nat, loaded: bool, release: Result<XivAlex.RegionAndVersion>,
                         answer: PromptAnswer)
    ensures targetIs64 == selfIs64 && (release.Ok? || loaded) ==>
      var decided := DecidedAction(action, loaded, answer);
      (PlanPidTask(targetIs64, selfIs64, action, quiet, pid, loaded, release, answer).Inject? <==>
        decided != LoaderAction.Count && (decided == LoaderAction.Unload ==> loaded))
    ensures targetIs64 == selfIs64 && action == LoaderAction.Load ==>
      PlanPidTask(targetIs64, selfIs64, action, quiet, pid, loaded, release, answer) == Inject(LoaderAction.Load)
    ensures targetIs64 == selfIs64 && action == LoaderAction.Unload ==>
      PlanPidTask(targetIs64, selfIs64, action, quiet, pid, loaded, release, answer) ==
        (if loaded then Inject(LoaderAction.Unload) else Skip)
  {
  }

  /** The EnableXivAlexander arguments an injected task passes, in order, and its outcome:
      a load whose call returns non-zero fails and is undone by the cleanup's unload. */
  datatype InjectReport = InjectReport(calls: seq<nat>, outcome: Outcome)

  function InjectedCalls(action: LoaderAction, loadResult: nat): (r: InjectReport)
    ensures 1 in r.calls <==> action == LoaderAction.Load
    ensures 0 in r.calls <==> action == LoaderAction.Unload || r.outcome.Fail?
    ensures r.outcome.Fail? <==> action == LoaderAction.Load && loadResult != 0
    ensures r.outcome.Fail? ==> r.outcome.message == "Failed to start the addon: exit code " + Decimal(loadResult)
  {
    if action == LoaderAction.Load then
      if loadResult != 0 then InjectReport([1, 0], Fail("Failed to start the addon: exit code " + Decimal(loadResult)))
      else InjectReport([1], Pass)
    else if action == LoaderAction.Unload then InjectReport([0], Pass)
    else InjectReport([], Pass)
  }

  /** Whatever happens, a task that enabled the addon either succeeded or disabled it again. */
  lemma FailedLoadIsUndone(action: LoaderAction, loadResult: nat)
    ensures var rep := InjectedCalls(action, loadResult);
      (1 in rep.calls && rep.outcome.Fail? ==> rep.calls[|rep.calls| - 1] == 0)
    ensures InjectedCalls(action, loadResult).outcome.Fail? <==> action == LoaderAction.Load && loadResult != 0
  {
  }

  // ---------------------------------------------------------------------
  // The relaunch command line

  /** The words the arguments as written consist of: "<action>-a", the quiet
      flag if any, an empty word and the pid. */
  function AsWrittenWords(action: LoaderAction, quiet: bool, pid: nat): seq<string>
  {
    [LoaderActionRepr(action) + "-a"] + (if quiet then ["-q"] else []) + ["", Decimal(pid)]
  }

  /** The arguments as the format "{}-a {} {}" builds them: the action's name
      lands in front of "-a" and "-a" takes the quiet flag or nothing. */
  function RelaunchArgsAsWritten(action: LoaderAction, quiet: bool, pid: nat): (r: string)
    ensures Split(r, ' ') == AsWrittenWords(action, quiet, pid)
  {
    AsWrittenSplit(action, quiet, pid);
    LoaderActionRepr(action) + "-a " + (if quiet then "-q " else "") + " " + Decimal(pid)
  }

  lemma AsWrittenSplit(action: LoaderAction, quiet: bool, pid: nat)
    ensures Split(LoaderActionRepr(action) + "-a " + (if quiet then "-q " else "") + " " + Decimal(pid), ' ') ==
      AsWrittenWords(action, quiet, pid)
  {
    var head := LoaderActionRepr(action) + "-a";
    var num := Decimal(pid);
    var flag := if quiet then "-q " else "";
    NoSpaceInDecimal(pid);
    SplitOfQuietAndPid(quiet, num);
    var rest := flag + " " + num;
    calc {
      LoaderActionRepr(action) + "-a " + flag + " " + num;
      { AppendAssoc(LoaderActionRepr(action) + "-a ", flag, " "); }
      LoaderActionRepr(action) + "-a " + (flag + " ") + num;
      { AppendAssoc(LoaderActionRepr(action) + "-a ", flag + " ", num); }
      LoaderActionRepr(action) + "-a " + rest;
      { assert LoaderActionRepr(action) + "-a " == head + [' ']; }
      head + [' '] + rest;
    }
    SplitAfterPiece(head, rest, ' ');
  }

  /** The tail of the arguments as written: the quiet flag if any, then an
      empty word before the pid. */
  lemma SplitOfQuietAndPid(quiet: bool, num: string)
    requires ' ' !in num
    ensures Split((if quiet then "-q " else "") + " " + num, ' ') == (if quiet then ["-q"] else []) + ["", num]
  {
    var tail := " " + num;
    SplitOfSpaceAndPid(num);
    if quiet {
      SplitAfterPiece("-q", tail, ' ');
      assert "-q " + " " + num == "-q" + [' '] + tail;
    } else {
      assert "" + " " + num == tail;
    }
  }

  lemma SplitOfSpaceAndPid(num: string)
    requires ' ' !in num
    ensures Split(" " + num, ' ') == ["", num]
  {
    SplitNoDelimiter(num, ' ');
    SplitAfterPiece("", num, ' ');
    assert "" + [' '] + num == " " + num;
  }

  lemma NoSpaceInDecimal(n: nat)
    ensures ' ' !in Decimal(n)
  {
  }

  /** As written no word the other loader sees is "-a": the first is
      "<action>-a", so the action never reaches it. */
  lemma RelaunchArgsAsWrittenLosesAction(action: LoaderAction, quiet: bool, pid: nat)
    ensures Split(RelaunchArgsAsWritten(action, quiet, pid), ' ')[0] == LoaderActionRepr(action) + "-a"
    ensures "-a" !in Split(RelaunchArgsAsWritten(action, quiet, pid), ' ')
  {
    var words := AsWrittenWords(action, quiet, pid);
    var num := Decimal(pid);
    assert num != "-a" by {
      assert IsDigit(num[0]);
    }
    assert |LoaderActionRepr(action) + "-a"| > 2;
    assert words == [LoaderActionRepr(action) + "-a"] + (if quiet then ["-q"] else []) + ["", num];
  }

  /** The words the intended arguments consist of. */
  function RelaunchWords(action: LoaderAction, quiet: bool, pid: nat): seq<string>
  {
    ["-a", LoaderActionRepr(action)] + (if quiet then ["-q"] else []) + [Decimal(pid)]
  }

  /** The intended arguments: "-a <action> [-q ]<pid>", which split into "-a",
      the action's name, the optional "-q" and the pid. */
  function RelaunchArgs(action: LoaderAction, quiet: bool, pid: nat): (r: string)
    ensures Split(r, ' ') == RelaunchWords(action, quiet, pid)
  {
    RelaunchWordsJoined(action, quiet, pid);
    RelaunchWordsHaveNoSpace(action, quiet, pid);
    SplitJoin(RelaunchWords(action, quiet, pid), ' ');
    "-a " + LoaderActionRepr(action) + " " + (if quiet then "-q " else "") + Decimal(pid)
  }

  lemma RelaunchWordsJoined(action: LoaderAction, quiet: bool, pid: nat)
    ensures Join(RelaunchWords(action, quiet, pid), ' ') ==
      "-a " + LoaderActionRepr(action) + " " + (if quiet then "-q " else "") + Decimal(pid)
  {
    var name := LoaderActionRepr(action);
    var num := Decimal(pid);
    assert "-a " == "-a" + [' '] && "-q " == "-q" + [' '];
    if quiet {
      JoinFour("-a", name, "-q", num, ' ');
      assert RelaunchWords(action, quiet, pid) == ["-a", name, "-q", num];
      AppendAssoc("-a" + [' '] + name + [' '], "-q", [' ']);
    } else {
      JoinThree("-a", name, num, ' ');
      assert RelaunchWords(action, quiet, pid) == ["-a", name, num];
      assert "-a " + name + " " + "" == "-a" + [' '] + name + [' '];
    }
  }

  lemma RelaunchWordsHaveNoSpace(action: LoaderAction, quiet: bool, pid: nat)
    ensures forall i :: 0 <= i < |RelaunchWords(action, quiet, pid)| ==> ' ' !in RelaunchWords(action, quiet, pid)[i]
  {
    NoSpaceInDecimal(pid);
  }

  /** The loader started for the other bitness reads back the same action and pid. */
  lemma RelaunchArgsRoundTrip(action: LoaderAction, quiet: bool, pid: nat)
    requires action != LoaderAction.Count && pid <= IntMax
    ensures var words := Split(RelaunchArgs(action, quiet, pid), ' ');
      |words| >= 3 && words[0] == "-a" &&
      LoaderActionOf(words[1]) == Ok(action) &&
      ClassifyTarget(words[|words| - 1]) == PidTarget(pid)
  {
    LoaderActionRoundTrip(action);
    ClassifyDecimal(pid);
  }
}
