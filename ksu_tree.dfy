/** The script's run over a kernel tree: the defconfig step (`modify_ksu_config`), then
    the source step (`process_kernel_source`) over the six files `main` names. The tree's
    regular files are a map from path to text; directory listings are given with the
    tree. */
module KsuTree {
  import opened Text
  import opened KsuConfig
  import opened KsuPatterns
  import opened KsuInject
  import opened KsuRegistry

  // ---- the defconfig step ----

  datatype ConfigOutcome = Written(path: string) | NoDefconfig | KprobesAbort(path: string) | ListingFailed(dir: string)

  datatype ConfigRun = ConfigRun(outcome: ConfigOutcome, files: map<string, string>)

  /** `modify_ksu_config` (lines 26-75): find the defconfig, refuse a tree with kprobes
      on, else rewrite or append the `CONFIG_KSU` line. Only the defconfig can change. */
  function ConfigStep(listing: map<string, seq<string>>, files: map<string, string>, enable: bool): (r: ConfigRun)
    ensures r.files.Keys == files.Keys
    ensures forall q :: q in files && !(r.outcome.Written? && q == r.outcome.path) ==> r.files[q] == files[q]
    ensures r.outcome.Written? ==>
      r.outcome.path in files && ToggleConfig(files[r.outcome.path], enable) == Toggled(r.files[r.outcome.path])
    ensures r.outcome.KprobesAbort? ==> r.outcome.path in files && KprobesLine in Lines(files[r.outcome.path])
  {
    match SelectDefconfig(listing, files, DefconfigDirs)
    case NotFound => ConfigRun(NoDefconfig, files)
    case MissingDirectory(d) => ConfigRun(ListingFailed(d), files)
    case Found(p) =>
      match ToggleConfig(files[p], enable)
      case KprobesEnabled => ConfigRun(KprobesAbort(p), files)
      case Toggled(t) => ConfigRun(Written(p), files[p := t])
  }

  lemma {:induction false} FirstEntryDependsOnNames(f1: map<string, string>, f2: map<string, string>, dir: string, names: seq<string>, from: nat)
    requires f1.Keys == f2.Keys
    ensures FirstEntryFrom(f1, dir, names, from) == FirstEntryFrom(f2, dir, names, from)
    decreases |names| - from
  {
    if from < |names| {
      assert IsDefconfigEntry(f1, dir, names[from]) == IsDefconfigEntry(f2, dir, names[from]);
      FirstEntryDependsOnNames(f1, f2, dir, names, from + 1);
    }
  }

  /** Which defconfig is chosen depends on which files exist, not on what they hold. */
  lemma {:induction false} SelectDependsOnNames(listing: map<string, seq<string>>, f1: map<string, string>, f2: map<string, string>, dirs: seq<string>)
    requires f1.Keys == f2.Keys
    ensures SelectDefconfig(listing, f1, dirs) == SelectDefconfig(listing, f2, dirs)
    decreases |dirs|
  {
    if dirs != [] && dirs[0] in listing {
      FirstEntryDependsOnNames(f1, f2, dirs[0], listing[dirs[0]], 0);
      SelectDependsOnNames(listing, f1, f2, dirs[1..]);
    }
  }

  /** Running the defconfig step again on its own output changes nothing more. */
  lemma ConfigStepIdempotent(listing: map<string, seq<string>>, files: map<string, string>, enable: bool)
    ensures ConfigStep(listing, ConfigStep(listing, files, enable).files, enable) == ConfigStep(listing, files, enable)
  {
    var r := ConfigStep(listing, files, enable);
    SelectDependsOnNames(listing, files, r.files, DefconfigDirs);
    if r.outcome.Written? {
      var p := r.outcome.path;
      ToggleIdempotent(files[p], enable);
      assert r.files[p] == ToggleConfig(files[p], enable).text;
      assert ToggleConfig(r.files[p], enable) == Toggled(r.files[p]);
      assert r.files[p := r.files[p]] == r.files;
    }
  }

  /** Enabling then disabling (or the other way round) leaves the tree as the second
      run alone would. */
  lemma ConfigLastRunWins(listing: map<string, seq<string>>, files: map<string, string>, first: bool, second: bool)
    requires ConfigStep(listing, files, first).outcome.Written?
    ensures ConfigStep(listing, ConfigStep(listing, files, first).files, second) == ConfigStep(listing, files, second)
  {
    var r := ConfigStep(listing, files, first);
    var p := r.outcome.path;
    SelectDependsOnNames(listing, files, r.files, DefconfigDirs);
    LastToggleWins(files[p], first, second);
    assert r.files == files[p := ToggleConfig(files[p], first).text];
    assert ToggleConfig(r.files[p], second) == ToggleConfig(files[p], second);
    match ToggleConfig(files[p], second)
    case KprobesEnabled =>
    case Toggled(t) =>
      assert r.files[p := t] == files[p := t];
  }

  // ---- the source step ----

  /** What the header step leaves in a file: the file is rewritten only when the block
      was added. */
  function HeaderStep(content: string): string
  {
    match AddHeader(content)
    case HeaderAdded(t) => t
    case _ => content
  }

  /** What the call step leaves in a file. */
  function CallStep(path: string, content: string, rule: Rule, disableExternal: bool): string
  {
    match AddCalls(path, content, rule.functions, rule.code, disableExternal)
    case CallsAdded(_, t) => t
    case _ => content
  }

  /** The new text of a registry file: header then call when enabling, removal of the
      guarded regions when disabling. */
  function FileStep(path: string, content: string, rule: Rule, enable: bool, disableExternal: bool): string
  {
    if enable then CallStep(path, HeaderStep(content), rule, disableExternal) else RemoveGuarded(content)
  }

  /** One iteration of the loop of `process_kernel_source` (lines 212-230). `None` is the
      exception raised by opening a registry file that is not there. */
  function ProcessFile(files: map<string, string>, path: string, rules: map<string, Rule>, enable: bool, disableExternal: bool): (r: Option<map<string, string>>)
    ensures r.None? <==> BaseName(path) in rules && path !in files
    ensures r.Some? ==> r.value.Keys == files.Keys && forall q :: q in files && q != path ==> r.value[q] == files[q]
    ensures r.Some? && BaseName(path) in rules ==>
      r.value[path] == FileStep(path, files[path], rules[BaseName(path)], enable, disableExternal)
    ensures BaseName(path) !in rules ==> r == Some(files)
  {
    var name := BaseName(path);
    if name !in rules then Some(files)
    else if path !in files then None
    else Some(files[path := FileStep(path, files[path], rules[name], enable, disableExternal)])
  }

  datatype SourceRun = Completed(files: map<string, string>) | Crashed(files: map<string, string>, path: string)

  /** The whole loop: files in order, stopping at the first registry file that is not in
      the tree. */
  function ProcessAll(files: map<string, string>, paths: seq<string>, rules: map<string, Rule>, enable: bool, disableExternal: bool): SourceRun
    decreases |paths|
  {
    if paths == [] then Completed(files)
    else match ProcessFile(files, paths[0], rules, enable, disableExternal)
      case None => Crashed(files, paths[0])
      case Some(f) => ProcessAll(f, paths[1..], rules, enable, disableExternal)
  }

  /** The loop never adds or drops a file, and never touches a path it is not given. */
  lemma {:induction false} ProcessAllFrame(files: map<string, string>, paths: seq<string>, rules: map<string, Rule>, enable: bool, disableExternal: bool)
    ensures ProcessAll(files, paths, rules, enable, disableExternal).files.Keys == files.Keys
    ensures forall q :: q in files && q !in paths ==> ProcessAll(files, paths, rules, enable, disableExternal).files[q] == files[q]
    decreases |paths|
  {
    if paths != [] {
      var r := ProcessFile(files, paths[0], rules, enable, disableExternal);
      if r.Some? {
        ProcessAllFrame(r.value, paths[1..], rules, enable, disableExternal);
        forall q | q in files && q !in paths
          ensures ProcessAll(files, paths, rules, enable, disableExternal).files[q] == files[q]
        {
          assert q != paths[0] && q !in paths[1..];
        }
      }
    }
  }

  /** A loop that ran to the end found every registry file it was given. */
  lemma {:induction false} CompletedHadAll(files: map<string, string>, paths: seq<string>, rules: map<string, Rule>, enable: bool, disableExternal: bool)
    requires ProcessAll(files, paths, rules, enable, disableExternal).Completed?
    ensures forall k :: 0 <= k < |paths| && BaseName(paths[k]) in rules ==> paths[k] in files
    decreases |paths|
  {
    if paths != [] {
      var r := ProcessFile(files, paths[0], rules, enable, disableExternal);
      var tail := paths[1..];
      CompletedHadAll(r.value, tail, rules, enable, disableExternal);
      forall k | 0 <= k < |paths| && BaseName(paths[k]) in rules ensures paths[k] in files {
        if k > 0 {
          assert tail[k - 1] == paths[k];
        }
      }
    }
  }

  /** A loop that stopped stopped at a registry file that is missing, and every registry
      file before it was there. */
  lemma {:induction false} CrashedAtFirstMissing(files: map<string, string>, paths: seq<string>, rules: map<string, Rule>, enable: bool, disableExternal: bool)
    returns (k: nat)
    requires ProcessAll(files, paths, rules, enable, disableExternal).Crashed?
    ensures k < |paths| && paths[k] == ProcessAll(files, paths, rules, enable, disableExternal).path
    ensures BaseName(paths[k]) in rules && paths[k] !in files
    ensures forall j :: 0 <= j < k && BaseName(paths[j]) in rules ==> paths[j] in files
    decreases |paths|
  {
    var r := ProcessFile(files, paths[0], rules, enable, disableExternal);
    if r.None? {
      return 0;
    }
    var tail := paths[1..];
    assert ProcessAll(files, paths, rules, enable, disableExternal) == ProcessAll(r.value, tail, rules, enable, disableExternal);
    var k' := CrashedAtFirstMissing(r.value, tail, rules, enable, disableExternal);
    k := k' + 1;
    assert tail[k'] == paths[k];
    assert BaseName(paths[0]) in rules ==> paths[0] in files;
    forall j | 0 <= j < k && BaseName(paths[j]) in rules ensures paths[j] in files {
      if j > 0 {
        assert tail[j - 1] == paths[j];
      }
    }
  }

  /** The loop runs to the end exactly when every registry file among the paths exists;
      otherwise it stops at the first one that does not. */
  lemma ProcessAllCrash(files: map<string, string>, paths: seq<string>, rules: map<string, Rule>, enable: bool, disableExternal: bool)
    ensures ProcessAll(files, paths, rules, enable, disableExternal).Completed? <==>
      forall k :: 0 <= k < |paths| && BaseName(paths[k]) in rules ==> paths[k] in files
    ensures ProcessAll(files, paths, rules, enable, disableExternal).Crashed? ==>
      exists k :: 0 <= k < |paths| && paths[k] == ProcessAll(files, paths, rules, enable, disableExternal).path &&
        BaseName(paths[k]) in rules && paths[k] !in files &&
        forall j :: 0 <= j < k && BaseName(paths[j]) in rules ==> paths[j] in files
  {
    if ProcessAll(files, paths, rules, enable, disableExternal).Completed? {
      CompletedHadAll(files, paths, rules, enable, disableExternal);
    } else {
      var k := CrashedAtFirstMissing(files, paths, rules, enable, disableExternal);
    }
  }

  /** One turn of the loop, seen from position `k`. */
  lemma ProcessAllAt(files: map<string, string>, paths: seq<string>, rules: map<string, Rule>, enable: bool, disableExternal: bool, k: nat)
    requires k < |paths|
    ensures ProcessAll(files, paths[k..], rules, enable, disableExternal) ==
      match ProcessFile(files, paths[k], rules, enable, disableExternal)
      case None => Crashed(files, paths[k])
      case Some(f) => ProcessAll(f, paths[k + 1..], rules, enable, disableExternal)
  {
    assert paths[k..][0] == paths[k];
    assert paths[k..][1..] == paths[k + 1..];
  }

  /** Where the loop ends, each registry file given once has been through its step once. */
  lemma {:induction false} ProcessAllSteps(files: map<string, string>, paths: seq<string>, rules: map<string, Rule>, enable: bool, disableExternal: bool, i: nat)
    requires i < |paths| && paths[i] in files && BaseName(paths[i]) in rules
    requires forall j :: 0 <= j < |paths| && j != i ==> paths[j] != paths[i]
    requires ProcessAll(files, paths, rules, enable, disableExternal).Completed?
    ensures ProcessAll(files, paths, rules, enable, disableExternal).files.Keys == files.Keys
    ensures ProcessAll(files, paths, rules, enable, disableExternal).files[paths[i]] ==
      FileStep(paths[i], files[paths[i]], rules[BaseName(paths[i])], enable, disableExternal)
    decreases |paths|
  {
    ProcessAllFrame(files, paths, rules, enable, disableExternal);
    var r := ProcessFile(files, paths[0], rules, enable, disableExternal);
    var tail := paths[1..];
    if i == 0 {
      assert paths[0] !in tail by {
        forall j | 0 <= j < |tail| ensures tail[j] != paths[0] {
          assert tail[j] == paths[j + 1];
        }
      }
      ProcessAllFrame(r.value, tail, rules, enable, disableExternal);
    } else {
      assert paths[0] != paths[i];
      assert tail[i - 1] == paths[i];
      forall j | 0 <= j < |tail| && j != i - 1 ensures tail[j] != tail[i - 1] {
        assert tail[j] == paths[j + 1];
      }
      ProcessAllSteps(r.value, tail, rules, enable, disableExternal, i - 1);
    }
  }

  /** With external modifications disabled, a registry file outside the core four still
      gets the header; only the call is withheld. */
  lemma ExternalFileGetsHeader(path: string, content: string, rule: Rule)
    requires !IsCoreFile(path)
    ensures FileStep(path, content, rule, true, true) == HeaderStep(content)
  {
    ExternalGate(path, HeaderStep(content), rule.functions, rule.code);
  }

  /** Enabling a file and then disabling it, through the steps themselves: with the last
      `#include` line ending at `e`, the call site found in the enabled text lying after
      the header block (at `p` of the original text, `p + |HeaderBlock|` of the enabled
      one), and the inserted snippet of the guarded form, the removal leaves the newlines
      around both blocks and the snippet's indent behind. */
  lemma FileStepDisableAfterEnable(path: string, c: string, rule: Rule, disableExternal: bool,
                                   i: nat, e: nat, h: Hit, j: nat, p: nat, indent: string, body: string)
    requires IsIncludeLineEnd(c, i, e)
    requires var t := c[..e + 1] + HeaderBlock + c[e + 1..];
             FirstMatch(t, rule.functions) == Some(h) &&
             IfAt(t[h.end..], j) && (forall j' :: 0 <= j' < j ==> !IfAt(t[h.end..], j')) &&
             e + 1 <= p && h.end + j == p + |HeaderBlock|
    requires !disableExternal || IsCoreFile(path)
    requires HookCode(rule.functions[h.index], rule.code) == indent + GuardBegin + body + GuardEnd
    requires Absent(c, GuardBegin) && Absent(indent, GuardBegin) && Absent(body, GuardEnd)
    ensures p < |c|
    ensures RemoveGuarded(FileStep(path, c, rule, true, disableExternal)) ==
              c[..e + 1] + "\n" + ("\n" + c[e + 1..p] + "\n\n" + indent) + ("\n" + c[p..])
  {
    var t := c[..e + 1] + HeaderBlock + c[e + 1..];
    EnableFound(c, i, e, t, rule, h, j);
    HeaderBodyLacksEnd();
    EnableThenRemove(path, c, rule, disableExternal, e + 1, HeaderBlock, HeaderBody, h, j, p, indent, body,
                     c[..e + 1] + HeaderBlock + c[e + 1..]);
  }

  /** The facts of `FileStepDisableAfterEnable` in the form the splice lemmas take. */
  lemma EnableFound(c: string, i: nat, e: nat, t: string, rule: Rule, h: Hit, j: nat)
    requires IsIncludeLineEnd(c, i, e) && t == c[..e + 1] + HeaderBlock + c[e + 1..]
    requires FirstMatch(t, rule.functions) == Some(h)
    requires IfAt(t[h.end..], j) && (forall j' :: 0 <= j' < j ==> !IfAt(t[h.end..], j'))
    ensures AddHeader(c) == HeaderAdded(t) && h.end <= |t| && FindIf(t[h.end..], 0) == Some(j)
  {
    HeaderSplice(c, i, e);
    MatchEndInRange(t, rule.functions);
    FirstIfAt(t[h.end..], j);
  }

  /** `FileStepDisableAfterEnable` for any header step that adds a guarded block `hb`. */
  lemma EnableThenRemove(path: string, c: string, rule: Rule, disableExternal: bool, k: nat, hb: string, hbody: string,
                         h: Hit, j: nat, p: nat, indent: string, body: string, t: string)
    requires k <= |c| && hb == "\n" + GuardBegin + hbody + GuardEnd + "\n" && t == c[..k] + hb + c[k..]
    requires AddHeader(c) == HeaderAdded(t)
    requires FirstMatch(t, rule.functions) == Some(h) && h.end <= |t| && FindIf(t[h.end..], 0) == Some(j)
    requires k <= p && h.end + j == p + |hb|
    requires !disableExternal || IsCoreFile(path)
    requires HookCode(rule.functions[h.index], rule.code) == indent + GuardBegin + body + GuardEnd
    requires Absent(c, GuardBegin) && Absent(indent, GuardBegin) && Absent(body, GuardEnd) && Absent(hbody, GuardEnd)
    ensures p < |c|
    ensures RemoveGuarded(FileStep(path, c, rule, true, disableExternal)) ==
              c[..k] + "\n" + ("\n" + c[k..p] + "\n\n" + indent) + ("\n" + c[p..])
  {
    var q := h.end + j;
    var code := indent + GuardBegin + body + GuardEnd;
    var enabled := t[..q] + CallBlock(code) + t[q..];
    var r := c[..k] + "\n" + ("\n" + c[k..p] + "\n\n" + indent) + ("\n" + c[p..]);
    RemoveInjected(c, k, p, hb, hbody, indent, body, t, q, enabled);
    EnabledText(path, c, t, rule, disableExternal, h, j, q, code);
    RemovedAs(FileStep(path, c, rule, true, disableExternal), enabled, r);
  }

  lemma RemovedAs(s: string, enabled: string, r: string)
    requires s == enabled && RemoveGuarded(enabled) == r
    ensures RemoveGuarded(s) == r
  {
  }

  /** The enabled text: the header step's output with the call block spliced in. */
  lemma EnabledText(path: string, c: string, t: string, rule: Rule, disableExternal: bool, h: Hit, j: nat, q: nat, code: string)
    requires AddHeader(c) == HeaderAdded(t)
    requires FirstMatch(t, rule.functions) == Some(h) && h.end <= |t| && FindIf(t[h.end..], 0) == Some(j)
    requires !disableExternal || IsCoreFile(path)
    requires q == h.end + j && HookCode(rule.functions[h.index], rule.code) == code
    ensures q < |t| && FileStep(path, c, rule, true, disableExternal) == t[..q] + CallBlock(code) + t[q..]
  {
    CallStepSplice(path, t, rule, disableExternal, h, j, q, code);
    EnableStep(path, c, t, rule, disableExternal);
  }

  lemma EnableStep(path: string, c: string, t: string, rule: Rule, disableExternal: bool)
    requires AddHeader(c) == HeaderAdded(t)
    ensures FileStep(path, c, rule, true, disableExternal) == CallStep(path, t, rule, disableExternal)
  {
  }

  /** The call step on a text where `CallSplice` applies. */
  lemma CallStepSplice(path: string, t: string, rule: Rule, disableExternal: bool, h: Hit, j: nat, q: nat, code: string)
    requires FirstMatch(t, rule.functions) == Some(h) && h.end <= |t| && FindIf(t[h.end..], 0) == Some(j)
    requires !disableExternal || IsCoreFile(path)
    requires q == h.end + j && HookCode(rule.functions[h.index], rule.code) == code
    ensures q < |t| && CallStep(path, t, rule, disableExternal) == t[..q] + CallBlock(code) + t[q..]
  {
    AddCallsFound(path, t, rule.functions, rule.code, disableExternal, h, j);
  }

  // ---- the run ----

  datatype RunResult = Stopped(config: ConfigOutcome) | Finished(config: ConfigOutcome, crashedAt: Option<string>)

  datatype RunState = RunState(result: RunResult, files: map<string, string>)

  /** `main` (lines 232-259) without its argument parsing and patching: the defconfig
      step first, then, unless it ended the program, the source step over `paths` with
      the rule table `rules`. */
  function RunSpec(listing: map<string, seq<string>>, files: map<string, string>, rules: map<string, Rule>, paths: seq<string>,
                   disableKsu: bool, disableExternal: bool): RunState
  {
    var c := ConfigStep(listing, files, !disableKsu);
    if c.outcome.KprobesAbort? || c.outcome.ListingFailed? then RunState(Stopped(c.outcome), c.files)
    else match ProcessAll(c.files, paths, rules, !disableKsu, disableExternal)
      case Completed(f) => RunState(Finished(c.outcome, None), f)
      case Crashed(f, p) => RunState(Finished(c.outcome, Some(p)), f)
  }

  /** A defconfig with kprobes on stops the program before any file is written. */
  lemma KprobesStopsRun(listing: map<string, seq<string>>, files: map<string, string>, rules: map<string, Rule>, paths: seq<string>,
                        disableKsu: bool, disableExternal: bool, p: string)
    requires SelectDefconfig(listing, files, DefconfigDirs) == Found(p)
    requires KprobesLine in Lines(files[p])
    ensures RunSpec(listing, files, rules, paths, disableKsu, disableExternal) == RunState(Stopped(KprobesAbort(p)), files)
  {
    KprobesAborts(files[p]);
  }

  /** No defconfig is an error message only: the source step still runs, on the tree as
      it was. */
  lemma MissingDefconfigContinues(listing: map<string, seq<string>>, files: map<string, string>, rules: map<string, Rule>, paths: seq<string>,
                                  disableKsu: bool, disableExternal: bool)
    requires SelectDefconfig(listing, files, DefconfigDirs) == NotFound
    ensures RunSpec(listing, files, rules, paths, disableKsu, disableExternal).result.Finished?
    ensures RunSpec(listing, files, rules, paths, disableKsu, disableExternal).result.config == NoDefconfig
    ensures RunSpec(listing, files, rules, paths, disableKsu, disableExternal).files == ProcessAll(files, paths, rules, !disableKsu, disableExternal).files
  {
  }

  /** When the run gets past the defconfig step with a defconfig written, the defconfig
      ends up toggled, as the source step does not touch a path it is not given. */
  lemma RunTogglesDefconfig(listing: map<string, seq<string>>, files: map<string, string>, rules: map<string, Rule>, paths: seq<string>,
                            disableKsu: bool, disableExternal: bool, p: string)
    requires SelectDefconfig(listing, files, DefconfigDirs) == Found(p)
    requires KprobesLine !in Lines(files[p]) && p !in paths
    ensures RunSpec(listing, files, rules, paths, disableKsu, disableExternal).files.Keys == files.Keys
    ensures RunSpec(listing, files, rules, paths, disableKsu, disableExternal).result.config == Written(p)
    ensures ToggleConfig(files[p], !disableKsu) == Toggled(RunSpec(listing, files, rules, paths, disableKsu, disableExternal).files[p])
  {
    KprobesAborts(files[p]);
    var c := ConfigStep(listing, files, !disableKsu);
    ProcessAllFrame(c.files, paths, rules, !disableKsu, disableExternal);
  }

  /** The defconfig is never one of the six source files. */
  lemma DefconfigIsNotMain(listing: map<string, seq<string>>, files: map<string, string>, p: string)
    requires SelectDefconfig(listing, files, DefconfigDirs) == Found(p)
    ensures p !in MainPaths
  {
    SelectDefconfigCases(listing, files, DefconfigDirs);
    var k: nat :| FoundIn(listing, files, DefconfigDirs, k, p);
    var dir := DefconfigDirs[k];
    var name := listing[dir][FirstEntry(files, dir, listing[dir]).value];
    assert EndsWith(name, DefconfigSuffix);
    assert p == dir + "/" + name;
    assert p[|p| - 1] == name[|name| - 1] == DefconfigSuffix[|DefconfigSuffix| - 1] == 'g';
    forall m | 0 <= m < |MainPaths| ensures MainPaths[m][|MainPaths[m]| - 1] == 'c' {
      if m == 0 {} else if m == 1 {} else if m == 2 {} else if m == 3 {} else if m == 4 {} else {}
    }
  }

  // ---- the tree as the script sees it ----

  class KernelTree {
    /** The regular files of the tree, by path, and what each holds. */
    var files: map<string, string>
    /** What `os.listdir` gives for each directory that exists. */
    const listing: map<string, seq<string>>
    /** The `ksu_calls` table the script carries. */
    const rules: map<string, Rule>
    /** The files `main` hands to the source step. */
    const mainPaths: seq<string>

    constructor (files0: map<string, string>, listing0: map<string, seq<string>>)
      ensures files == files0 && listing == listing0 && rules == Registry && mainPaths == MainPaths
    {
      files := files0;
      listing := listing0;
      rules := Registry;
      mainPaths := MainPaths;
    }

    /** The directory loop of `modify_ksu_config` (lines 35-42). */
    method FindDefconfig() returns (r: DefconfigSearch)
      ensures r == SelectDefconfig(listing, files, DefconfigDirs)
      ensures r.Found? ==> r.path in files && EndsWith(r.path, DefconfigSuffix)
    {
      var dirs := DefconfigDirs;
      var d := 0;
      while d < |dirs|
        invariant 0 <= d <= |dirs|
        invariant SelectDefconfig(listing, files, dirs) == SelectDefconfig(listing, files, dirs[d..])
      {
        var dir := dirs[d];
        if dir !in listing {
          return MissingDirectory(dir);
        }
        var names := listing[dir];
        var n := FirstEntryIn(dir, names);
        if n.Some? {
          var name := names[n.value];
          r := Found(JoinPath(dir, name));
          assert EndsWith(r.path, name) by { SuffixOfJoin(dir + "/", name); }
          assert r.path[|r.path| - |DefconfigSuffix|..] == name[|name| - |DefconfigSuffix|..];
          return;
        }
        assert dirs[d..][1..] == dirs[d + 1..];
        d := d + 1;
      }
      return NotFound;
    }

    /** The file loop of `modify_ksu_config` (lines 36-40) over one directory. */
    method FirstEntryIn(dir: string, names: seq<string>) returns (r: Option<nat>)
      ensures r == FirstEntry(files, dir, names)
    {
      var n := 0;
      while n < |names|
        invariant 0 <= n <= |names|
        invariant FirstEntry(files, dir, names) == FirstEntryFrom(files, dir, names, n)
      {
        if EndsWith(names[n], DefconfigSuffix) && JoinPath(dir, names[n]) in files {
          return Some(n);
        }
        n := n + 1;
      }
      return None;
    }

    /** `modify_ksu_config`: the defconfig step on the tree. */
    method ModifyKsuConfig(enable: bool) returns (r: ConfigOutcome)
      modifies this
      ensures ConfigRun(r, files) == ConfigStep(listing, old(files), enable)
    {
      var found := FindDefconfig();
      match found
      case NotFound => return NoDefconfig;
      case MissingDirectory(dir) => return ListingFailed(dir);
      case Found(path) =>
        var toggled := ToggleConfig(files[path], enable);
        if toggled.KprobesEnabled? {
          return KprobesAbort(path);
        }
        files := files[path := toggled.text];
        return Written(path);
    }

    /** `add_ksu_header` on one file of the tree. */
    method AddKsuHeader(path: string) returns (r: HeaderResult)
      requires path in files
      modifies this
      ensures r == AddHeader(old(files)[path])
      ensures files == old(files)[path := HeaderStep(old(files)[path])]
    {
      r := AddHeader(files[path]);
      if r.HeaderAdded? {
        files := files[path := r.text];
      }
    }

    /** `add_ksu_calls` on one file of the tree. */
    method AddKsuCalls(path: string, functions: seq<string>, code: string, disableExternal: bool) returns (r: CallResult)
      requires path in files
      modifies this
      ensures r == AddCalls(path, old(files)[path], functions, code, disableExternal)
      ensures files == old(files)[path := CallStep(path, old(files)[path], Rule(functions, code), disableExternal)]
    {
      var content := files[path];
      ghost var expected := AddCalls(path, content, functions, code, disableExternal);
      var hit := FindFunction(content, functions);
      if hit.None? {
        assert expected == NoFunction;
        return NoFunction;
      }
      var name := functions[hit.value.index];
      MatchEndInRange(content, functions);
      var body := content[hit.value.end..];
      var at := FindIf(body, 0);
      if at.None? {
        assert expected == NoIf(name);
        return NoIf(name);
      }
      var p := hit.value.end + at.value;
      if !disableExternal || IsCoreFile(path) {
        var text := content[..p] + CallBlock(HookCode(name, code)) + content[p..];
        assert expected == CallsAdded(name, text);
        files := files[path := text];
        return CallsAdded(name, text);
      }
      assert expected == ExternalSkipped(name);
      return ExternalSkipped(name);
    }

    /** The body of the loop of `process_kernel_source` (lines 219-226) for a registry
        file that exists. */
    method PatchFile(path: string, rule: Rule, enable: bool, disableExternal: bool)
      requires path in files
      modifies this
      ensures files == old(files)[path := FileStep(path, old(files)[path], rule, enable, disableExternal)]
    {
      if enable {
        var _ := AddKsuHeader(path);
        var _ := AddKsuCalls(path, rule.functions, rule.code, disableExternal);
      } else {
        files := files[path := RemoveGuarded(files[path])];
      }
    }

    /** `process_kernel_source` (lines 212-230): the result is the path whose opening
        failed, if any. */
    method ProcessKernelSource(paths: seq<string>, enable: bool, disableExternal: bool) returns (crashedAt: Option<string>)
      modifies this
      ensures ProcessAll(old(files), paths, rules, enable, disableExternal) ==
        if crashedAt.None? then Completed(files) else Crashed(files, crashedAt.value)
    {
      var k := 0;
      while k < |paths|
        invariant 0 <= k <= |paths|
        invariant ProcessAll(old(files), paths, rules, enable, disableExternal) == ProcessAll(files, paths[k..], rules, enable, disableExternal)
      {
        var path := paths[k];
        var name := BaseName(path);
        ghost var before := files;
        ProcessAllAt(before, paths, rules, enable, disableExternal, k);
        if name in rules {
          if path !in files {
            return Some(path);
          }
          PatchFile(path, rules[name], enable, disableExternal);
        }
        assert ProcessFile(before, path, rules, enable, disableExternal) == Some(files);
        k := k + 1;
      }
      return None;
    }

    /** `main`: the defconfig step, then the source step over the six files unless the
        first one ended the program. */
    method Run(disableKsu: bool, disableExternal: bool) returns (r: RunResult)
      modifies this
      ensures RunState(r, files) == RunSpec(listing, old(files), rules, mainPaths, disableKsu, disableExternal)
    {
      var config := ModifyKsuConfig(!disableKsu);
      if config.KprobesAbort? || config.ListingFailed? {
        return Stopped(config);
      }
      var crashedAt := ProcessKernelSource(mainPaths, !disableKsu, disableExternal);
      return Finished(config, crashedAt);
    }
  }
}
