/** The defconfig side of the integration script (`modify_ksu_config`): choosing the
    defconfig file from two directory listings, refusing a configuration that enables
    kprobes, and switching the `CONFIG_KSU` option on or off. */
module KsuConfig {
  import opened Text

  /** A line that enables kprobes; the script refuses to go on when one is present. */
  const KprobesLine := "CONFIG_KPROBES=y"
  /** What a line setting the option starts with (`^CONFIG_KSU=.*$`). */
  const KsuKey := "CONFIG_KSU="
  /** What is put before the option when the configuration has no line for it yet. */
  const KsuComment := "# KernelSU"
  const KsuBlockHeader := "\n\n" + KsuComment + "\n"

  /** The line that replaces every `CONFIG_KSU=` line. */
  function KsuSetting(enable: bool): string
  {
    if enable then "CONFIG_KSU=y" else "CONFIG_KSU=n"
  }

  predicate IsKsuLine(line: string)
  {
    StartsWith(line, KsuKey)
  }

  predicate HasKsuLine(lines: seq<string>)
  {
    exists i :: 0 <= i < |lines| && IsKsuLine(lines[i])
  }

  /** Every `CONFIG_KSU=` line replaced by `setting`, every other line kept. */
  function RewriteLines(lines: seq<string>, setting: string): seq<string>
  {
    seq(|lines|, i requires 0 <= i < |lines| => if IsKsuLine(lines[i]) then setting else lines[i])
  }

  datatype ToggleResult = Toggled(text: string) | KprobesEnabled

  /** The new defconfig text (lines 52-69 of `modify_ksu_config`). `^...$` in MULTILINE
      mode matches whole lines, so both searches and the substitution work on the line
      view of the text. */
  function ToggleConfig(content: string, enable: bool): ToggleResult
  {
    var lines := Lines(content);
    if KprobesLine in lines then KprobesEnabled
    else if HasKsuLine(lines) then Toggled(Unlines(RewriteLines(lines, KsuSetting(enable))))
    else Toggled(content + KsuBlockHeader + KsuSetting(enable) + "\n")
  }

  /** A line `CONFIG_KPROBES=y` stops the toggle whichever way it is switched, and
      nothing else does. */
  lemma KprobesAborts(content: string)
    ensures ToggleConfig(content, true) == KprobesEnabled <==> KprobesLine in Lines(content)
    ensures ToggleConfig(content, false) == KprobesEnabled <==> KprobesLine in Lines(content)
  {
  }

  lemma SettingIsOneLine(enable: bool)
    ensures '\n' !in KsuSetting(enable) && IsKsuLine(KsuSetting(enable))
    ensures KsuSetting(enable) != KprobesLine
  {
  }

  /** The lines of an appended text: the original lines, then an empty line, the comment,
      the setting and the empty rest after the final '\n'. */
  lemma AppendedLines(content: string, setting: string)
    requires '\n' !in setting
    ensures Lines(content + KsuBlockHeader + setting + "\n") == Lines(content) + ["", KsuComment, setting, ""]
  {
    assert '\n' !in KsuComment;
    LinesOfFour(content, KsuComment, setting);
  }

  lemma LinesOfFour(c: string, x: string, y: string)
    requires '\n' !in x && '\n' !in y
    ensures Lines(c + ("\n\n" + x + "\n") + y + "\n") == Lines(c) + ["", x, y, ""]
  {
    var s4 := y + "\n" + "";
    var s3 := x + "\n" + s4;
    var s2 := "" + "\n" + s3;
    LinesOfLine(x);
    LinesOfLine(y);
    LinesOfLine("");
    LinesConcat(y, "");
    assert Lines(s4) == [y, ""];
    LinesConcat(x, s4);
    assert Lines(s3) == [x, y, ""];
    LinesConcat("", s3);
    assert Lines(s2) == ["", x, y, ""];
    LinesConcat(c, s2);
    BlockJoin(c, x, y);
  }

  lemma BlockJoin(c: string, x: string, y: string)
    ensures c + ("\n\n" + x + "\n") + y + "\n" == c + "\n" + ("" + "\n" + (x + "\n" + (y + "\n" + "")))
  {
    assert "\n\n" == "\n" + "\n";
  }

  /** When some line sets the option, every such line becomes exactly the setting and
      every other line, `CONFIG_KSU_...` ones included, stays where and what it was. */
  lemma RewriteShape(content: string, enable: bool)
    requires KprobesLine !in Lines(content) && HasKsuLine(Lines(content))
    ensures ToggleConfig(content, enable).Toggled?
    ensures |Lines(ToggleConfig(content, enable).text)| == |Lines(content)|
    ensures forall i :: 0 <= i < |Lines(content)| ==>
      Lines(ToggleConfig(content, enable).text)[i] ==
        (if IsKsuLine(Lines(content)[i]) then KsuSetting(enable) else Lines(content)[i])
  {
    var rewritten := RewriteLines(Lines(content), KsuSetting(enable));
    SettingIsOneLine(enable);
    assert NoNewlines(rewritten);
    LinesOfUnlines(rewritten);
  }

  /** When no line sets the option, the block is appended: the original text is kept as a
      prefix and the result has exactly one `CONFIG_KSU=` line, the setting. */
  lemma AppendShape(content: string, enable: bool)
    requires KprobesLine !in Lines(content) && !HasKsuLine(Lines(content))
    ensures ToggleConfig(content, enable).Toggled?
    ensures StartsWith(ToggleConfig(content, enable).text, content)
    ensures Lines(ToggleConfig(content, enable).text) == Lines(content) + ["", KsuComment, KsuSetting(enable), ""]
    ensures forall j :: 0 <= j < |Lines(ToggleConfig(content, enable).text)| ==>
      (IsKsuLine(Lines(ToggleConfig(content, enable).text)[j]) <==> j == |Lines(content)| + 2)
  {
    var t := ToggleConfig(content, enable).text;
    SettingIsOneLine(enable);
    AppendedLines(content, KsuSetting(enable));
    assert t[..|content|] == content;
    BlockLines(Lines(content), KsuSetting(enable), KsuSetting(enable));
  }

  /** The lines and the rewrite of lines with the block added after them, when none of
      them sets the option or enables kprobes. */
  lemma BlockLines(lines: seq<string>, setting: string, other: string)
    requires !HasKsuLine(lines) && KprobesLine !in lines && IsKsuLine(setting) && setting != KprobesLine
    ensures var ls := lines + ["", KsuComment, setting, ""];
      HasKsuLine(ls) && KprobesLine !in ls &&
      (forall j :: 0 <= j < |ls| ==> (IsKsuLine(ls[j]) <==> j == |lines| + 2)) &&
      RewriteLines(ls, other) == lines + ["", KsuComment, other, ""]
  {
    var tail := ["", KsuComment, setting, ""];
    var ls := lines + tail;
    CommentLines();
    assert ls[|lines| + 2] == setting;
    forall j | 0 <= j < |ls| ensures (IsKsuLine(ls[j]) <==> j == |lines| + 2) && ls[j] != KprobesLine {
      if j < |lines| {
        assert ls[j] == lines[j];
        assert lines[j] in lines;
      } else {
        assert ls[j] == tail[j - |lines|];
      }
    }
  }

  /** Neither the empty line nor the comment sets the option or enables kprobes. */
  lemma CommentLines()
    ensures !IsKsuLine("") && !IsKsuLine(KsuComment)
    ensures "" != KprobesLine && KsuComment != KprobesLine
  {
    assert KsuComment[0] != KsuKey[0];
    assert KsuComment[0] != KprobesLine[0];
  }

  /** After a successful toggle the option is set, every line for it is the requested
      setting, and kprobes are still not enabled. */
  lemma ToggleEstablishes(content: string, enable: bool)
    requires ToggleConfig(content, enable).Toggled?
    ensures HasKsuLine(Lines(ToggleConfig(content, enable).text))
    ensures forall j :: (0 <= j < |Lines(ToggleConfig(content, enable).text)| &&
                         IsKsuLine(Lines(ToggleConfig(content, enable).text)[j])) ==>
                        Lines(ToggleConfig(content, enable).text)[j] == KsuSetting(enable)
    ensures KprobesLine !in Lines(ToggleConfig(content, enable).text)
  {
    if HasKsuLine(Lines(content)) {
      RewriteEstablishes(content, enable);
    } else {
      AppendEstablishes(content, enable);
    }
  }

  /** `ToggleEstablishes` when a `CONFIG_KSU=` line is already there. */
  lemma RewriteEstablishes(content: string, enable: bool)
    requires KprobesLine !in Lines(content) && HasKsuLine(Lines(content))
    ensures HasKsuLine(Lines(ToggleConfig(content, enable).text))
    ensures forall j :: (0 <= j < |Lines(ToggleConfig(content, enable).text)| &&
                         IsKsuLine(Lines(ToggleConfig(content, enable).text)[j])) ==>
                        Lines(ToggleConfig(content, enable).text)[j] == KsuSetting(enable)
    ensures KprobesLine !in Lines(ToggleConfig(content, enable).text)
  {
    SettingIsOneLine(enable);
    RewriteShape(content, enable);
    RewrittenLines(Lines(content), Lines(ToggleConfig(content, enable).text), KsuSetting(enable));
  }

  /** Lines rewritten line by line from lines that set the option and do not enable
      kprobes. */
  lemma RewrittenLines(lines: seq<string>, ls: seq<string>, setting: string)
    requires |ls| == |lines| && forall i :: 0 <= i < |lines| ==> ls[i] == (if IsKsuLine(lines[i]) then setting else lines[i])
    requires KprobesLine !in lines && HasKsuLine(lines) && IsKsuLine(setting) && setting != KprobesLine
    ensures HasKsuLine(ls) && KprobesLine !in ls
    ensures forall j :: 0 <= j < |ls| && IsKsuLine(ls[j]) ==> ls[j] == setting
  {
    var i :| 0 <= i < |lines| && IsKsuLine(lines[i]);
    assert ls[i] == setting;
    forall j | 0 <= j < |ls| ensures ls[j] != KprobesLine {
      assert lines[j] in lines;
    }
  }

  /** `ToggleEstablishes` when the block is appended. */
  lemma AppendEstablishes(content: string, enable: bool)
    requires KprobesLine !in Lines(content) && !HasKsuLine(Lines(content))
    ensures HasKsuLine(Lines(ToggleConfig(content, enable).text))
    ensures forall j :: (0 <= j < |Lines(ToggleConfig(content, enable).text)| &&
                         IsKsuLine(Lines(ToggleConfig(content, enable).text)[j])) ==>
                        Lines(ToggleConfig(content, enable).text)[j] == KsuSetting(enable)
    ensures KprobesLine !in Lines(ToggleConfig(content, enable).text)
  {
    SettingIsOneLine(enable);
    AppendShape(content, enable);
    BlockLines(Lines(content), KsuSetting(enable), KsuSetting(enable));
  }

  lemma RewriteAgain(content: string, first: bool, second: bool)
    requires KprobesLine !in Lines(content) && HasKsuLine(Lines(content))
    ensures ToggleConfig(ToggleConfig(content, first).text, second) == ToggleConfig(content, second)
  {
    var lines := Lines(content);
    var once := RewriteLines(lines, KsuSetting(first));
    SettingIsOneLine(first);
    assert NoNewlines(once);
    LinesOfUnlines(once);
    RewriteTwice(lines, KsuSetting(first), KsuSetting(second));
  }

  /** Rewriting rewritten lines is the second rewrite alone; the rewritten lines still
      set the option and still do not enable kprobes. */
  lemma RewriteTwice(lines: seq<string>, s1: string, s2: string)
    requires IsKsuLine(s1) && s1 != KprobesLine && HasKsuLine(lines) && KprobesLine !in lines
    ensures HasKsuLine(RewriteLines(lines, s1)) && KprobesLine !in RewriteLines(lines, s1)
    ensures RewriteLines(RewriteLines(lines, s1), s2) == RewriteLines(lines, s2)
  {
    var once := RewriteLines(lines, s1);
    RewrittenLines(lines, once, s1);
  }

  lemma AppendAgain(content: string, first: bool, second: bool)
    requires KprobesLine !in Lines(content) && !HasKsuLine(Lines(content))
    ensures ToggleConfig(ToggleConfig(content, first).text, second) == ToggleConfig(content, second)
  {
    SettingIsOneLine(first);
    SettingIsOneLine(second);
    AppendShape(content, first);
    AppendedLines(content, KsuSetting(second));
    BlockLines(Lines(content), KsuSetting(first), KsuSetting(second));
    UnlinesOfLines(content + KsuBlockHeader + KsuSetting(second) + "\n");
  }

  /** Toggling a configuration the toggle has already written gives what toggling the
      original would: the last switch wins. */
  lemma LastToggleWins(content: string, first: bool, second: bool)
    requires ToggleConfig(content, first).Toggled?
    ensures ToggleConfig(ToggleConfig(content, first).text, second) == ToggleConfig(content, second)
  {
    if HasKsuLine(Lines(content)) {
      RewriteAgain(content, first, second);
    } else {
      AppendAgain(content, first, second);
    }
  }

  /** Toggling twice the same way gives the same text as toggling once. */
  lemma ToggleIdempotent(content: string, enable: bool)
    requires ToggleConfig(content, enable).Toggled?
    ensures ToggleConfig(ToggleConfig(content, enable).text, enable) == ToggleConfig(content, enable)
  {
    LastToggleWins(content, enable, enable);
  }

  // ---- choosing the defconfig file (lines 28-46) ----

  /** The directories searched, in this order. */
  const DefconfigDirs: seq<string> := ["arch/arm64/configs", "arch/arm64/configs/vendor"]
  const DefconfigSuffix := "_defconfig"

  /** `os.path.join(directory, filename)` for a directory without a trailing '/'. */
  function JoinPath(dir: string, name: string): string
  {
    dir + "/" + name
  }

  /** A listed name the loop accepts: it ends in `_defconfig` and the joined path exists. */
  predicate IsDefconfigEntry(files: map<string, string>, dir: string, name: string)
  {
    EndsWith(name, DefconfigSuffix) && JoinPath(dir, name) in files
  }

  /** The first accepted name of a listing at or after position `from`. */
  function FirstEntryFrom(files: map<string, string>, dir: string, names: seq<string>, from: nat): (r: Option<nat>)
    ensures r.Some? ==> from <= r.value < |names| && IsDefconfigEntry(files, dir, names[r.value])
    ensures r.Some? ==> forall j :: from <= j < r.value ==> !IsDefconfigEntry(files, dir, names[j])
    ensures r.None? ==> forall j :: from <= j < |names| ==> !IsDefconfigEntry(files, dir, names[j])
    decreases |names| - from
  {
    if from >= |names| then None
    else if IsDefconfigEntry(files, dir, names[from]) then Some(from)
    else FirstEntryFrom(files, dir, names, from + 1)
  }

  function FirstEntry(files: map<string, string>, dir: string, names: seq<string>): Option<nat>
  {
    FirstEntryFrom(files, dir, names, 0)
  }

  datatype DefconfigSearch = Found(path: string) | NotFound | MissingDirectory(dir: string)

  /** A directory that is listed and holds no accepted name: the loop goes on past it. */
  predicate PassedOver(listing: map<string, seq<string>>, files: map<string, string>, dir: string)
  {
    dir in listing && FirstEntry(files, dir, listing[dir]).None?
  }

  /** Every directory before the `k`-th is listed and holds no accepted name. */
  predicate PassedAllBefore(listing: map<string, seq<string>>, files: map<string, string>, dirs: seq<string>, k: nat)
    requires k <= |dirs|
  {
    forall k' :: 0 <= k' < k ==> PassedOver(listing, files, dirs[k'])
  }

  /** The loop stops at the `k`-th directory with `path`. */
  predicate FoundIn(listing: map<string, seq<string>>, files: map<string, string>, dirs: seq<string>, k: nat, path: string)
  {
    k < |dirs| && dirs[k] in listing && PassedAllBefore(listing, files, dirs, k) &&
    FirstEntry(files, dirs[k], listing[dirs[k]]).Some? &&
    path == JoinPath(dirs[k], listing[dirs[k]][FirstEntry(files, dirs[k], listing[dirs[k]]).value])
  }

  /** The loop reaches the `k`-th directory, which cannot be listed. */
  predicate MissingAt(listing: map<string, seq<string>>, files: map<string, string>, dirs: seq<string>, k: nat)
  {
    k < |dirs| && dirs[k] !in listing && PassedAllBefore(listing, files, dirs, k)
  }

  /** The result of the directory loop: the first accepted name of the first directory
      that has one. Listing a directory that does not exist raises, which ends the run.
      `SelectDefconfigCases` states what each outcome means. */
  function SelectDefconfig(listing: map<string, seq<string>>, files: map<string, string>, dirs: seq<string>): (r: DefconfigSearch)
    ensures r.Found? ==> r.path in files
  {
    if dirs == [] then NotFound
    else if dirs[0] !in listing then MissingDirectory(dirs[0])
    else match FirstEntry(files, dirs[0], listing[dirs[0]])
      case Some(i) => Found(JoinPath(dirs[0], listing[dirs[0]][i]))
      case None => SelectDefconfig(listing, files, dirs[1..])
  }

  /** No defconfig exactly when every directory is listed and holds no accepted name; a
      missing directory is the first one that cannot be listed, all before it passed
      over; a path found is the first accepted name of the first directory that has one. */
  lemma {:induction false} SelectDefconfigCases(listing: map<string, seq<string>>, files: map<string, string>, dirs: seq<string>)
    ensures SelectDefconfig(listing, files, dirs).NotFound? <==> PassedAllBefore(listing, files, dirs, |dirs|)
    ensures SelectDefconfig(listing, files, dirs).MissingDirectory? ==>
      exists k: nat :: MissingAt(listing, files, dirs, k) && SelectDefconfig(listing, files, dirs).dir == dirs[k]
    ensures SelectDefconfig(listing, files, dirs).Found? ==>
      exists k: nat :: FoundIn(listing, files, dirs, k, SelectDefconfig(listing, files, dirs).path)
    decreases |dirs|
  {
    var r := SelectDefconfig(listing, files, dirs);
    if dirs == [] {
    } else if dirs[0] !in listing {
      assert MissingAt(listing, files, dirs, 0);
    } else if FirstEntry(files, dirs[0], listing[dirs[0]]).Some? {
      assert FoundIn(listing, files, dirs, 0, r.path);
    } else {
      var tail := dirs[1..];
      SelectDefconfigCases(listing, files, tail);
      assert forall k :: 0 <= k < |tail| ==> tail[k] == dirs[k + 1];
      assert forall k :: 0 <= k < |tail| ==>
        (PassedAllBefore(listing, files, tail, k) <==> PassedAllBefore(listing, files, dirs, k + 1));
      if r.MissingDirectory? {
        var k: nat :| MissingAt(listing, files, tail, k) && r.dir == tail[k];
        assert MissingAt(listing, files, dirs, k + 1);
      } else if r.Found? {
        var k: nat :| FoundIn(listing, files, tail, k, r.path);
        assert FoundIn(listing, files, dirs, k + 1, r.path);
      } else {
        assert PassedAllBefore(listing, files, tail, |tail|);
      }
    }
  }
}
