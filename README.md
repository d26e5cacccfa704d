# KernelSU no-kprobe integration script, modelled in Dafny

`KernelSU/scripts/integrate-no-kprobe.py` wires KernelSU's manual hooks into an Android
kernel tree that is built without kprobes. It does three things:

- It finds the first `*_defconfig` file under `arch/arm64/configs` or
  `arch/arm64/configs/vendor`. It refuses to go on when that file sets
  `CONFIG_KPROBES=y`. Otherwise it rewrites every `CONFIG_KSU=` line, or appends a
  `# KernelSU` block when there is none.
- When enabling, for each of six kernel sources it does two edits:
  - It adds a guarded `#include <ksu_hook.h>` after the line of the last `#include`.
  - It finds the first listed function that can be found. For a plain function, the
    match ends after the line that holds the `{` following the `)`. For a
    `SYSCALL_DEFINE` macro, it ends after the first line below the macro's first line
    that holds a `{`.
  - It adds a guarded hook snippet at the first `\n<ws>if<ws>(` whose '\n' lies at or
    after the end of the match. So an `if` on the line right after the match is passed
    over, and so is every `if` inside the match.
- When disabling, it deletes every `#ifdef CONFIG_KSU ... #endif` region of those sources.

The model has six modules:

- `Text` (`text.dfy`): the Python string operations the script relies on. These are
  `find`, `rfind`, `replace`, splitting into lines for `^...$` in MULTILINE mode, and
  the `\s*` runs.
- `KsuConfig` (`ksu_config.dfy`): the defconfig edit as a function on the file's text,
  and the choice of the defconfig as a function of the directory listings.
- `KsuPatterns` (`ksu_patterns.dfy`): the three regular expressions of `add_ksu_calls`,
  written as explicit leftmost searches. Lemmas show that each search picks the match the
  regular expression picks: the lazy parts are shortest and the greedy parts are forced.
  The candidate loop is modelled as a method.
- `KsuInject` (`ksu_inject.dfy`): the header edit, the call edit and the guarded-region
  removal, as functions on a file's text, with lemmas about each.
- `KsuRegistry` (`ksu_registry.dfy`): the `ksu_calls` table, the file list of `main`,
  and `os.path.basename`.
- `KsuTree` (`ksu_tree.dfy`): the kernel tree as a class over a path-to-text map. Its
  methods follow the script's loops, and each is proved equal to a specification function
  (`ConfigStep`, `ProcessAll`, `RunSpec`).

## Model

Source paths are relative to the repository root.

| member | source | states |
|---|---|---|
| Text.FindFrom | KernelSU/scripts/integrate-no-kprobe.py:85 | `str.find`: the result is an occurrence at or after the start and no occurrence lies before it; `None` means there is no occurrence from the start on |
| Text.RFind | KernelSU/scripts/integrate-no-kprobe.py:82 | `str.rfind`: the result is an occurrence with none after it; `None` means the pattern is absent |
| Text.SkipSpace | KernelSU/scripts/integrate-no-kprobe.py:112 | a greedy `\s*`: everything consumed is whitespace and the next character is not |
| Text.Lines | KernelSU/scripts/integrate-no-kprobe.py:53 | the line view `^`/`$` work on: at least one line, and none holds '\n' |
| Text.UnlinesOfLines | KernelSU/scripts/integrate-no-kprobe.py:53 | joining the lines back with '\n' gives the text |
| Text.LinesOfUnlines | KernelSU/scripts/integrate-no-kprobe.py:62-66 | splitting a join of '\n'-free lines gives those lines back |
| Text.LinesConcat | KernelSU/scripts/integrate-no-kprobe.py:69 | the lines of `a + "\n" + b` are the lines of `a` followed by those of `b` |
| Text.ReplaceAllAbsent | KernelSU/scripts/integrate-no-kprobe.py:128 | `str.replace` leaves a text without the pattern unchanged |
| KsuConfig.KprobesAborts | KernelSU/scripts/integrate-no-kprobe.py:52-56 | the edit stops, whichever way it is switched, exactly when some line is `CONFIG_KPROBES=y` |
| KsuConfig.SettingIsOneLine | KernelSU/scripts/integrate-no-kprobe.py:62 | the new setting is one line, is itself a `CONFIG_KSU=` line and is not the kprobes line |
| KsuConfig.AppendedLines | KernelSU/scripts/integrate-no-kprobe.py:69 | the appended text's lines are the old lines, an empty line, `# KernelSU`, the setting and an empty line |
| KsuConfig.RewriteShape | KernelSU/scripts/integrate-no-kprobe.py:58-66 | with a `CONFIG_KSU=` line present: the same number of lines, every such line becomes the setting and every other line is kept |
| KsuConfig.AppendShape | KernelSU/scripts/integrate-no-kprobe.py:58-69 | with no `CONFIG_KSU=` line: the old text is kept as a prefix and the block's four lines follow it |
| KsuConfig.RewriteEstablishes | KernelSU/scripts/integrate-no-kprobe.py:58-66 | with a `CONFIG_KSU=` line present, after the edit every such line is the requested setting and kprobes are still off |
| KsuConfig.AppendEstablishes | KernelSU/scripts/integrate-no-kprobe.py:58-69 | with no `CONFIG_KSU=` line, after the edit the option is set, every `CONFIG_KSU=` line is the requested setting, and kprobes are still off |
| KsuConfig.ToggleEstablishes | KernelSU/scripts/integrate-no-kprobe.py:58-69 | after the edit the option is set, every `CONFIG_KSU=` line is the requested setting and kprobes are still off |
| KsuConfig.RewriteAgain | KernelSU/scripts/integrate-no-kprobe.py:59-66 | rewriting a rewritten text gives what the second rewrite alone gives |
| KsuConfig.AppendAgain | KernelSU/scripts/integrate-no-kprobe.py:59-69 | editing an appended text rewrites the appended line, giving what the second edit alone gives |
| KsuConfig.LastToggleWins | KernelSU/scripts/integrate-no-kprobe.py:52-69 | editing twice gives what the second edit alone gives |
| KsuConfig.ToggleIdempotent | KernelSU/scripts/integrate-no-kprobe.py:52-69 | editing twice the same way equals editing once |
| KsuConfig.FirstEntryFrom | KernelSU/scripts/integrate-no-kprobe.py:36-40 | the first listed name that ends in `_defconfig` and whose joined path exists, with every name before it rejected; `None` when there is none |
| KsuConfig.SelectDefconfig | KernelSU/scripts/integrate-no-kprobe.py:28-46 | a path it finds is a file of the tree |
| KsuConfig.SelectDefconfigCases | KernelSU/scripts/integrate-no-kprobe.py:28-46 | `NotFound` exactly when every directory is listed and has no accepted name; `MissingDirectory` names the first directory that cannot be listed, every one before it having been passed over; `Found` names a path of the tree accepted in the first directory that has one |
| KsuPatterns.MacroMatchAt | KernelSU/scripts/integrate-no-kprobe.py:105-108 | a match of the `SYSCALL_DEFINE` pattern at a name occurrence ends after the name and within the text |
| KsuPatterns.MacroMatchIsPattern | KernelSU/scripts/integrate-no-kprobe.py:107 | a match found is a reading of the macro pattern: a '\n' after the name, then a `{`, then a '\n' that ends the match |
| KsuPatterns.MacroMatchIsShortest | KernelSU/scripts/integrate-no-kprobe.py:107 | any reading of the macro pattern at a position makes the search match there, ending no later than that reading: the lazy `.*?` parts are shortest |
| KsuPatterns.MacroEndAt | KernelSU/scripts/integrate-no-kprobe.py:107 | the macro match ends after the first '\n' past the first `{` past the first '\n' after the name; a `{` on the macro's own line plays no part |
| KsuPatterns.MacroBraceOnOwnLine | KernelSU/scripts/integrate-no-kprobe.py:107-121 | for a macro with its `{` on its own line, the match runs past the line of the body's first `if (a) {`, so that `if` lies inside the match and none is found after it |
| KsuPatterns.RegularMatchAt | KernelSU/scripts/integrate-no-kprobe.py:110-113 | a match of the plain pattern at a name occurrence ends after the name and within the text |
| KsuPatterns.RegularMatchIsPattern | KernelSU/scripts/integrate-no-kprobe.py:112 | a match found is a reading of the plain pattern: whitespace, `(`, no `)` until the first `)`, whitespace, `{`, then the shortest run to a '\n' |
| KsuPatterns.RegularMatchIsForced | KernelSU/scripts/integrate-no-kprobe.py:112 | in any reading of the plain pattern, the positions of `(`, `)` and `{` are the ones the search computes |
| KsuPatterns.RegularMatchIsShortest | KernelSU/scripts/integrate-no-kprobe.py:112-113 | wherever some reading of the plain pattern fits, the search matches, and its match ends no later than that reading |
| KsuPatterns.MatchAt | KernelSU/scripts/integrate-no-kprobe.py:105-113 | the pattern is chosen by the `SYSCALL_DEFINE` prefix; a match ends after the name and within the text |
| KsuPatterns.SearchFrom | KernelSU/scripts/integrate-no-kprobe.py:108 | `re.search`: the leftmost start where the name occurs and its pattern matches; no earlier occurrence matches, and `None` means no occurrence matches |
| KsuPatterns.IfAtIsPattern | KernelSU/scripts/integrate-no-kprobe.py:121 | the `if` test holds at a position exactly when some split fits the pattern there: '\n', whitespace, `if`, whitespace, `(` |
| KsuPatterns.FindIf | KernelSU/scripts/integrate-no-kprobe.py:121 | the leftmost position where the `if` pattern matches, and `None` only when it matches nowhere |
| KsuPatterns.FindIfSkipsLine | KernelSU/scripts/integrate-no-kprobe.py:120-121 | the `if` search passes over the text before the first '\n': it finds the same position as a search from that '\n', so an `if` that opens the function's first line is not found |
| KsuPatterns.FirstMatchFrom | KernelSU/scripts/integrate-no-kprobe.py:104-116 | the first candidate whose search succeeds, with the end of that match; every earlier candidate fails; `None` means all fail |
| KsuPatterns.FindFunction | KernelSU/scripts/integrate-no-kprobe.py:104-118 | the candidate loop, stopping at the first match: as `FirstMatch` states it |
| KsuInject.HeaderNeedsInclude | KernelSU/scripts/integrate-no-kprobe.py:81-83 | the file is left alone with the "no #include" outcome exactly when it holds no `#include` |
| KsuInject.FirstNewlineAt | KernelSU/scripts/integrate-no-kprobe.py:85 | the first '\n' from a position is found where it is |
| KsuInject.HeaderSplice | KernelSU/scripts/integrate-no-kprobe.py:82-89 | at the last `#include` followed by a '\n', the block goes in right after that '\n', with the text before and after kept |
| KsuInject.HeaderNeedsLineEnd | KernelSU/scripts/integrate-no-kprobe.py:85-86 | when no '\n' follows the last `#include`, the file is left alone with its own outcome |
| KsuInject.HeaderBlockInclude | KernelSU/scripts/integrate-no-kprobe.py:88 | the header block is 48 characters ending in '\n', and its own `#include` starts at 19 and its line ends at 40 |
| KsuInject.HeaderBlockLastInclude | KernelSU/scripts/integrate-no-kprobe.py:88 | no `#include` starts in the block after its own |
| KsuInject.LastIncludeLifts | KernelSU/scripts/integrate-no-kprobe.py:82-85 | the last `#include` line of a text stays the last one when text is put before it and `#include`-free text after it |
| KsuInject.SecondSplice | KernelSU/scripts/integrate-no-kprobe.py:82-89 | on a text that holds the block with no `#include` after it, the next block goes in after the block's own `#include` line |
| KsuInject.RestLacksInclude | KernelSU/scripts/integrate-no-kprobe.py:82-85 | no `#include` starts after the line of the last one |
| KsuInject.HeaderTwice | KernelSU/scripts/integrate-no-kprobe.py:77-97 | adding the header twice puts the second block inside the first one, so the edit is not idempotent |
| KsuInject.MatchEndInRange | KernelSU/scripts/integrate-no-kprobe.py:118-120 | the matched function's end lies within the text |
| KsuInject.CallSplice | KernelSU/scripts/integrate-no-kprobe.py:118-132 | at the first `\n<ws>if<ws>(` whose '\n' lies at or after the match's end, the text receives `"\n\n" + snippet + "\n"` just before that '\n'; the text before and after is kept; the snippet is adjusted for `vfs_statx` |
| KsuInject.FirstIfAt | KernelSU/scripts/integrate-no-kprobe.py:121 | the first `if` position is what the search returns |
| KsuInject.CallNeedsFunction | KernelSU/scripts/integrate-no-kprobe.py:103-118 | the "not found" outcome occurs exactly when no candidate's search succeeds |
| KsuInject.CallNeedsIf | KernelSU/scripts/integrate-no-kprobe.py:120-141 | a match with no `if` after it gives the "no if" outcome for the matched candidate |
| KsuInject.ExternalGate | KernelSU/scripts/integrate-no-kprobe.py:131-134 | with external edits disabled, a file outside the four core suffixes never gets the call |
| KsuInject.HookCodeOnlyStatx | KernelSU/scripts/integrate-no-kprobe.py:126-128 | the snippet is rewritten only for `vfs_statx`, and never when it holds no `&flag` |
| KsuInject.SecondCandidateUsed | KernelSU/scripts/integrate-no-kprobe.py:104-116 | when the first candidate is not found and the second is, the second's match is used |
| KsuInject.RemoveGuarded | KernelSU/scripts/integrate-no-kprobe.py:224 | deleting regions never lengthens the text |
| KsuInject.GuardsHeadUnique | KernelSU/scripts/integrate-no-kprobe.py:224 | neither marker's first character reappears in it, and neither holds '\n' |
| KsuInject.RemoveAbsent | KernelSU/scripts/integrate-no-kprobe.py:224 | a text without `#ifdef CONFIG_KSU` is unchanged |
| KsuInject.RemoveBlock | KernelSU/scripts/integrate-no-kprobe.py:224 | the first region is deleted from its marker to the nearest `#endif` (lazy), and removal goes on after it |
| KsuInject.RemoveUnclosed | KernelSU/scripts/integrate-no-kprobe.py:224 | a marker with no `#endif` after it is kept with everything after it |
| KsuInject.HookIncludeLacksEnd | KernelSU/scripts/integrate-no-kprobe.py:88 | the include line of the header holds no `#endif` |
| KsuInject.HeaderBodyLacksEnd | KernelSU/scripts/integrate-no-kprobe.py:88 | what lies between the header block's markers holds no `#endif` |
| KsuInject.RemoveTwoBlocks | KernelSU/scripts/integrate-no-kprobe.py:224 | two regions in a row are both deleted and the three texts around them are kept |
| KsuInject.InjectedLayout | KernelSU/scripts/integrate-no-kprobe.py:88-132 | how a text holding both blocks splits around their markers |
| KsuInject.AbsentPadded | KernelSU/scripts/integrate-no-kprobe.py:224 | adding a '\n' on either side does not create a marker |
| KsuInject.DisableAfterEnable | KernelSU/scripts/integrate-no-kprobe.py:88-89 | removal after both edits deletes the two regions but leaves their surrounding newlines and the snippet's indent |
| KsuInject.RemoveInjected | KernelSU/scripts/integrate-no-kprobe.py:224 | the same for any guarded block shaped like the header's |
| KsuInject.InjectedText | KernelSU/scripts/integrate-no-kprobe.py:89-132 | the text after both edits, written as pieces around the two regions |
| KsuInject.PiecesLackMarker | KernelSU/scripts/integrate-no-kprobe.py:224 | the pieces around the two regions hold no marker |
| KsuRegistry.BaseNameShape | KernelSU/scripts/integrate-no-kprobe.py:214 | `os.path.basename`: a tail of the path holding no '/', preceded by a '/' unless it is the whole path |
| KsuRegistry.BaseNameOfJoin | KernelSU/scripts/integrate-no-kprobe.py:214 | the base name of `dir + "/" + name` is `name` for a name without '/' |
| KsuRegistry.MainPathsInRegistry | KernelSU/scripts/integrate-no-kprobe.py:166-210 | each of the six paths of `main` names a table entry; the first four are core files; the last two, `inode.c` and `input.c`, are not |
| KsuRegistry.CorePath0 | KernelSU/scripts/integrate-no-kprobe.py:250 | `./fs/exec.c` has base name `exec.c`, a table entry and a core file |
| KsuRegistry.CorePath1 | KernelSU/scripts/integrate-no-kprobe.py:251 | the same for `./fs/open.c` |
| KsuRegistry.CorePath2 | KernelSU/scripts/integrate-no-kprobe.py:252 | the same for `./fs/read_write.c` |
| KsuRegistry.CorePath3 | KernelSU/scripts/integrate-no-kprobe.py:253 | the same for `./fs/stat.c` |
| KsuRegistry.ExternalFileNames | KernelSU/scripts/integrate-no-kprobe.py:254-255 | the two external paths have base names `inode.c` and `input.c` and are not core files |
| KsuRegistry.NotCoreFile | KernelSU/scripts/integrate-no-kprobe.py:131 | a path with these characters in these places ends in none of the four core suffixes |
| KsuRegistry.FsFile | KernelSU/scripts/integrate-no-kprobe.py:250-253 | `./fs/<name>` has base name `<name>` and ends with it |
| KsuRegistry.StatxRewrite | KernelSU/scripts/integrate-no-kprobe.py:126-128 | for `vfs_statx` the `stat.c` snippet's one `&flag)` becomes `&flags)`, with the rest of the snippet kept; the result is still a guarded snippet whose body holds no `#endif` |
| KsuRegistry.ReplaceInFour | KernelSU/scripts/integrate-no-kprobe.py:128 | `str.replace` on a text whose only occurrence is the one before its last piece rewrites that occurrence and nothing else |
| KsuRegistry.OnlyStatRewritten | KernelSU/scripts/integrate-no-kprobe.py:126-128 | every snippet outside `stat.c` goes in as written, and `vfs_statx` is a `stat.c` candidate |
| KsuTree.ConfigStep | KernelSU/scripts/integrate-no-kprobe.py:26-75 | the defconfig step changes only the chosen defconfig, which holds the edited text; a kprobes stop leaves the tree alone, and the path it names has `CONFIG_KPROBES=y` |
| KsuTree.FirstEntryDependsOnNames | KernelSU/scripts/integrate-no-kprobe.py:36-40 | the accepted name of a listing depends only on which files exist |
| KsuTree.SelectDependsOnNames | KernelSU/scripts/integrate-no-kprobe.py:35-42 | the defconfig chosen depends only on which files exist, not on their text |
| KsuTree.ConfigStepIdempotent | KernelSU/scripts/integrate-no-kprobe.py:26-75 | running the defconfig step again on its output changes nothing more |
| KsuTree.ConfigLastRunWins | KernelSU/scripts/integrate-no-kprobe.py:26-75 | after a written defconfig, running the step again gives what the second run alone gives |
| KsuTree.ProcessFile | KernelSU/scripts/integrate-no-kprobe.py:213-226 | one turn of the loop: crash exactly when a table file is missing; a file outside the table is skipped; otherwise only that file changes, to its edited text |
| KsuTree.ProcessAllFrame | KernelSU/scripts/integrate-no-kprobe.py:212-230 | the loop neither adds nor drops files and never changes a path it is not given |
| KsuTree.CompletedHadAll | KernelSU/scripts/integrate-no-kprobe.py:213-217 | a loop that completes found every table file it was given |
| KsuTree.CrashedAtFirstMissing | KernelSU/scripts/integrate-no-kprobe.py:213-217 | a loop that crashes does so at a missing table file, and every table file before it exists |
| KsuTree.ProcessAllCrash | KernelSU/scripts/integrate-no-kprobe.py:212-230 | the loop completes exactly when every table file among the paths exists, else it stops at the first missing one |
| KsuTree.ProcessAllAt | KernelSU/scripts/integrate-no-kprobe.py:213 | the loop from position `k` is one turn followed by the loop from `k + 1` |
| KsuTree.ProcessAllSteps | KernelSU/scripts/integrate-no-kprobe.py:212-226 | after a completed loop, each table file given once holds its own edit of its original text |
| KsuTree.ExternalFileGetsHeader | KernelSU/scripts/integrate-no-kprobe.py:219-221 | with external edits disabled, a non-core table file still gets the header, and only that |
| KsuTree.FileStepDisableAfterEnable | KernelSU/scripts/integrate-no-kprobe.py:212-230 | enabling a file through its own step and then disabling it leaves the newlines around both blocks and the snippet's indent, and nothing else of the two blocks |
| KsuTree.EnableThenRemove | KernelSU/scripts/integrate-no-kprobe.py:219-224 | the same for any guarded header-shaped block, with the call found in the text after the header |
| KsuTree.EnabledText | KernelSU/scripts/integrate-no-kprobe.py:219-221 | the enabled text is the header-edited text with the call block spliced in at the first `if` |
| KsuTree.CallStepSplice | KernelSU/scripts/integrate-no-kprobe.py:118-132 | the call step splices the block at the first `if` after the match |
| KsuTree.KprobesStopsRun | KernelSU/scripts/integrate-no-kprobe.py:52-56 | a defconfig with kprobes on stops the run before any file is written |
| KsuTree.MissingDefconfigContinues | KernelSU/scripts/integrate-no-kprobe.py:44-46 | with no defconfig the run goes on to the source step on the unchanged tree |
| KsuTree.RunTogglesDefconfig | KernelSU/scripts/integrate-no-kprobe.py:246-259 | a written defconfig that is not among the source paths ends up holding the edited text, and the run keeps the tree's files |
| KsuTree.DefconfigIsNotMain | KernelSU/scripts/integrate-no-kprobe.py:249-256 | the chosen defconfig is never one of the six source paths |
| KsuTree.KernelTree.constructor | KernelSU/scripts/integrate-no-kprobe.py:166-210 | the tree starts with the given files and listings, the `ksu_calls` table and the six paths of `main` |
| KsuTree.KernelTree.FirstEntryIn | KernelSU/scripts/integrate-no-kprobe.py:36-40 | the inner loop over one directory's names returns `FirstEntry`: the first accepted name, or `None` |
| KsuTree.KernelTree.FindDefconfig | KernelSU/scripts/integrate-no-kprobe.py:34-42 | the nested directory loop returns `SelectDefconfig`; a path found exists and ends in `_defconfig` |
| KsuTree.KernelTree.ModifyKsuConfig | KernelSU/scripts/integrate-no-kprobe.py:26-75 | the outcome and the new tree are those of `ConfigStep` |
| KsuTree.KernelTree.AddKsuHeader | KernelSU/scripts/integrate-no-kprobe.py:77-97 | the outcome is `AddHeader`'s, and only that file changes, to the edited text when the header was added |
| KsuTree.KernelTree.AddKsuCalls | KernelSU/scripts/integrate-no-kprobe.py:99-143 | the outcome is `AddCalls`'s, and only that file changes, to the spliced text when the call was added |
| KsuTree.KernelTree.PatchFile | KernelSU/scripts/integrate-no-kprobe.py:219-226 | a table file that exists gets the header and then the call, or the removal, and nothing else changes |
| KsuTree.KernelTree.ProcessKernelSource | KernelSU/scripts/integrate-no-kprobe.py:212-230 | the loop's final tree and crash point are those of `ProcessAll` |
| KsuTree.KernelTree.Run | KernelSU/scripts/integrate-no-kprobe.py:232-259 | the run's outcome and final tree are those of `RunSpec` over the table and the six paths |

## Left out

- Output and process exit are not modelled. The `print` messages become the outcome
  datatypes. The `exit()` of the kprobes check becomes the `KprobesAbort` outcome.
- KsuInject.AddCalls: the `ExternalSkipped` outcome is a distinction the script does not
  report. When the gate at line 131 is off, the script sets the new text to the old one
  (line 134), still writes the file (lines 137-138) and prints the same "Added KSU calls"
  message as a real splice (line 139). In the model the file's text is likewise
  unchanged.
- File I/O works on the `files` map. `os.path.exists` means "the path is a key of the
  map".
- KsuConfig.FirstEntryFrom: a directory whose name ends in `_defconfig` is skipped.
  Directories are not keys of the `files` map. In the script, `os.path.exists` accepts
  such a directory, the loop of lines 39-42 stops at it, and the `open` at line 49 raises
  an exception. `os.listdir` is the `listing` map. Listing a directory that does not exist raises
  an exception, modelled as `ListingFailed`. Opening a table file that does not exist
  raises an exception, and the run stops there (`Crashed`).
- `apply_patch` and the `--patch` option are not part of this model; they run `git`
  through `subprocess`. As written, that line also reads `args.kernel_path`, which the
  parser never defines.
- Argument parsing is not modelled. The positional `defconfig` argument is unused:
  `modify_ksu_config` searches the two directories instead.
- The first `process_kernel_source` (lines 145-163) is replaced by the second definition
  (lines 212-230), which is the one modelled.
- `\s` is ASCII whitespace only: space, tab, '\n', '\r', vertical tab and form feed.
  Python also counts other Unicode space characters.
- KsuPatterns.FindFunction: an empty candidate list returns `None` here. Python
  would raise `UnboundLocalError` on the unassigned `match`. Every table entry lists at least one
  candidate, so this case never arises in the script.
- KsuRegistry.OnlyStatRewritten: the `&flag` to `&flags` rewrite of the `stat.c`
  snippet is proved by `KsuRegistry.StatxRewrite`. That the other five snippets hold no
  `#endif` between their markers is not proved. `KsuInject.DisableAfterEnable` and
  `KsuTree.FileStepDisableAfterEnable` take that as a precondition.
- Files are read and written in Python's text mode (lines 49-50, 72-73, 78-79, 91-92,
  100-101, 137-138, 216-217 and 225-226). On reading, '\r\n' and '\r' become '\n', and
  bytes that do not decode raise an exception. Writing puts '\n' back. The `files` map
  holds the decoded text after that translation. So the model does not capture the
  normalisation a write-back does, for example the write at lines 137-138 of a file whose
  call is gated off at line 134, or the disable write at lines 225-226 of a file with no marker. Decoding
  failures are not modelled either. The raw text would give a different answer: for a
  defconfig line `CONFIG_KPROBES=y\r\n` the script stops, but `KsuConfig.ToggleConfig`
  on the raw text sees the line `CONFIG_KPROBES=y\r` and does not stop.
- KsuTree.RunSpec and KsuTree.ProcessAll take the table and the path list as parameters. The
  class fixes them to the script's `ksu_calls` and the six paths of `main`.
- KsuTree.RunTogglesDefconfig takes as a precondition that the defconfig is not a
  source path. `KsuTree.DefconfigIsNotMain` proves this for the six paths of `main`.

## Behaviour worth knowing

- Disabling after enabling does not restore the original sources.
  `KsuInject.DisableAfterEnable` and `KsuTree.FileStepDisableAfterEnable` show that the
  newlines around both blocks and the snippet's indent remain.
- The removal is lazy: each region ends at the nearest `#endif` after its
  `#ifdef CONFIG_KSU` (`KsuInject.RemoveBlock`).
- Every `CONFIG_KSU=` line of the defconfig is rewritten (`KsuConfig.RewriteShape`).
- A missing defconfig prints an error, and the run goes on to the source files
  (`KsuTree.MissingDefconfigContinues`).
- With the `{` on a `SYSCALL_DEFINE` macro's own line, the match runs on to the next
  line holding a `{`. An `if (a) {` there lies inside the match and gets no snippet
  (`KsuPatterns.MacroBraceOnOwnLine`).
- Adding the header twice nests the second block inside the first
  (`KsuInject.HeaderTwice`).
