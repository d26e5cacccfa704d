/** The `ksu_calls` table (lines 166-210): for each file name, the functions to look
    for, in order, and the hook snippet to put in; and the six files `main` hands to the
    source step (lines 248-256). */
module KsuRegistry {
  import opened Text
  import opened KsuInject

  datatype Rule = Rule(functions: seq<string>, code: string)

  /** Every snippet is the guard marker indented by three spaces, a body, and `#endif`. */
  function Snippet(body: string): string
  {
    "   " + GuardBegin + body + GuardEnd
  }

  const ExecBody := "\n       if (unlikely(ksu_execveat_hook))\n               ksu_handle_execveat(&fd, &filename, &argv, &envp, &flags);\n       else\n               ksu_handle_execveat_sucompat(&fd, &filename, &argv, &envp, &flags);\n   "
  const OpenBody := "\n            ksu_handle_faccessat(&dfd, &filename, &mode, NULL);\n   "
  const ReadWriteBody := "\n       if (unlikely(ksu_vfs_read_hook))\n               ksu_handle_vfs_read(&file, &buf, &count, &pos);\n   "
  /** The `stat.c` body is written in pieces so that its one `&flag` stands apart. */
  const StatCall := "\n" + "        " + "if (unlikely(" + "ksu_vfs_stat_hook" + "))" + "\n" + "            " + "ksu_handle_stat("
  const StatHead := StatCall + "&dfd, " + "&filename, "
  const StatTail := ");\n    "
  const StatBody := StatHead + "&flag" + StatTail
  const DevptsBody := "\n       ksu_handle_devpts(dentry->d_inode);\n   "
  const InputBody := "\n       if (unlikely(ksu_input_hook))\n           ksu_handle_input_handle_event(&type, &code, &value);\n   "

  const Registry: map<string, Rule> := map[
    "exec.c" := Rule(["do_execveat_common"], Snippet(ExecBody)),
    "open.c" := Rule(["do_faccessat", "SYSCALL_DEFINE3(faccessat,"], Snippet(OpenBody)),
    "read_write.c" := Rule(["vfs_read"], Snippet(ReadWriteBody)),
    "stat.c" := Rule(["vfs_statx", "vfs_fstatat"], Snippet(StatBody)),
    "inode.c" := Rule(["*devpts_get_priv"], Snippet(DevptsBody)),
    "input.c" := Rule(["input_handle_event"], Snippet(InputBody))
  ]

  const MainPaths: seq<string> := ["./fs/exec.c", "./fs/open.c", "./fs/read_write.c", "./fs/stat.c",
                                   "./fs/devpts/inode.c", "./drivers/input/input.c"]

  /** `os.path.basename`: the longest tail of the path without '/'. */
  function BaseName(path: string): string
  {
    if |path| == 0 || path[|path| - 1] == '/' then ""
    else BaseName(path[..|path| - 1]) + [path[|path| - 1]]
  }

  /** The base name is a tail of the path holding no '/', preceded by a '/' unless it
      is the whole path. */
  lemma BaseNameShape(path: string)
    ensures '/' !in BaseName(path) && EndsWith(path, BaseName(path))
    ensures |BaseName(path)| < |path| ==> path[|path| - |BaseName(path)| - 1] == '/'
  {
    BaseNameTail(path);
    BaseNameSlash(path);
  }

  lemma {:induction false} BaseNameTail(path: string)
    ensures '/' !in BaseName(path) && |BaseName(path)| <= |path|
    ensures path[|path| - |BaseName(path)|..] == BaseName(path)
  {
    if |path| > 0 && path[|path| - 1] != '/' {
      var init := path[..|path| - 1];
      var r' := BaseName(init);
      BaseNameTail(init);
      assert path[|path| - |r'| - 1..] == path[|path| - |r'| - 1..|path| - 1] + [path[|path| - 1]];
      assert path[|path| - |r'| - 1..|path| - 1] == init[|init| - |r'|..];
    }
  }

  lemma {:induction false} BaseNameSlash(path: string)
    ensures |BaseName(path)| < |path| ==> path[|path| - |BaseName(path)| - 1] == '/'
  {
    if |path| > 0 && path[|path| - 1] != '/' {
      var init := path[..|path| - 1];
      var r' := BaseName(init);
      BaseNameSlash(init);
      assert |BaseName(path)| == |r'| + 1;
      assert |r'| < |init| ==> path[|path| - |r'| - 2] == init[|init| - |r'| - 1];
    }
  }

  /** The name after the last '/' is the base name. */
  lemma {:induction false} BaseNameOfJoin(dir: string, name: string)
    requires '/' !in name
    ensures BaseName(dir + "/" + name) == name
    decreases |name|
  {
    var path := dir + "/" + name;
    if name != [] {
      var init := name[..|name| - 1];
      assert path[..|path| - 1] == dir + "/" + init;
      assert path[|path| - 1] == name[|name| - 1];
      BaseNameOfJoin(dir, init);
      assert name == init + [name[|name| - 1]];
    }
  }

  /** Each of the six paths names a registry entry; the first four are core files and
      the last two, the external ones, are not. */
  lemma MainPathsInRegistry()
    ensures |MainPaths| == 6
    ensures BaseName(MainPaths[0]) in Registry && BaseName(MainPaths[1]) in Registry
    ensures BaseName(MainPaths[2]) in Registry && BaseName(MainPaths[3]) in Registry
    ensures BaseName(MainPaths[4]) in Registry && BaseName(MainPaths[5]) in Registry
    ensures IsCoreFile(MainPaths[0]) && IsCoreFile(MainPaths[1]) && IsCoreFile(MainPaths[2]) && IsCoreFile(MainPaths[3])
    ensures !IsCoreFile(MainPaths[4]) && !IsCoreFile(MainPaths[5])
    ensures BaseName(MainPaths[4]) == "inode.c" && BaseName(MainPaths[5]) == "input.c"
  {
    CorePath0();
    CorePath1();
    CorePath2();
    CorePath3();
    ExternalFileNames();
    RegistryNames();
  }

  lemma RegistryNames()
    ensures "exec.c" in Registry && "open.c" in Registry && "read_write.c" in Registry
    ensures "stat.c" in Registry && "inode.c" in Registry && "input.c" in Registry
  {
  }

  lemma CorePath0()
    ensures BaseName(MainPaths[0]) == "exec.c" && IsCoreFile(MainPaths[0])
  {
    assert MainPaths[0] == "./fs/" + "exec.c";
    FsFile("exec.c");
  }

  lemma CorePath1()
    ensures BaseName(MainPaths[1]) == "open.c" && IsCoreFile(MainPaths[1])
  {
    assert MainPaths[1] == "./fs/" + "open.c";
    FsFile("open.c");
  }

  lemma CorePath2()
    ensures BaseName(MainPaths[2]) == "read_write.c" && IsCoreFile(MainPaths[2])
  {
    assert MainPaths[2] == "./fs/" + "read_write.c";
    FsFile("read_write.c");
  }

  lemma CorePath3()
    ensures BaseName(MainPaths[3]) == "stat.c" && IsCoreFile(MainPaths[3])
  {
    assert MainPaths[3] == "./fs/" + "stat.c";
    FsFile("stat.c");
  }

  lemma FsFile(name: string)
    requires '/' !in name
    ensures BaseName("./fs/" + name) == name && EndsWith("./fs/" + name, name)
  {
    assert "./fs/" + name == "./fs" + "/" + name;
    BaseNameOfJoin("./fs", name);
    SuffixOfJoin("./fs/", name);
  }

  lemma ExternalFileNames()
    ensures BaseName(MainPaths[4]) == "inode.c" && BaseName(MainPaths[5]) == "input.c"
    ensures !IsCoreFile(MainPaths[4]) && !IsCoreFile(MainPaths[5])
  {
    InodePath();
    InputPath();
  }

  lemma InodePath()
    ensures BaseName(MainPaths[4]) == "inode.c" && !IsCoreFile(MainPaths[4])
  {
    var inode := MainPaths[4];
    assert inode == "./fs/devpts" + "/" + "inode.c";
    BaseNameOfJoin("./fs/devpts", "inode.c");
    NotCoreFile(inode);
  }

  lemma InputPath()
    ensures BaseName(MainPaths[5]) == "input.c" && !IsCoreFile(MainPaths[5])
  {
    var input := MainPaths[5];
    assert input == "./drivers/input" + "/" + "input.c";
    BaseNameOfJoin("./drivers/input", "input.c");
    NotCoreFile(input);
  }

  /** A path with 'n' six characters from its end is not a core file: each of the four
      core suffixes has another letter there (`read_write.c` has 'w'). */
  lemma NotCoreFile(path: string)
    requires |path| >= 6 && path[|path| - 6] == 'n'
    ensures !IsCoreFile(path)
  {
    assert path[|path| - 6..][0] == path[|path| - 6];
    if |path| >= 12 {
      assert path[|path| - 12..][6] == path[|path| - 6];
    }
  }

  lemma SuffixOfJoin(a: string, b: string)
    ensures EndsWith(a + b, b)
  {
    assert (a + b)[|a + b| - |b|..] == b;
  }

  /** For `vfs_statx` the `stat.c` snippet's one `&flag)` becomes `&flags)`; the result is
      still a snippet, whose body holds no `#endif`. */
  lemma StatxRewrite()
    ensures StatBody == StatHead + "&flag" + StatTail && StatTail[0] == ')'
    ensures HookCode("vfs_statx", Registry["stat.c"].code) == Snippet(StatHead + "&flags" + StatTail)
    ensures Absent(StatHead + "&flags" + StatTail, GuardEnd)
  {
    var call := "   " + GuardBegin + StatCall;
    var tail := StatTail + GuardEnd;
    StatPieces();
    StatPieceFacts();
    ReplaceInFour(call, "&dfd, ", "&filename, ", tail, "&flag", "&flags");
    StatFlagsPieces();
    AbsentWithoutHead(StatHead + "&flags" + StatTail, GuardEnd);
  }

  lemma StatPieces()
    ensures StatTail[0] == ')'
    ensures Registry["stat.c"].code ==
      ("   " + GuardBegin + StatCall) + ("&dfd, " + ("&filename, " + ("&flag" + (StatTail + GuardEnd))))
  {
    StatRule();
  }

  lemma StatRule()
    ensures Registry["stat.c"].code == Snippet(StatBody)
  {
  }

  lemma StatFlagsPieces()
    ensures Snippet(StatHead + "&flags" + StatTail) ==
      ("   " + GuardBegin + StatCall) + ("&dfd, " + ("&filename, " + ("&flags" + (StatTail + GuardEnd))))
    ensures '#' !in StatHead + "&flags" + StatTail
  {
    StatCallLacksHash();
  }

  lemma StatCallLacksHash()
    ensures '#' !in StatCall
  {
  }

  lemma StatCallLacksAmp()
    ensures '&' !in StatCall
  {
  }

  lemma StatPieceFacts()
    ensures '&' !in "   " + GuardBegin + StatCall && '&' !in StatTail + GuardEnd
    ensures "&dfd, "[..5] != "&flag" && '&' !in "&dfd, "[1..]
    ensures "&filename, "[..5] != "&flag" && '&' !in "&filename, "[1..]
  {
    StatCallLacksAmp();
    assert "&dfd, "[1] != "&flag"[1];
    assert "&filename, "[2] != "&flag"[2];
  }

  /** Replacing in a text whose only occurrence is the one between `b` and `tail`. */
  lemma ReplaceInFour(call: string, a: string, b: string, tail: string, pat: string, rep: string)
    requires |pat| > 0 && pat[0] !in call && pat[0] !in tail
    requires |a| >= |pat| && a[..|pat|] != pat && pat[0] !in a[1..]
    requires |b| >= |pat| && b[..|pat|] != pat && pat[0] !in b[1..]
    ensures ReplaceAll(call + (a + (b + (pat + tail))), pat, rep) == call + (a + (b + (rep + tail)))
  {
    ReplaceAllNoHead(call, a + (b + (pat + tail)), pat, rep);
    ReplaceAllMismatch(a, b + (pat + tail), pat, rep);
    ReplaceAllMismatch(b, pat + tail, pat, rep);
    ReplaceAllHere(tail, pat, rep);
    AbsentWithoutHead(tail, pat);
    ReplaceAllAbsent(tail, pat, rep);
  }

  /** Only the `stat.c` rule has a candidate that gets the `&flags` rewrite; every other
      rule's snippet goes in as written. */
  lemma OnlyStatRewritten()
    ensures forall f, n :: f in Registry && f != "stat.c" && n in Registry[f].functions ==>
      HookCode(n, Registry[f].code) == Registry[f].code
    ensures "vfs_statx" in Registry["stat.c"].functions
  {
  }
}
