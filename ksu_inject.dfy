/** The three text rewrites of the integration script: the guarded include after the
    last `#include` (`add_ksu_header`), the guarded hook call before the first `if` after
    a matched function's opening line (`add_ksu_calls`), and the removal of every
    `#ifdef CONFIG_KSU ... #endif` region (`process_kernel_source` when disabling). */
module KsuInject {
  import opened Text
  import opened KsuPatterns

  const IncludeDirective := "#include"
  const HookInclude := IncludeDirective + " <ksu_hook.h>"
  const HeaderBody := "\n" + HookInclude + "\n"
  /** The block put after the line holding the last `#include`. */
  const HeaderBlock := "\n" + GuardBegin + HeaderBody + GuardEnd + "\n"

  datatype HeaderResult = HeaderAdded(text: string) | NoInclude | NoIncludeEnd

  /** `add_ksu_header` (lines 77-97) on the file's text: the block goes right after the
      first '\n' following the last textual `#include`. There is no check for a block
      already being there. */
  function AddHeader(content: string): HeaderResult
  {
    match RFind(content, IncludeDirective)
    case None => NoInclude
    case Some(i) =>
      match FindFrom(content, "\n", i)
      case None => NoIncludeEnd
      case Some(e) => HeaderAdded(content[..e + 1] + HeaderBlock + content[e + 1..])
  }

  /** Without any `#include` the file is left alone, and that is the only way to get
      `NoInclude`. */
  lemma HeaderNeedsInclude(content: string)
    ensures AddHeader(content) == NoInclude <==> Absent(content, IncludeDirective)
  {
  }

  /** `i` is the last `#include` and `e` the first '\n' at or after it. */
  ghost predicate IsIncludeLineEnd(content: string, i: nat, e: nat)
  {
    OccursAt(content, IncludeDirective, i) &&
    (forall j :: i < j ==> !OccursAt(content, IncludeDirective, j)) &&
    i <= e < |content| && content[e] == '\n' &&
    forall k :: i <= k < e ==> content[k] != '\n'
  }

  lemma FirstNewlineAt(s: string, from: nat, e: nat)
    requires from <= e < |s| && s[e] == '\n' && forall k :: from <= k < e ==> s[k] != '\n'
    ensures FindFrom(s, "\n", from) == Some(e)
  {
    CharAt(s, '\n', e);
    var f := FindFrom(s, "\n", from);
    assert f.Some? && f.value <= e;
    CharAt(s, '\n', f.value);
  }

  /** The block is spliced in right after the line of the last `#include`. */
  lemma HeaderSplice(content: string, i: nat, e: nat)
    requires IsIncludeLineEnd(content, i, e)
    ensures AddHeader(content) == HeaderAdded(content[..e + 1] + HeaderBlock + content[e + 1..])
  {
    var r := RFind(content, IncludeDirective);
    assert r == Some(i) by {
      assert r.Some? && r.value >= i;
    }
    FirstNewlineAt(content, i, e);
  }

  /** When the last `#include` has no '\n' after it, the file is left alone. */
  lemma HeaderNeedsLineEnd(content: string, i: nat)
    requires OccursAt(content, IncludeDirective, i)
    requires forall j :: i < j ==> !OccursAt(content, IncludeDirective, j)
    requires forall k :: i <= k < |content| ==> content[k] != '\n'
    ensures AddHeader(content) == NoIncludeEnd
  {
    var r := RFind(content, IncludeDirective);
    assert r == Some(i) by {
      assert r.Some? && r.value >= i;
    }
    var f := FindFrom(content, "\n", i);
    if f.Some? {
      CharAt(content, '\n', f.value);
    }
  }

  /** The block's own `#include` line: it starts at 19 and ends at 40, and the block
      ends with '\n'. */
  lemma HeaderBlockInclude()
    ensures |HeaderBlock| == 48 && HeaderBlock[47] == '\n'
    ensures OccursAt(HeaderBlock, IncludeDirective, 19) && HeaderBlock[40] == '\n'
    ensures forall k :: 19 <= k < 40 ==> HeaderBlock[k] != '\n'
  {
    var x := "\n" + GuardBegin + "\n";
    var y := "\n" + GuardEnd + "\n";
    assert HeaderBlock == x + HookInclude + y;
    assert |x| == 19 && |HookInclude| == 21 && |y| == 8 && y[0] == '\n' && y[7] == '\n';
    assert HookInclude == IncludeDirective + " <ksu_hook.h>" && '\n' !in HookInclude;
    LineInJoin(x, IncludeDirective, " <ksu_hook.h>", y);
  }

  /** A line `d + rest` without '\n' put between `x` and a text starting with '\n': `d`
      occurs where the line starts, and the line ends at the '\n' after it. */
  lemma LineInJoin(x: string, d: string, rest: string, y: string)
    requires '\n' !in d + rest && |y| > 0 && y[0] == '\n'
    ensures OccursAt(x + (d + rest) + y, d, |x|)
    ensures (x + (d + rest) + y)[|x| + |d + rest|] == '\n'
    ensures forall k :: |x| <= k < |x| + |d + rest| ==> (x + (d + rest) + y)[k] != '\n'
  {
    var t := x + (d + rest) + y;
    assert t[|x|..|x| + |d|] == d;
    forall k | |x| <= k < |x| + |d + rest| ensures t[k] != '\n' {
      assert t[k] == (d + rest)[k - |x|];
    }
  }

  /** No `#include` starts after the block's own. */
  lemma HeaderBlockLastInclude()
    ensures forall j :: 19 < j ==> !OccursAt(HeaderBlock, IncludeDirective, j)
  {
    var x := "\n" + GuardBegin + "\n";
    var y := " <ksu_hook.h>" + "\n" + (GuardEnd + "\n");
    assert HeaderBlock == x + IncludeDirective + y;
    assert Absent(GuardEnd + "\n", IncludeDirective);
    AbsentAfterNoHead(" <ksu_hook.h>" + "\n", GuardEnd + "\n", IncludeDirective);
    NoLaterAfterHead(x, IncludeDirective, y);
  }

  /** The last `#include` of a text put between `pre` and an `#include`-free `post` is
      the last of the whole, when the text ends with '\n'. */
  lemma LastIncludeLifts(pre: string, x: string, post: string, i: nat, e: nat)
    requires IsIncludeLineEnd(x, i, e) && x[|x| - 1] == '\n' && Absent(post, IncludeDirective)
    ensures IsIncludeLineEnd(pre + x + post, |pre| + i, |pre| + e)
  {
    var t := pre + x + post;
    var n := |pre|;
    OccursLift(pre, x, post, IncludeDirective, i);
    NoIncludeAfterLifted(pre, x, post, i);
    forall k | n + i <= k < n + e ensures t[k] != '\n' {
      assert t[k] == x[k - n];
    }
  }

  /** No `#include` starts after the lifted one. */
  lemma NoIncludeAfterLifted(pre: string, x: string, post: string, i: nat)
    requires |x| > 0 && x[|x| - 1] == '\n' && Absent(post, IncludeDirective)
    requires forall j :: i < j ==> !OccursAt(x, IncludeDirective, j)
    ensures forall j :: |pre| + i < j ==> !OccursAt(pre + x + post, IncludeDirective, j)
  {
    var t := pre + x + post;
    var n, m := |pre|, |pre| + |x|;
    assert t[n..m] == x;
    assert t[m..|t|] == post;
    assert t[m - 1] == '\n';
    forall j | n + i < j ensures !OccursAt(t, IncludeDirective, j) {
      if j + 8 <= m {
        OccursInSlice(t, IncludeDirective, n, m, j - n);
      } else if m <= j {
        OccursInSlice(t, IncludeDirective, m, |t|, j - m);
      } else {
        Straddle(t, j, m - 1);
      }
    }
  }

  /** `#include` holds no '\n', so it never starts just before one within its length. */
  lemma Straddle(t: string, j: nat, k: nat)
    requires j <= k < |t| && k < j + |IncludeDirective| && t[k] == '\n'
    ensures !OccursAt(t, IncludeDirective, j)
  {
    assert '\n' !in IncludeDirective;
    if j + |IncludeDirective| <= |t| {
      assert t[j..j + |IncludeDirective|][k - j] == '\n';
    }
  }

  /** Header injection on a text carrying the block, with nothing after the block
      holding `#include`. */
  lemma SecondSplice(pre: string, post: string)
    requires Absent(post, IncludeDirective)
    ensures AddHeader(pre + HeaderBlock + post) ==
      HeaderAdded((pre + HeaderBlock + post)[..|pre| + 41] + HeaderBlock + (pre + HeaderBlock + post)[|pre| + 41..])
  {
    HeaderBlockInclude();
    HeaderBlockLastInclude();
    LastIncludeLifts(pre, HeaderBlock, post, 19, 40);
    HeaderSplice(pre + HeaderBlock + post, |pre| + 19, |pre| + 40);
  }

  /** After the line of the last `#include`, no `#include` starts. */
  lemma RestLacksInclude(content: string, i: nat, e: nat)
    requires IsIncludeLineEnd(content, i, e)
    ensures Absent(content[e + 1..], IncludeDirective)
  {
    var post := content[e + 1..];
    assert content[e + 1..|content|] == post;
    forall k ensures !OccursAt(post, IncludeDirective, k) {
      OccursInSlice(content, IncludeDirective, e + 1, |content|, k);
    }
  }

  /** A second call inserts a second block right after the `#include` line of the first
      one, that is inside the first block: the header injector is not idempotent. */
  lemma HeaderTwice(content: string, i: nat, e: nat)
    requires IsIncludeLineEnd(content, i, e)
    ensures AddHeader(content).HeaderAdded?
    ensures AddHeader(AddHeader(content).text) ==
      HeaderAdded(content[..e + 1] + HeaderBlock[..41] + HeaderBlock + HeaderBlock[41..] + content[e + 1..])
  {
    HeaderSplice(content, i, e);
    RestLacksInclude(content, i, e);
    var pre, post := content[..e + 1], content[e + 1..];
    SecondSplice(pre, post);
    HeaderBlockInclude();
    CutInMiddle(pre, HeaderBlock, post, 41);
    Regroup(pre, HeaderBlock[..41], HeaderBlock, HeaderBlock[41..], post);
  }

  lemma Regroup(a: string, b: string, c: string, d: string, e: string)
    ensures (a + b) + c + (d + e) == a + b + c + d + e
  {
  }

  // ---- the hook call ----

  /** Files that keep their hook call when external modifications are disabled. */
  predicate IsCoreFile(path: string)
  {
    EndsWith(path, "exec.c") || EndsWith(path, "open.c") || EndsWith(path, "read_write.c") || EndsWith(path, "stat.c")
  }

  /** The snippet as inserted: `vfs_statx` names its parameter `flags`, so for it every
      `&flag` of the snippet becomes `&flags`. */
  function HookCode(name: string, code: string): string
  {
    if name == "vfs_statx" then ReplaceAll(code, "&flag", "&flags") else code
  }

  /** What is spliced in before the `if`. */
  function CallBlock(code: string): string
  {
    "\n\n" + code + "\n"
  }

  datatype CallResult = CallsAdded(name: string, text: string) | ExternalSkipped(name: string) | NoIf(name: string) | NoFunction

  /** `add_ksu_calls` (lines 99-143) on the file's text. The first candidate that matches
      wins; the `if` is searched in everything after the match, as line 120 slices it. */
  function AddCalls(path: string, content: string, candidates: seq<string>, code: string, disableExternal: bool): CallResult
  {
    match FirstMatch(content, candidates)
    case None => NoFunction
    case Some(h) =>
      var name := candidates[h.index];
      var body := content[h.end..];
      match FindIf(body, 0)
      case None => NoIf(name)
      case Some(j) =>
        if !disableExternal || IsCoreFile(path) then
          CallsAdded(name, content[..h.end + j] + CallBlock(HookCode(name, code)) + content[h.end + j..])
        else ExternalSkipped(name)
  }

  lemma MatchEndInRange(content: string, candidates: seq<string>)
    requires FirstMatch(content, candidates).Some?
    ensures FirstMatch(content, candidates).value.end <= |content|
  {
    var h := FirstMatch(content, candidates).value;
    var m := Search(content, candidates[h.index]).value;
    assert MatchAt(content, candidates[h.index], m.start) == Some(m.end);
  }

  /** The call goes in before the first `if` after the matched opening line, with the
      snippet adjusted for `vfs_statx`. */
  lemma CallSplice(path: string, content: string, candidates: seq<string>, code: string, disableExternal: bool, h: Hit, j: nat)
    requires FirstMatch(content, candidates) == Some(h)
    requires IfAt(content[h.end..], j) && forall j' :: 0 <= j' < j ==> !IfAt(content[h.end..], j')
    requires !disableExternal || IsCoreFile(path)
    ensures h.end + j < |content|
    ensures AddCalls(path, content, candidates, code, disableExternal) ==
      CallsAdded(candidates[h.index], content[..h.end + j] + "\n\n" + HookCode(candidates[h.index], code) + "\n" + content[h.end + j..])
  {
    MatchEndInRange(content, candidates);
    FirstIfAt(content[h.end..], j);
    var name := candidates[h.index];
    var p := h.end + j;
    AddCallsFound(path, content, candidates, code, disableExternal, h, j);
    CallBlockJoin(content[..p], HookCode(name, code), content[p..]);
  }

  lemma AddCallsFound(path: string, content: string, candidates: seq<string>, code: string, disableExternal: bool, h: Hit, j: nat)
    requires FirstMatch(content, candidates) == Some(h) && h.end <= |content|
    requires FindIf(content[h.end..], 0) == Some(j) && (!disableExternal || IsCoreFile(path))
    ensures h.end + j < |content|
    ensures AddCalls(path, content, candidates, code, disableExternal) ==
      CallsAdded(candidates[h.index], content[..h.end + j] + CallBlock(HookCode(candidates[h.index], code)) + content[h.end + j..])
  {
  }

  lemma CallBlockJoin(a: string, x: string, b: string)
    ensures a + CallBlock(x) + b == a + "\n\n" + x + "\n" + b
  {
  }

  lemma FirstIfAt(body: string, j: nat)
    requires IfAt(body, j) && forall j' :: 0 <= j' < j ==> !IfAt(body, j')
    ensures FindIf(body, 0) == Some(j)
  {
    var f := FindIf(body, 0);
    assert f.Some? && f.value <= j;
  }

  /** No candidate matches: the file is left alone, a distinct outcome. */
  lemma CallNeedsFunction(path: string, content: string, candidates: seq<string>, code: string, disableExternal: bool)
    ensures AddCalls(path, content, candidates, code, disableExternal) == NoFunction <==>
      forall k :: 0 <= k < |candidates| ==> Search(content, candidates[k]).None?
  {
    var f := FirstMatch(content, candidates);
    if f.Some? {
      assert Search(content, candidates[f.value.index]).Some?;
    }
  }

  /** A candidate matched but no `if` follows: the file is left alone, another outcome. */
  lemma CallNeedsIf(path: string, content: string, candidates: seq<string>, code: string, disableExternal: bool, h: Hit)
    requires FirstMatch(content, candidates) == Some(h)
    requires forall j :: 0 <= j ==> !IfAt(content[h.end..], j)
    ensures AddCalls(path, content, candidates, code, disableExternal) == NoIf(candidates[h.index])
  {
  }

  /** With external modifications disabled, a file outside the core four never gets the
      call, whatever matched. */
  lemma ExternalGate(path: string, content: string, candidates: seq<string>, code: string)
    requires !IsCoreFile(path)
    ensures !AddCalls(path, content, candidates, code, true).CallsAdded?
  {
  }

  /** Only `vfs_statx` gets the rewritten snippet; an `&flag`-free snippet is never
      changed. */
  lemma HookCodeOnlyStatx(name: string, code: string)
    ensures name != "vfs_statx" ==> HookCode(name, code) == code
    ensures Absent(code, "&flag") ==> HookCode(name, code) == code
  {
    if Absent(code, "&flag") {
      ReplaceAllAbsent(code, "&flag", "&flags");
    }
  }

  /** When the first candidate is not in the file and the second is, the second is used. */
  lemma SecondCandidateUsed(content: string, first: string, second: string)
    requires Search(content, first).None? && Search(content, second).Some?
    ensures FirstMatch(content, [first, second]) == Some(Hit(1, Search(content, second).value.end))
  {
    var f := FirstMatch(content, [first, second]);
    assert FirstMatchFrom(content, [first, second], 0) == FirstMatchFrom(content, [first, second], 1);
  }

  // ---- removal ----

  const GuardBegin := "#ifdef CONFIG_KSU"
  const GuardEnd := "#endif"

  /** The lazy, DOTALL deletion of `process_kernel_source` (line 224): from left to
      right, every region from a `#ifdef CONFIG_KSU` to the nearest `#endif` after it is
      deleted. A marker with no `#endif` after it stops the scan,
      since no later marker can have one either. */
  function RemoveGuarded(s: string): (r: string)
    ensures |r| <= |s|
    decreases |s|
  {
    match FindFrom(s, GuardBegin, 0)
    case None => s
    case Some(i) =>
      match FindFrom(s, GuardEnd, i + |GuardBegin|)
      case None => s
      case Some(j) => s[..i] + RemoveGuarded(s[j + |GuardEnd|..])
  }

  lemma GuardsHeadUnique()
    ensures HeadUnique(GuardBegin) && HeadUnique(GuardEnd)
    ensures '\n' !in GuardBegin && '\n' !in GuardEnd
  {
  }

  /** Text without the marker is left unchanged. */
  lemma RemoveAbsent(s: string)
    requires Absent(s, GuardBegin)
    ensures RemoveGuarded(s) == s
  {
  }

  /** The first region, from the marker to the nearest `#endif`, is deleted whole and
      the text around it kept in order. */
  lemma RemoveBlock(a: string, body: string, b: string)
    requires Absent(a, GuardBegin) && Absent(body, GuardEnd)
    ensures RemoveGuarded(a + GuardBegin + body + GuardEnd + b) == a + RemoveGuarded(b)
  {
    GuardsHeadUnique();
    var s := a + GuardBegin + body + GuardEnd + b;
    var i, j := |a|, |a| + |GuardBegin| + |body|;
    assert s[0..i] == a;
    assert s[i..i + |GuardBegin|] == GuardBegin;
    FindFirstAt(s, GuardBegin, 0, i);
    assert s[i + |GuardBegin|..j] == body;
    assert s[j..j + |GuardEnd|] == GuardEnd;
    FindFirstAt(s, GuardEnd, i + |GuardBegin|, j);
    assert s[..i] == a;
    assert s[j + |GuardEnd|..] == b;
  }

  /** A marker with no `#endif` after it, and everything after it, is kept. */
  lemma RemoveUnclosed(a: string, b: string)
    requires Absent(a, GuardBegin) && Absent(b, GuardEnd)
    ensures RemoveGuarded(a + GuardBegin + b) == a + GuardBegin + b
  {
    GuardsHeadUnique();
    var s := a + GuardBegin + b;
    var i := |a|;
    assert s[0..i] == a;
    assert s[i..i + |GuardBegin|] == GuardBegin;
    FindFirstAt(s, GuardBegin, 0, i);
    forall j | i + |GuardBegin| <= j ensures !OccursAt(s, GuardEnd, j) {
      OccursInSlice(s, GuardEnd, i + |GuardBegin|, |s|, j - i - |GuardBegin|);
      assert s[i + |GuardBegin|..|s|] == b;
    }
  }

  lemma HookIncludeLacksEnd()
    ensures Absent(HookInclude, GuardEnd)
  {
    var s, inc := HookInclude, IncludeDirective;
    assert s[1] == inc[1] != GuardEnd[1];
    assert s[1..] == inc[1..] + " <ksu_hook.h>";
    NoStartIn(s, GuardEnd, 1, |s|, inc[1..] + " <ksu_hook.h>");
    assert !OccursAt(s, GuardEnd, 0) by {
      assert s[0..6][1] == s[1];
    }
  }

  /** What lies between the header block's marker and its `#endif` holds no `#endif`. */
  lemma HeaderBodyLacksEnd()
    ensures Absent(HeaderBody, GuardEnd)
  {
    HookIncludeLacksEnd();
    GuardsHeadUnique();
    assert Absent("", GuardEnd);
    AbsentJoin("", HookInclude, GuardEnd);
    AbsentJoin("" + "\n" + HookInclude, "", GuardEnd);
    assert HeaderBody == "" + "\n" + HookInclude + "\n" + "";
  }

  /** Two guarded regions in a row are both deleted. */
  lemma RemoveTwoBlocks(x1: string, b1: string, x2: string, b2: string, x3: string)
    requires Absent(x1, GuardBegin) && Absent(b1, GuardEnd) && Absent(x2, GuardBegin)
    requires Absent(b2, GuardEnd) && Absent(x3, GuardBegin)
    ensures RemoveGuarded(x1 + GuardBegin + b1 + GuardEnd + (x2 + GuardBegin + b2 + GuardEnd + x3)) == x1 + x2 + x3
  {
    RemoveBlock(x1, b1, x2 + GuardBegin + b2 + GuardEnd + x3);
    RemoveBlock(x2, b2, x3);
    RemoveAbsent(x3);
  }

  /** Where the pieces of the header block and of the call block end up. */
  lemma InjectedLayout(a: string, hb: string, g: string, hbody: string, ge: string, m: string, indent: string, body: string, z: string)
    requires hb == "\n" + g + hbody + ge + "\n"
    ensures a + hb + m + CallBlock(indent + g + body + ge) + z ==
      (a + "\n") + g + hbody + ge + (("\n" + m + "\n\n" + indent) + g + body + ge + ("\n" + z))
  {
  }

  /** `x` without the marker stays so with '\n' on either side. */
  lemma AbsentPadded(x: string)
    requires Absent(x, GuardBegin)
    ensures Absent("\n" + x, GuardBegin) && Absent(x + "\n", GuardBegin)
  {
    GuardsHeadUnique();
    assert Absent("", GuardBegin);
    AbsentJoin("", x, GuardBegin);
    AbsentJoin(x, "", GuardBegin);
    assert "\n" + x == "" + "\n" + x;
    assert x + "\n" == x + "\n" + "";
  }

  /** Inject, then remove: with the call site after the header (`p`, in the original
      text's positions, at or after the header's `k`), and a snippet made of a
      marker-free indent, the marker, an `#endif`-free body and `#endif`, removal does
      not give the original back. The newlines around both blocks and the snippet's
      indent stay behind. */
  lemma DisableAfterEnable(c: string, k: nat, p: nat, indent: string, body: string)
    requires k <= p <= |c|
    requires Absent(c, GuardBegin) && Absent(indent, GuardBegin) && Absent(body, GuardEnd)
    ensures var h := c[..k] + HeaderBlock + c[k..];
            var q := p + |HeaderBlock|;
            RemoveGuarded(h[..q] + CallBlock(indent + GuardBegin + body + GuardEnd) + h[q..]) ==
              c[..k] + "\n" + ("\n" + c[k..p] + "\n\n" + indent) + ("\n" + c[p..])
  {
    HeaderBodyLacksEnd();
    var h := c[..k] + HeaderBlock + c[k..];
    var q := p + |HeaderBlock|;
    RemoveInjected(c, k, p, HeaderBlock, HeaderBody, indent, body, h, q, h[..q] + CallBlock(indent + GuardBegin + body + GuardEnd) + h[q..]);
  }

  /** `DisableAfterEnable` for any guarded block of the header's form, put at `k` to give
      `t`, and a call block put at `q` of `t`, that is at `p` of the original text. */
  lemma RemoveInjected(c: string, k: nat, p: nat, hb: string, hbody: string, indent: string, body: string,
                       t: string, q: nat, enabled: string)
    requires k <= p <= |c| && hb == "\n" + GuardBegin + hbody + GuardEnd + "\n"
    requires Absent(c, GuardBegin) && Absent(indent, GuardBegin) && Absent(body, GuardEnd) && Absent(hbody, GuardEnd)
    requires t == c[..k] + hb + c[k..] && q == p + |hb|
    requires enabled == t[..q] + CallBlock(indent + GuardBegin + body + GuardEnd) + t[q..]
    ensures RemoveGuarded(enabled) == c[..k] + "\n" + ("\n" + c[k..p] + "\n\n" + indent) + ("\n" + c[p..])
  {
    InjectedText(c, k, p, hb, hbody, indent, body, t, q);
    PiecesLackMarker(c, k, p, indent);
    RemoveTwoBlocks(c[..k] + "\n", hbody, "\n" + c[k..p] + "\n\n" + indent, body, "\n" + c[p..]);
  }

  lemma InjectedText(c: string, k: nat, p: nat, hb: string, hbody: string, indent: string, body: string, t: string, q: nat)
    requires k <= p <= |c| && hb == "\n" + GuardBegin + hbody + GuardEnd + "\n"
    requires t == c[..k] + hb + c[k..] && q == p + |hb|
    ensures t[..q] + CallBlock(indent + GuardBegin + body + GuardEnd) + t[q..] ==
              (c[..k] + "\n") + GuardBegin + hbody + GuardEnd +
              (("\n" + c[k..p] + "\n\n" + indent) + GuardBegin + body + GuardEnd + ("\n" + c[p..]))
  {
    assert t[..q] == c[..k] + hb + c[k..p];
    assert t[q..] == c[p..];
    InjectedLayout(c[..k], hb, GuardBegin, hbody, GuardEnd, c[k..p], indent, body, c[p..]);
  }

  /** The text between and around the two blocks holds no marker. */
  lemma PiecesLackMarker(c: string, k: nat, p: nat, indent: string)
    requires k <= p <= |c|
    requires Absent(c, GuardBegin) && Absent(indent, GuardBegin)
    ensures Absent(c[..k] + "\n", GuardBegin) && Absent("\n" + c[p..], GuardBegin)
    ensures Absent("\n" + c[k..p] + "\n\n" + indent, GuardBegin)
  {
    AbsentSlice(c, GuardBegin, 0, k);
    AbsentSlice(c, GuardBegin, k, p);
    AbsentSlice(c, GuardBegin, p, |c|);
    assert c[0..k] == c[..k] && c[p..|c|] == c[p..];
    AbsentPadded(c[..k]);
    AbsentPadded(c[p..]);
    AbsentPadded(c[k..p]);
    GuardsHeadUnique();
    AbsentJoin("\n" + c[k..p], "", GuardBegin);
    AbsentJoin("\n" + c[k..p] + "\n" + "", indent, GuardBegin);
    assert "\n" + c[k..p] + "\n\n" + indent == "\n" + c[k..p] + "\n" + "" + "\n" + indent;
  }
}
