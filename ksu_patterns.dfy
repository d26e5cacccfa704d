/** The regular expressions `add_ksu_calls` uses to find a function and the first `if`
    after its opening line, written as explicit searches. `re.search` takes the leftmost
    start at which the pattern matches; at a start, a lazy `.*?` takes the first way that
    lets the rest match and a greedy `\s*` or `[^)]*` takes as much as it can. The shape
    lemmas below show that, for these particular patterns, the searches make exactly the
    choices the regular expression admits. */
module KsuPatterns {
  import opened Text

  /** Candidates starting with this use the macro pattern. */
  const MacroPrefix := "SYSCALL_DEFINE"

  lemma CharAt(s: string, c: char, k: nat)
    requires k < |s|
    ensures OccursAt(s, [c], k) <==> s[k] == c
  {
    assert s[k..k + 1] == [s[k]];
  }

  // ---- the macro form: escape(name) + `.*?\n.*?\{.*?\n`, DOTALL ----

  /** The end of the match at `i`: the first '\n' after the name, then the first '{'
      after that, then the first '\n' after that. */
  function MacroMatchAt(s: string, name: string, i: nat): (r: Option<nat>)
    requires OccursAt(s, name, i)
    ensures r.Some? ==> i + |name| < r.value <= |s|
  {
    match FindFrom(s, "\n", i + |name|)
    case None => None
    case Some(n1) =>
      match FindFrom(s, "{", n1 + 1)
      case None => None
      case Some(b) =>
        match FindFrom(s, "\n", b + 1)
        case None => None
        case Some(n2) => Some(n2 + 1)
  }

  /** One way the macro pattern can match at `i`: '\n' at `n1`, '{' at `b`, and the
      match ends just after a '\n' at `end - 1`. */
  ghost predicate MacroShape(s: string, name: string, i: nat, n1: nat, b: nat, end: nat)
  {
    OccursAt(s, name, i) && i + |name| <= n1 < b < end - 1 && end <= |s| &&
    s[n1] == '\n' && s[b] == '{' && s[end - 1] == '\n'
  }

  /** When the search matches at `i`, the macro pattern can match there as the search
      says. */
  lemma MacroMatchIsPattern(s: string, name: string, i: nat)
    requires OccursAt(s, name, i) && MacroMatchAt(s, name, i).Some?
    ensures exists n1: nat, b: nat :: MacroShape(s, name, i, n1, b, MacroMatchAt(s, name, i).value)
  {
    var n1 := FindFrom(s, "\n", i + |name|).value;
    var b := FindFrom(s, "{", n1 + 1).value;
    var n2 := FindFrom(s, "\n", b + 1).value;
    CharAt(s, '\n', n1);
    CharAt(s, '{', b);
    CharAt(s, '\n', n2);
    assert MacroShape(s, name, i, n1, b, n2 + 1);
  }

  /** Any reading of the macro pattern at `i` makes the search match, ending no later
      than that reading: the lazy `.*?` parts are shortest. */
  lemma MacroMatchIsShortest(s: string, name: string, i: nat, n1: nat, b: nat, end: nat)
    requires MacroShape(s, name, i, n1, b, end)
    ensures MacroMatchAt(s, name, i).Some? && MacroMatchAt(s, name, i).value <= end
  {
    CharAt(s, '\n', n1);
    CharAt(s, '{', b);
    CharAt(s, '\n', end - 1);
    var f1 := FindFrom(s, "\n", i + |name|);
    assert f1.Some? && f1.value <= n1;
    var f2 := FindFrom(s, "{", f1.value + 1);
    assert f2.Some? && f2.value <= b;
    var f3 := FindFrom(s, "\n", f2.value + 1);
    assert f3.Some? && f3.value <= end - 1;
  }

  /** The macro match found from its three stops: the first '\n' after the name at
      `n1`, the first '{' after that at `b`, and the first '\n' after that at `n2`. A '{'
      before `n1`, on the macro's own line, plays no part. */
  lemma MacroEndAt(s: string, name: string, i: nat, n1: nat, b: nat, n2: nat)
    requires OccursAt(s, name, i) && i + |name| <= n1 < b < n2 < |s|
    requires s[n1] == '\n' && '\n' !in s[i + |name|..n1]
    requires s[b] == '{' && '{' !in s[n1 + 1..b]
    requires s[n2] == '\n' && '\n' !in s[b + 1..n2]
    ensures MacroMatchAt(s, name, i) == Some(n2 + 1)
  {
    CharAt(s, '\n', n1);
    CharAt(s, '{', b);
    CharAt(s, '\n', n2);
    AbsentWithoutHead(s[i + |name|..n1], "\n");
    FindFirstAt(s, "\n", i + |name|, n1);
    AbsentWithoutHead(s[n1 + 1..b], "{");
    FindFirstAt(s, "{", n1 + 1, b);
    AbsentWithoutHead(s[b + 1..n2], "\n");
    FindFirstAt(s, "\n", b + 1, n2);
  }

  /** With the `{` on the macro's own line, the match runs on to the first later line
      holding a `{`, here the line of an `if (a) {`, so that `if` lies inside the match
      and the text after the match holds no `if` at all. */
  lemma MacroBraceOnOwnLine()
    ensures var s := BraceOnOwnLine;
            IfAt(s, 29) && MacroMatchAt(s, "SYSCALL_DEFINE3(f,", 0) == Some(40) &&
            FindIf(s[40..], 0) == None
  {
    BraceLineMatch();
    BraceLineIf();
    BraceLineRest();
  }

  /** A function whose `{` is on the macro's own line, with an `if (a) {` on its third
      line. */
  const BraceOnOwnLine := "SYSCALL_DEFINE3(f, int) {\n\tx;\n\tif (a) {\n\t\ty;\n"

  lemma BraceLineMatch()
    ensures MacroMatchAt(BraceOnOwnLine, "SYSCALL_DEFINE3(f,", 0) == Some(40)
  {
    var s := BraceOnOwnLine;
    assert s[..18] == "SYSCALL_DEFINE3(f,";
    MacroEndAt(s, "SYSCALL_DEFINE3(f,", 0, 25, 38, 39);
  }

  lemma BraceLineIf()
    ensures IfAt(BraceOnOwnLine, 29)
  {
    assert BraceOnOwnLine[31..33] == "if";
  }

  lemma BraceLineRest()
    ensures FindIf(BraceOnOwnLine[40..], 0) == None
  {
    assert BraceOnOwnLine[40..] == "\t\ty;\n";
    assert !IfAt("\t\ty;\n", 4);
  }

  // ---- the plain form: escape(name) + `\s*\([^)]*\)\s*\{.*?\n`, DOTALL ----

  /** The end of the match at `i`: whitespace, '(', everything up to the first ')',
      whitespace, '{', then up to and including the first '\n'. */
  function RegularMatchAt(s: string, name: string, i: nat): (r: Option<nat>)
    requires OccursAt(s, name, i)
    ensures r.Some? ==> i + |name| < r.value <= |s|
  {
    var q := SkipSpace(s, i + |name|);
    if q == |s| || s[q] != '(' then None
    else match FindFrom(s, ")", q + 1)
      case None => None
      case Some(r) =>
        var t := SkipSpace(s, r + 1);
        if t == |s| || s[t] != '{' then None
        else match FindFrom(s, "\n", t + 1)
          case None => None
          case Some(n) => Some(n + 1)
  }

  /** One way the plain pattern can match at `i`: '(' at `q`, ')' at `r`, '{' at `t`, and
      the match ends just after a '\n' at `end - 1`. */
  ghost predicate RegularShape(s: string, name: string, i: nat, q: nat, r: nat, t: nat, end: nat)
  {
    OccursAt(s, name, i) && i + |name| <= q < r < t < end - 1 && end <= |s| &&
    (forall k :: i + |name| <= k < q ==> IsSpace(s[k])) && s[q] == '(' &&
    (forall k :: q < k < r ==> s[k] != ')') && s[r] == ')' &&
    (forall k :: r < k < t ==> IsSpace(s[k])) && s[t] == '{' && s[end - 1] == '\n'
  }

  /** When the search matches at `i`, the pattern can match there as the search says. */
  lemma RegularMatchIsPattern(s: string, name: string, i: nat)
    requires OccursAt(s, name, i) && RegularMatchAt(s, name, i).Some?
    ensures exists q: nat, r: nat, t: nat :: RegularShape(s, name, i, q, r, t, RegularMatchAt(s, name, i).value)
  {
    var q := SkipSpace(s, i + |name|);
    var r := FindFrom(s, ")", q + 1).value;
    var t := SkipSpace(s, r + 1);
    var n := FindFrom(s, "\n", t + 1).value;
    CharAt(s, ')', r);
    CharAt(s, '\n', n);
    forall k | q < k < r ensures s[k] != ')' {
      CharAt(s, ')', k);
    }
    assert RegularShape(s, name, i, q, r, t, n + 1);
  }

  /** The greedy parts leave no choice: any way the plain pattern can match at `i` puts
      '(', ')' and '{' where the search does, and the search's match is the shortest. */
  lemma RegularMatchIsForced(s: string, name: string, i: nat, q: nat, r: nat, t: nat, end: nat)
    requires RegularShape(s, name, i, q, r, t, end)
    ensures q == SkipSpace(s, i + |name|) && FindFrom(s, ")", q + 1) == Some(r) && t == SkipSpace(s, r + 1)
  {
    assert q == SkipSpace(s, i + |name|);
    CharAt(s, ')', r);
    var fr := FindFrom(s, ")", q + 1);
    assert fr.Some? && fr.value <= r;
    CharAt(s, ')', fr.value);
    assert fr == Some(r);
    assert t == SkipSpace(s, r + 1);
  }

  /** Any such reading makes the pattern match, ending no later than that reading. */
  lemma RegularMatchIsShortest(s: string, name: string, i: nat, q: nat, r: nat, t: nat, end: nat)
    requires RegularShape(s, name, i, q, r, t, end)
    ensures RegularMatchAt(s, name, i).Some? && RegularMatchAt(s, name, i).value <= end
  {
    RegularMatchIsForced(s, name, i, q, r, t, end);
    CharAt(s, '\n', end - 1);
    var fn := FindFrom(s, "\n", t + 1);
    assert fn.Some? && fn.value <= end - 1;
  }

  /** The pattern for a candidate name: the macro form for `SYSCALL_DEFINE...` names,
      the plain form otherwise. */
  function MatchAt(s: string, name: string, i: nat): (r: Option<nat>)
    requires OccursAt(s, name, i)
    ensures r.Some? ==> i + |name| < r.value <= |s|
  {
    if StartsWith(name, MacroPrefix) then MacroMatchAt(s, name, i) else RegularMatchAt(s, name, i)
  }

  datatype Span = Span(start: nat, end: nat)

  /** `re.search`: the leftmost start at or after `from` where the name occurs and the
      pattern matches, with the end of that match. */
  function SearchFrom(s: string, name: string, from: nat): (r: Option<Span>)
    ensures r.Some? ==> (from <= r.value.start && OccursAt(s, name, r.value.start) &&
                         MatchAt(s, name, r.value.start) == Some(r.value.end))
    ensures r.Some? ==> forall j :: from <= j < r.value.start && OccursAt(s, name, j) ==> MatchAt(s, name, j).None?
    ensures r.None? ==> forall j :: from <= j && OccursAt(s, name, j) ==> MatchAt(s, name, j).None?
    decreases |s| - from
  {
    if from > |s| then None
    else if !OccursAt(s, name, from) then SearchFrom(s, name, from + 1)
    else match MatchAt(s, name, from)
      case Some(e) => Some(Span(from, e))
      case None => SearchFrom(s, name, from + 1)
  }

  function Search(s: string, name: string): Option<Span>
  {
    SearchFrom(s, name, 0)
  }

  // ---- the first `if`: `\n\s*if\s*\(` ----

  /** The `if` pattern matches at `j`: a '\n', whitespace, `if`, whitespace, '('. */
  predicate IfAt(s: string, j: nat)
  {
    j < |s| && s[j] == '\n' &&
    var k := SkipSpace(s, j + 1);
    OccursAt(s, "if", k) &&
    var m := SkipSpace(s, k + 2);
    m < |s| && s[m] == '('
  }

  /** One way the `if` pattern can match at `j`, with `if` at `k` and '(' at `m`. */
  ghost predicate IfShape(s: string, j: nat, k: nat, m: nat)
  {
    j < k && k + 2 <= m < |s| && s[j] == '\n' &&
    (forall x :: j < x < k ==> IsSpace(s[x])) && s[k..k + 2] == "if" &&
    (forall x :: k + 2 <= x < m ==> IsSpace(s[x])) && s[m] == '('
  }

  /** `IfAt` is the `if` pattern: it holds exactly where some split of the text fits it. */
  lemma IfAtIsPattern(s: string, j: nat)
    ensures IfAt(s, j) <==> exists k: nat, m: nat :: IfShape(s, j, k, m)
  {
    if IfAt(s, j) {
      var k := SkipSpace(s, j + 1);
      var m := SkipSpace(s, k + 2);
      assert IfShape(s, j, k, m);
    }
    forall k: nat, m: nat | IfShape(s, j, k, m) ensures IfAt(s, j) {
      assert s[k] == s[k..k + 2][0];
      assert SkipSpace(s, j + 1) == k;
      assert SkipSpace(s, k + 2) == m;
    }
  }

  /** The leftmost place at or after `from` where the `if` pattern matches. */
  function FindIf(s: string, from: nat): (r: Option<nat>)
    ensures r.Some? ==> from <= r.value && IfAt(s, r.value)
    ensures r.Some? ==> forall j :: from <= j < r.value ==> !IfAt(s, j)
    ensures r.None? ==> forall j :: from <= j ==> !IfAt(s, j)
    decreases |s| - from
  {
    if from >= |s| then None
    else if IfAt(s, from) then Some(from)
    else FindIf(s, from + 1)
  }

  /** Text before the first '\n' is passed over: the pattern begins with a '\n', so no
      match starts inside `line`, and an `if` that opens `line` is not found. */
  lemma {:induction false} FindIfSkipsLine(line: string, rest: string, from: nat)
    requires '\n' !in line && from <= |line|
    ensures FindIf(line + rest, from) == FindIf(line + rest, |line|)
    ensures FindIf(line + rest, from).Some? ==> FindIf(line + rest, from).value >= |line|
    decreases |line| - from
  {
    if from < |line| {
      assert (line + rest)[from] == line[from];
      assert !IfAt(line + rest, from);
      FindIfSkipsLine(line, rest, from + 1);
    }
  }

  // ---- trying the candidates in order ----

  /** The candidate that matched, by its position in the list, and where its match ends. */
  datatype Hit = Hit(index: nat, end: nat)

  /** The first candidate at or after position `k` whose pattern matches. */
  function FirstMatchFrom(s: string, candidates: seq<string>, k: nat): (r: Option<Hit>)
    ensures r.Some? ==> (k <= r.value.index < |candidates| && Search(s, candidates[r.value.index]).Some? &&
                         Search(s, candidates[r.value.index]).value.end == r.value.end)
    ensures r.Some? ==> forall j :: k <= j < r.value.index ==> Search(s, candidates[j]).None?
    ensures r.None? ==> forall j :: k <= j < |candidates| ==> Search(s, candidates[j]).None?
    decreases |candidates| - k
  {
    if k >= |candidates| then None
    else match Search(s, candidates[k])
      case Some(m) => Some(Hit(k, m.end))
      case None => FirstMatchFrom(s, candidates, k + 1)
  }

  function FirstMatch(s: string, candidates: seq<string>): Option<Hit>
  {
    FirstMatchFrom(s, candidates, 0)
  }

  /** The candidate loop of `add_ksu_calls` (lines 104-116): the candidates are tried in
      order and the loop stops at the first whose pattern matches. */
  method FindFunction(content: string, candidates: seq<string>) returns (r: Option<Hit>)
    ensures r.Some? ==> (r.value.index < |candidates| && Search(content, candidates[r.value.index]).Some? &&
                         Search(content, candidates[r.value.index]).value.end == r.value.end)
    ensures r.Some? ==> forall j :: 0 <= j < r.value.index ==> Search(content, candidates[j]).None?
    ensures r.None? ==> forall j :: 0 <= j < |candidates| ==> Search(content, candidates[j]).None?
    ensures r == FirstMatch(content, candidates)
  {
    r := None;
    var i := 0;
    while i < |candidates|
      invariant 0 <= i <= |candidates|
      invariant r.None?
      invariant forall j :: 0 <= j < i ==> Search(content, candidates[j]).None?
      invariant FirstMatch(content, candidates) == FirstMatchFrom(content, candidates, i)
    {
      var m := Search(content, candidates[i]);
      if m.Some? {
        r := Some(Hit(i, m.value.end));
        break;
      }
      i := i + 1;
    }
  }
}
