/** Text primitives the integration script gets from Python's `str` methods and from
    the few regular expressions it uses: substring search, whitespace skipping, the
    line view that `^` / `$` in MULTILINE mode work on, and `str.replace`. */
module Text {

  datatype Option<T> = None | Some(value: T)

  /** `pat` occurs in `s` starting at index `i`. */
  predicate OccursAt(s: string, pat: string, i: int)
  {
    0 <= i && i + |pat| <= |s| && s[i..i + |pat|] == pat
  }

  /** `pat` occurs nowhere in `s`. */
  ghost predicate Absent(s: string, pat: string)
  {
    forall i :: !OccursAt(s, pat, i)
  }

  predicate StartsWith(s: string, prefix: string)
  {
    |prefix| <= |s| && s[..|prefix|] == prefix
  }

  predicate EndsWith(s: string, suffix: string)
  {
    |suffix| <= |s| && s[|s| - |suffix|..] == suffix
  }

  /** Python's `s.find(pat, from)`: the leftmost occurrence of `pat` at or after `from`. */
  function FindFrom(s: string, pat: string, from: nat): (r: Option<nat>)
    ensures r.Some? ==> from <= r.value && OccursAt(s, pat, r.value)
    ensures r.Some? ==> forall j :: from <= j < r.value ==> !OccursAt(s, pat, j)
    ensures r.None? ==> forall j :: from <= j ==> !OccursAt(s, pat, j)
    decreases |s| - from
  {
    if from + |pat| > |s| then None
    else if s[from..from + |pat|] == pat then Some(from)
    else FindFrom(s, pat, from + 1)
  }

  /** The last occurrence of `pat` starting at or before `k`. */
  function RFindAtMost(s: string, pat: string, k: nat): (r: Option<nat>)
    requires k + |pat| <= |s|
    ensures r.Some? ==> r.value <= k && OccursAt(s, pat, r.value)
    ensures r.Some? ==> forall j :: r.value < j <= k ==> !OccursAt(s, pat, j)
    ensures r.None? ==> forall j :: j <= k ==> !OccursAt(s, pat, j)
  {
    if s[k..k + |pat|] == pat then Some(k)
    else if k == 0 then None
    else RFindAtMost(s, pat, k - 1)
  }

  /** Python's `s.rfind(pat)`: the rightmost occurrence of `pat`. */
  function RFind(s: string, pat: string): (r: Option<nat>)
    ensures r.Some? ==> OccursAt(s, pat, r.value)
    ensures r.Some? ==> forall j :: r.value < j ==> !OccursAt(s, pat, j)
    ensures r.None? ==> Absent(s, pat)
  {
    if |pat| > |s| then None else RFindAtMost(s, pat, |s| - |pat|)
  }

  /** ASCII whitespace, the characters `\s` stands for in the model. */
  predicate IsSpace(c: char)
  {
    c == ' ' || c == '\t' || c == '\n' || c == '\r' || c == '\U{0B}' || c == '\U{0C}'
  }

  /** The end of the run of whitespace starting at `i`: what a greedy `\s*` consumes. */
  function SkipSpace(s: string, i: nat): (j: nat)
    requires i <= |s|
    ensures i <= j <= |s|
    ensures forall k :: i <= k < j ==> IsSpace(s[k])
    ensures j == |s| || !IsSpace(s[j])
    decreases |s| - i
  {
    if i < |s| && IsSpace(s[i]) then SkipSpace(s, i + 1) else i
  }

  /** Lines joined back with a '\n' between neighbours. */
  function Unlines(ls: seq<string>): string
    requires |ls| >= 1
    decreases |ls|
  {
    if |ls| == 1 then ls[0] else ls[0] + "\n" + Unlines(ls[1..])
  }

  predicate NoNewlines(ls: seq<string>)
  {
    forall k :: 0 <= k < |ls| ==> '\n' !in ls[k]
  }

  /** The text split at every '\n' (Python's `s.split('\n')`): the lines that `^` and `$`
      delimit in MULTILINE mode; `UnlinesOfLines` shows that joining them back gives the
      text again. */
  function Lines(s: string): (ls: seq<string>)
    ensures |ls| >= 1
    ensures NoNewlines(ls)
  {
    if s == [] then [""]
    else
      var rest := Lines(s[1..]);
      if s[0] == '\n' then [""] + rest
      else [[s[0]] + rest[0]] + rest[1..]
  }

  /** Joining the lines gives the text again. */
  lemma {:induction false} UnlinesOfLines(s: string)
    ensures Unlines(Lines(s)) == s
  {
    if s != [] {
      var c, t := s[0], s[1..];
      assert s == [c] + t;
      UnlinesOfLines(t);
      if c == '\n' {
        NewlineStep(t, s);
        assert ([""] + Lines(t))[1..] == Lines(t);
      } else {
        CharStep(c, t, s);
        UnlinesFirst([c], Lines(t));
      }
    }
  }

  /** Prefixing the first line prefixes the join. */
  lemma UnlinesFirst(p: string, ls: seq<string>)
    requires |ls| >= 1
    ensures Unlines([p + ls[0]] + ls[1..]) == p + Unlines(ls)
  {
    if |ls| > 1 {
      var u := Unlines(ls[1..]);
      UnlinesCons(p + ls[0], ls[1..]);
      UnlinesCons(ls[0], ls[1..]);
      assert [ls[0]] + ls[1..] == ls;
      Assoc(p, ls[0], "\n");
      Assoc(p, ls[0] + "\n", u);
    }
  }

  lemma Assoc(a: string, b: string, c: string)
    ensures (a + b) + c == a + (b + c)
  {
  }

  lemma UnlinesCons(h: string, rest: seq<string>)
    requires |rest| >= 1
    ensures Unlines([h] + rest) == h + "\n" + Unlines(rest)
  {
    assert ([h] + rest)[1..] == rest;
  }

  lemma {:induction false} LinesOfLine(a: string)
    requires '\n' !in a
    ensures Lines(a) == [a]
  {
    if a != [] {
      assert '\n' !in a[1..] by {
        forall c | c in a[1..] ensures c != '\n' { assert c in a; }
      }
      LinesOfLine(a[1..]);
      assert [a[0]] + a[1..] == a;
    }
  }

  /** A '\n' splits the line view: the lines of `a + "\n" + b` are those of `a` followed
      by those of `b`. */
  lemma {:induction false} LinesConcat(a: string, b: string)
    ensures Lines(a + "\n" + b) == Lines(a) + Lines(b)
  {
    if a == [] {
      assert a + "\n" + b == ['\n'] + b;
      NewlineStep(b, a + "\n" + b);
    } else {
      LinesConcat(a[1..], b);
      LinesConcatStep(a[0], a[1..], b, a);
    }
  }

  /** The step of `LinesConcat`: putting one character in front of `a` keeps the
      equation. */
  lemma LinesConcatStep(c: char, a': string, b: string, a: string)
    requires a == [c] + a' && Lines(a' + "\n" + b) == Lines(a') + Lines(b)
    ensures Lines(a + "\n" + b) == Lines(a) + Lines(b)
  {
    var s := a + "\n" + b;
    assert s == [c] + (a' + "\n" + b);
    if c == '\n' {
      NewlineStep(a' + "\n" + b, s);
      NewlineStep(a', a);
    } else {
      CharStep(c, a' + "\n" + b, s);
      CharStep(c, a', a);
      JoinFirst([c], Lines(a'), Lines(b));
    }
  }

  lemma NewlineStep(t: string, s: string)
    requires s == "\n" + t
    ensures Lines(s) == [""] + Lines(t)
  {
    assert s[1..] == t;
  }

  lemma CharStep(c: char, t: string, s: string)
    requires c != '\n' && s == [c] + t
    ensures Lines(s) == [[c] + Lines(t)[0]] + Lines(t)[1..]
  {
    assert s[1..] == t;
  }

  /** Prefixing the first of a list of lines, then appending more lines. */
  lemma JoinFirst(p: string, la: seq<string>, lb: seq<string>)
    requires |la| >= 1
    ensures [p + (la + lb)[0]] + (la + lb)[1..] == ([p + la[0]] + la[1..]) + lb
  {
    assert (la + lb)[1..] == la[1..] + lb;
  }

  /** Splitting undoes joining, for lines that hold no '\n'. */
  lemma {:induction false} LinesOfUnlines(ls: seq<string>)
    requires |ls| >= 1 && NoNewlines(ls)
    ensures Lines(Unlines(ls)) == ls
  {
    LinesOfLine(ls[0]);
    if |ls| > 1 {
      LinesOfUnlines(ls[1..]);
      LinesConcat(ls[0], Unlines(ls[1..]));
      assert [ls[0]] + ls[1..] == ls;
    }
  }

  /** Python's `s.replace(pat, rep)`: every non-overlapping occurrence, left to right. */
  function ReplaceAll(s: string, pat: string, rep: string): string
    requires |pat| > 0
    decreases |s|
  {
    if |s| < |pat| then s
    else if s[..|pat|] == pat then rep + ReplaceAll(s[|pat|..], pat, rep)
    else [s[0]] + ReplaceAll(s[1..], pat, rep)
  }

  /** Text that holds no occurrence of the pattern is left as it is. */
  lemma {:induction false} ReplaceAllAbsent(s: string, pat: string, rep: string)
    requires |pat| > 0 && Absent(s, pat)
    ensures ReplaceAll(s, pat, rep) == s
  {
    if |s| >= |pat| {
      assert !OccursAt(s, pat, 0);
      AbsentSlice(s, pat, 1, |s|);
      assert s[1..|s|] == s[1..];
      ReplaceAllAbsent(s[1..], pat, rep);
      assert s == [s[0]] + s[1..];
    }
  }

  /** A prefix in which no occurrence starts is copied unchanged, and replacing goes on
      after it. `s` is `pre + rest`. */
  lemma {:induction false} ReplaceAllSkip(pre: string, rest: string, pat: string, rep: string)
    requires |pat| > 0
    requires forall i :: 0 <= i < |pre| ==> !OccursAt(pre + rest, pat, i)
    ensures ReplaceAll(pre + rest, pat, rep) == pre + ReplaceAll(rest, pat, rep)
  {
    if pre != [] {
      var s := pre + rest;
      assert !OccursAt(s, pat, 0);
      assert s[1..] == pre[1..] + rest;
      forall i | 0 <= i < |pre[1..]| ensures !OccursAt(pre[1..] + rest, pat, i) {
        assert !OccursAt(s, pat, i + 1);
        OccursInSlice(s, pat, 1, |s|, i);
        assert s[1..|s|] == pre[1..] + rest;
      }
      ReplaceAllSkip(pre[1..], rest, pat, rep);
      assert pre == [pre[0]] + pre[1..];
      if |s| < |pat| {
        assert ReplaceAll(rest, pat, rep) == rest;
        assert ReplaceAll(s, pat, rep) == s;
      } else {
        assert s[..|pat|] != pat by { assert s[..|pat|] == s[0..|pat|]; }
        calc {
          ReplaceAll(s, pat, rep);
          [s[0]] + ReplaceAll(s[1..], pat, rep);
          [pre[0]] + (pre[1..] + ReplaceAll(rest, pat, rep));
          pre + ReplaceAll(rest, pat, rep);
        }
      }
    } else {
      assert pre + rest == rest;
    }
  }

  /** An occurrence at the front is replaced. */
  lemma ReplaceAllHere(rest: string, pat: string, rep: string)
    requires |pat| > 0
    ensures ReplaceAll(pat + rest, pat, rep) == rep + ReplaceAll(rest, pat, rep)
  {
    assert (pat + rest)[..|pat|] == pat;
    assert (pat + rest)[|pat|..] == rest;
  }

  /** A prefix without the pattern's first character is copied unchanged. */
  lemma ReplaceAllNoHead(pre: string, rest: string, pat: string, rep: string)
    requires |pat| > 0 && pat[0] !in pre
    ensures ReplaceAll(pre + rest, pat, rep) == pre + ReplaceAll(rest, pat, rep)
  {
    forall i | 0 <= i < |pre| ensures !OccursAt(pre + rest, pat, i) {
      assert (pre + rest)[i] == pre[i];
    }
    ReplaceAllSkip(pre, rest, pat, rep);
  }

  /** A prefix that starts differently from the pattern and holds its first character
      nowhere else is copied unchanged. */
  lemma ReplaceAllMismatch(pre: string, rest: string, pat: string, rep: string)
    requires |pat| > 0 && |pre| >= |pat| && pre[..|pat|] != pat && pat[0] !in pre[1..]
    ensures ReplaceAll(pre + rest, pat, rep) == pre + ReplaceAll(rest, pat, rep)
  {
    var s := pre + rest;
    forall i | 0 <= i < |pre| ensures !OccursAt(s, pat, i) {
      if i == 0 {
        assert s[..|pat|] == pre[..|pat|];
      } else {
        assert s[i] == pre[1..][i - 1];
      }
    }
    ReplaceAllSkip(pre, rest, pat, rep);
  }

  // ---- facts about where a pattern cannot occur ----

  /** The middle and the tail of a three-part join. */
  lemma SliceOfJoin(a: string, x: string, b: string)
    ensures (a + x + b)[|a|..|a| + |x|] == x
    ensures (a + x + b)[|a| + |x|..] == b
  {
  }

  /** Cutting a join inside its middle part. */
  lemma CutInMiddle(a: string, x: string, b: string, k: nat)
    requires k <= |x|
    ensures (a + x + b)[..|a| + k] == a + x[..k]
    ensures (a + x + b)[|a| + k..] == x[k..] + b
  {
  }

  /** No occurrence of `pat` starts inside a stretch of `s` that lacks `pat`'s first
      character. */
  lemma NoStartIn(s: string, pat: string, lo: nat, hi: nat, x: string)
    requires lo <= hi <= |s| && s[lo..hi] == x && |pat| > 0 && pat[0] !in x
    ensures forall j :: lo <= j < hi ==> !OccursAt(s, pat, j)
  {
    forall j | lo <= j < hi ensures !OccursAt(s, pat, j) {
      assert s[j] == x[j - lo];
      if j + |pat| <= |s| {
        assert s[j..j + |pat|][0] == s[j];
      }
    }
  }

  /** A text without `pat`'s first character is without `pat`. */
  lemma AbsentWithoutHead(s: string, pat: string)
    requires |pat| > 0 && pat[0] !in s
    ensures Absent(s, pat)
  {
    NoStartIn(s, pat, 0, |s|, s);
  }

  /** An occurrence stays one when text is put around it. */
  lemma OccursLift(pre: string, x: string, post: string, pat: string, p: int)
    requires OccursAt(x, pat, p)
    ensures OccursAt(pre + x + post, pat, |pre| + p)
  {
    var t := pre + x + post;
    assert t[|pre| + p..|pre| + p + |pat|] == x[p..p + |pat|];
  }

  /** A text that starts with something lacking `pat`'s first character, followed by
      a text without `pat`, is without `pat`. */
  lemma AbsentAfterNoHead(a: string, b: string, pat: string)
    requires |pat| > 0 && pat[0] !in a && Absent(b, pat)
    ensures Absent(a + b, pat)
  {
    var s := a + b;
    assert s[0..|a|] == a;
    NoStartIn(s, pat, 0, |a|, a);
    assert s[|a|..|s|] == b;
    forall j | |a| <= j ensures !OccursAt(s, pat, j) {
      OccursInSlice(s, pat, |a|, |s|, j - |a|);
    }
  }

  /** `pat`'s first character does not reappear in it, so two occurrences never overlap. */
  predicate HeadUnique(pat: string)
  {
    |pat| > 0 && pat[0] !in pat[1..]
  }

  /** After an occurrence of a head-unique `pat` followed by a text without `pat`, no
      occurrence starts. */
  lemma NoLaterAfterHead(x: string, pat: string, y: string)
    requires HeadUnique(pat) && Absent(y, pat)
    ensures forall j :: |x| < j ==> !OccursAt(x + pat + y, pat, j)
  {
    var s := x + pat + y;
    SliceOfJoin(x, pat, y);
    assert s[|x| + 1..|x| + |pat|] == pat[1..];
    NoStartIn(s, pat, |x| + 1, |x| + |pat|, pat[1..]);
    assert s[|x| + |pat|..|s|] == y;
    forall j | |x| + |pat| <= j ensures !OccursAt(s, pat, j) {
      OccursInSlice(s, pat, |x| + |pat|, |s|, j - (|x| + |pat|));
    }
  }

  /** An occurrence inside a slice is an occurrence in the whole, shifted; for one that
      fits inside the slice the converse holds too. */
  lemma OccursInSlice(s: string, pat: string, i: nat, j: nat, k: int)
    requires i <= j <= |s|
    ensures OccursAt(s[i..j], pat, k) ==> OccursAt(s, pat, i + k)
    ensures 0 <= k && k + |pat| <= j - i ==> (OccursAt(s[i..j], pat, k) <==> OccursAt(s, pat, i + k))
  {
    if 0 <= k && k + |pat| <= j - i {
      var inner, outer := s[i..j][k..k + |pat|], s[i + k..i + k + |pat|];
      forall t | 0 <= t < |pat| ensures inner[t] == outer[t] {
        assert inner[t] == s[i + k + t];
      }
      assert inner == outer;
    }
  }

  lemma AbsentSlice(s: string, pat: string, i: nat, j: nat)
    requires i <= j <= |s| && Absent(s, pat)
    ensures Absent(s[i..j], pat)
  {
    forall k ensures !OccursAt(s[i..j], pat, k) {
      OccursInSlice(s, pat, i, j, k);
    }
  }

  /** A pattern without '\n' cannot straddle a '\n'. */
  lemma AbsentJoin(x: string, y: string, pat: string)
    requires Absent(x, pat) && Absent(y, pat) && '\n' !in pat
    ensures Absent(x + "\n" + y, pat)
  {
    var s := x + "\n" + y;
    forall k | 0 <= k && k + |pat| <= |s| ensures !OccursAt(s, pat, k) {
      if k + |pat| <= |x| {
        assert s[k..k + |pat|] == x[k..k + |pat|];
        assert !OccursAt(x, pat, k);
      } else if k > |x| {
        assert s[k..k + |pat|] == y[k - |x| - 1..k - |x| - 1 + |pat|];
        assert !OccursAt(y, pat, k - |x| - 1);
      } else {
        assert s[k..k + |pat|][|x| - k] == '\n';
        assert pat[|x| - k] in pat;
      }
    }
  }

  /** With its first character unique, the first occurrence of `pat` at or after `from`
      is the one at `at` as soon as none starts inside `s[from..at]`. */
  lemma FindFirstAt(s: string, pat: string, from: nat, at: nat)
    requires HeadUnique(pat) && from <= at && OccursAt(s, pat, at)
    requires Absent(s[from..at], pat)
    ensures FindFrom(s, pat, from) == Some(at)
  {
    forall p | from <= p < at ensures !OccursAt(s, pat, p) {
      if p + |pat| <= at {
        OccursInSlice(s, pat, from, at, p - from);
        assert !OccursAt(s[from..at], pat, p - from);
      } else if p + |pat| <= |s| {
        assert s[at..at + |pat|] == pat;
        assert s[p..p + |pat|][at - p] == pat[0];
        assert pat[at - p] == pat[1..][at - p - 1];
        assert pat[at - p] != pat[0];
      }
    }
    var r := FindFrom(s, pat, from);
    assert r.Some? by { assert !(from <= at ==> !OccursAt(s, pat, at)); }
    assert r.value >= at;
    assert r.value <= at by {
      assert !(from <= at < r.value ==> !OccursAt(s, pat, at)) || r.value <= at;
    }
  }
}
