/** The fragment of Python's `re` that the results-integration pattern uses:
    literal characters, greedy `*` over a character class, and a capturing
    group `([^"]*)`. `MatchAt` is the backtracking matcher, trying the
    longest run first as `re` does; `Search` is `re.search`, the leftmost
    start at which `MatchAt` succeeds. `Accepts` is the declarative meaning
    of a pattern, against which the matcher is proved sound and complete. */
module Regex {
  import opened Wrappers
  import opened Text

  /** `[^{}]`, `[^"]` and `\s`. */
  datatype Class = NotBrace | NotQuote | Space

  predicate InClass(cl: Class, c: char)
  {
    match cl
    case NotBrace => c != '{' && c != '}'
    case NotQuote => c != '"'
    case Space => IsSpace(c)
  }

  predicate AllIn(cl: Class, t: string)
  {
    forall k :: 0 <= k < |t| ==> InClass(cl, t[k])
  }

  /** A literal character, `[...]*`, or a capturing group `([...]*)`. */
  datatype Elem = Lit(c: char) | Star(cl: Class) | Group(cl: Class)

  /** Where a match at some start ends, and the captured groups in order. */
  datatype Match = Match(end: nat, groups: seq<string>)

  /** The longest run of `cl` characters starting at `i`. */
  function RunLength(cl: Class, s: string, i: nat): (n: nat)
    requires i <= |s|
    ensures i + n <= |s|
    ensures AllIn(cl, s[i..i + n])
    ensures i + n < |s| ==> !InClass(cl, s[i + n])
    decreases |s| - i
  {
    if i < |s| && InClass(cl, s[i]) then
      var n := RunLength(cl, s, i + 1);
      assert s[i..i + 1 + n] == [s[i]] + s[i + 1..i + 1 + n];
      1 + n
    else 0
  }

  /** A run of class characters is never longer than the longest run. */
  lemma RunAtMostLongest(cl: Class, s: string, i: nat, k: nat)
    requires i <= k <= |s| && AllIn(cl, s[i..k])
    ensures k - i <= RunLength(cl, s, i)
  {
    assert forall m :: i <= m < k ==> s[m] == s[i..k][m - i];
  }

  /** The backtracking matcher at position `i`. */
  function MatchAt(p: seq<Elem>, s: string, i: nat): (r: Option<Match>)
    requires i <= |s|
    ensures r.Some? ==> i <= r.value.end <= |s|
    decreases |p|, 1, 0
  {
    if p == [] then Some(Match(i, []))
    else match p[0]
      case Lit(c) => if i < |s| && s[i] == c then MatchAt(p[1..], s, i + 1) else None
      case Star(cl) => TryRuns(p, s, i, RunLength(cl, s, i))
      case Group(cl) => TryRuns(p, s, i, RunLength(cl, s, i))
  }

  /** Greedy backtracking: the rest of the pattern after a run of length
      `k`, then `k - 1`, down to 0. */
  function TryRuns(p: seq<Elem>, s: string, i: nat, k: nat): (r: Option<Match>)
    requires p != [] && !p[0].Lit? && i + k <= |s|
    ensures r.Some? ==> i <= r.value.end <= |s|
    decreases |p|, 0, k
  {
    match MatchAt(p[1..], s, i + k)
    case Some(m) => Some(if p[0].Group? then Match(m.end, [s[i..i + k]] + m.groups) else m)
    case None => if k == 0 then None else TryRuns(p, s, i, k - 1)
  }

  /** `p` matches `s[i..j]` capturing `g`. */
  predicate Accepts(p: seq<Elem>, s: string, i: nat, j: nat, g: seq<string>)
    decreases |p|
  {
    if p == [] then i == j && g == []
    else match p[0]
      case Lit(c) => i < |s| && s[i] == c && Accepts(p[1..], s, i + 1, j, g)
      case Star(cl) =>
        exists k :: i <= k <= |s| && AllIn(cl, s[i..k]) && Accepts(p[1..], s, k, j, g)
      case Group(cl) =>
        |g| > 0 && exists k :: i <= k <= |s| && AllIn(cl, s[i..k]) && g[0] == s[i..k] && Accepts(p[1..], s, k, j, g[1..])
  }

  lemma MatchSound(p: seq<Elem>, s: string, i: nat)
    requires i <= |s|
    ensures MatchAt(p, s, i).Some? ==> Accepts(p, s, i, MatchAt(p, s, i).value.end, MatchAt(p, s, i).value.groups)
    decreases |p|, 1, 0
  {
    if p != [] {
      match p[0]
      case Lit(c) =>
        if i < |s| && s[i] == c {
          MatchSound(p[1..], s, i + 1);
        }
      case Star(cl) => TryRunsSound(p, s, i, RunLength(cl, s, i));
      case Group(cl) => TryRunsSound(p, s, i, RunLength(cl, s, i));
    }
  }

  lemma TryRunsSound(p: seq<Elem>, s: string, i: nat, k: nat)
    requires p != [] && !p[0].Lit? && i + k <= |s| && AllIn(p[0].cl, s[i..i + k])
    ensures TryRuns(p, s, i, k).Some? ==> Accepts(p, s, i, TryRuns(p, s, i, k).value.end, TryRuns(p, s, i, k).value.groups)
    decreases |p|, 0, k
  {
    MatchSound(p[1..], s, i + k);
    match MatchAt(p[1..], s, i + k)
    case Some(m) =>
      if p[0].Group? {
        var g := [s[i..i + k]] + m.groups;
        assert g[1..] == m.groups;
      }
    case None =>
      if k > 0 {
        assert s[i..i + (k - 1)] == s[i..i + k][..k - 1];
        TryRunsSound(p, s, i, k - 1);
      }
  }

  lemma MatchComplete(p: seq<Elem>, s: string, i: nat, j: nat, g: seq<string>)
    requires i <= |s| && Accepts(p, s, i, j, g)
    ensures MatchAt(p, s, i).Some?
    decreases |p|, 1, 0
  {
    if p != [] {
      match p[0]
      case Lit(c) => MatchComplete(p[1..], s, i + 1, j, g);
      case Star(cl) =>
        var k :| i <= k <= |s| && AllIn(cl, s[i..k]) && Accepts(p[1..], s, k, j, g);
        RunAtMostLongest(cl, s, i, k);
        MatchComplete(p[1..], s, k, j, g);
        TryRunsComplete(p, s, i, RunLength(cl, s, i), k - i);
      case Group(cl) =>
        var k :| i <= k <= |s| && AllIn(cl, s[i..k]) && g[0] == s[i..k] && Accepts(p[1..], s, k, j, g[1..]);
        RunAtMostLongest(cl, s, i, k);
        MatchComplete(p[1..], s, k, j, g[1..]);
        TryRunsComplete(p, s, i, RunLength(cl, s, i), k - i);
    }
  }

  /** Backtracking from run length `k` reaches any shorter run `k0` after
      which the rest matches. */
  lemma TryRunsComplete(p: seq<Elem>, s: string, i: nat, k: nat, k0: nat)
    requires p != [] && !p[0].Lit? && i + k <= |s| && k0 <= k
    requires MatchAt(p[1..], s, i + k0).Some?
    ensures TryRuns(p, s, i, k).Some?
    decreases |p|, 0, k
  {
    if k > k0 && MatchAt(p[1..], s, i + k).None? {
      TryRunsComplete(p, s, i, k - 1, k0);
    }
  }

  datatype Found = Found(start: nat, m: Match)

  function SearchFrom(p: seq<Elem>, s: string, i: nat): (r: Option<Found>)
    requires i <= |s|
    ensures r.Some? ==> i <= r.value.start <= |s| && MatchAt(p, s, r.value.start) == Some(r.value.m)
    decreases |s| - i
  {
    match MatchAt(p, s, i)
    case Some(m) => Some(Found(i, m))
    case None => if i == |s| then None else SearchFrom(p, s, i + 1)
  }

  /** `re.search(p, s)` */
  function Search(p: seq<Elem>, s: string): Option<Found>
  {
    SearchFrom(p, s, 0)
  }

  lemma {:induction false} SearchFromFirst(p: seq<Elem>, s: string, i: nat)
    requires i <= |s|
    ensures match SearchFrom(p, s, i)
            case Some(f) => forall k :: i <= k < f.start ==> MatchAt(p, s, k).None?
            case None => forall k :: i <= k <= |s| ==> MatchAt(p, s, k).None?
    decreases |s| - i
  {
    if MatchAt(p, s, i).None? && i < |s| {
      SearchFromFirst(p, s, i + 1);
    }
  }

  /** `re.search` finds a match exactly when the pattern accepts some part of
      the text; it then reports the leftmost start, with the groups of the
      match the backtracking order selects there, and they satisfy the
      pattern. */
  lemma SearchSpec(p: seq<Elem>, s: string)
    ensures match Search(p, s)
            case Some(f) =>
              f.start <= f.m.end <= |s| && Accepts(p, s, f.start, f.m.end, f.m.groups)
              && forall k, j, g :: 0 <= k < f.start ==> !Accepts(p, s, k, j, g)
            case None => forall k, j, g :: 0 <= k <= |s| ==> !Accepts(p, s, k, j, g)
  {
    SearchFromFirst(p, s, 0);
    match Search(p, s)
    case Some(f) =>
      MatchSound(p, s, f.start);
      forall k, j, g | 0 <= k < f.start
        ensures !Accepts(p, s, k, j, g)
      {
        if Accepts(p, s, k, j, g) {
          MatchComplete(p, s, k, j, g);
        }
      }
    case None =>
      forall k, j, g | 0 <= k <= |s|
        ensures !Accepts(p, s, k, j, g)
      {
        if Accepts(p, s, k, j, g) {
          MatchComplete(p, s, k, j, g);
        }
      }
  }

  function GroupCount(p: seq<Elem>): nat
  {
    if p == [] then 0 else (if p[0].Group? then 1 else 0) + GroupCount(p[1..])
  }

  lemma {:induction false} GroupCountAppend(a: seq<Elem>, b: seq<Elem>)
    ensures GroupCount(a + b) == GroupCount(a) + GroupCount(b)
  {
    if a == [] {
      assert a + b == b;
    } else {
      assert (a + b)[1..] == a[1..] + b;
      GroupCountAppend(a[1..], b);
    }
  }

  /** Every capturing group of `p` captures characters of class `cl`. */
  predicate GroupsIn(p: seq<Elem>, cl: Class)
  {
    forall k :: 0 <= k < |p| && p[k].Group? ==> p[k].cl == cl
  }

  /** A match captures one string per group of the pattern, each made of
      characters of its group's class. */
  lemma {:induction false} AcceptsGroups(p: seq<Elem>, s: string, i: nat, j: nat, g: seq<string>, cl: Class)
    requires Accepts(p, s, i, j, g) && GroupsIn(p, cl)
    ensures |g| == GroupCount(p)
    ensures forall m :: 0 <= m < |g| ==> AllIn(cl, g[m])
    decreases |p|
  {
    if p != [] {
      assert GroupsIn(p[1..], cl) by {
        assert forall k :: 0 <= k < |p| - 1 ==> p[1..][k] == p[k + 1];
      }
      match p[0]
      case Lit(c) => AcceptsGroups(p[1..], s, i + 1, j, g, cl);
      case Star(c) =>
        var k :| i <= k <= |s| && AllIn(c, s[i..k]) && Accepts(p[1..], s, k, j, g);
        AcceptsGroups(p[1..], s, k, j, g, cl);
      case Group(c) =>
        var k :| i <= k <= |s| && AllIn(c, s[i..k]) && g[0] == s[i..k] && Accepts(p[1..], s, k, j, g[1..]);
        AcceptsGroups(p[1..], s, k, j, g[1..], cl);
        assert forall m :: 1 <= m < |g| ==> g[m] == g[1..][m - 1];
    }
  }

  /** A pattern ending in a literal matches text ending in that character. */
  lemma {:induction false} AcceptsEndsWith(p: seq<Elem>, s: string, i: nat, j: nat, g: seq<string>, c: char)
    requires p != [] && p[|p| - 1] == Lit(c) && Accepts(p, s, i, j, g)
    ensures i < j <= |s| && s[j - 1] == c
    decreases |p|
  {
    if |p| == 1 {
      assert p[0] == Lit(c);
    } else {
      assert p[1..][|p| - 2] == Lit(c);
      match p[0]
      case Lit(d) => AcceptsEndsWith(p[1..], s, i + 1, j, g, c);
      case Star(cl) =>
        var k :| i <= k <= |s| && AllIn(cl, s[i..k]) && Accepts(p[1..], s, k, j, g);
        AcceptsEndsWith(p[1..], s, k, j, g, c);
      case Group(cl) =>
        var k :| i <= k <= |s| && AllIn(cl, s[i..k]) && g[0] == s[i..k] && Accepts(p[1..], s, k, j, g[1..]);
        AcceptsEndsWith(p[1..], s, k, j, g[1..], c);
    }
  }
}
