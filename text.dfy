/** String helpers with the meaning of the Python built-ins the scripts call:
    `str.lower`, `in` on strings, `str.startswith`, `str.strip`, `str.index`,
    `str.rindex`, `str.replace`, `str.split('/')[-1]`, `str(int)` and `os.path.join`. */
module Text {
  import opened Wrappers

  /** Python's `str.isspace` on one character: ASCII whitespace, the
      information separators 0x1C-0x1F and the Unicode space characters. */
  predicate IsSpace(c: char)
  {
    c == ' ' || ('\t' <= c <= '\r') || ('\U{1C}' <= c <= '\U{1F}')
    || c == '\U{85}' || c == '\U{A0}' || c == '\U{1680}'
    || ('\U{2000}' <= c <= '\U{200A}') || c == '\U{2028}' || c == '\U{2029}'
    || c == '\U{202F}' || c == '\U{205F}' || c == '\U{3000}'
  }

  predicate IsAsciiUpper(c: char)
  {
    'A' <= c <= 'Z'
  }

  function LowerChar(c: char): (d: char)
    ensures !IsAsciiUpper(d)
    ensures !IsAsciiUpper(c) ==> d == c
    ensures IsAsciiUpper(c) ==> d as int == c as int + 32
  {
    if IsAsciiUpper(c) then (c as int + 32) as char else c
  }

  /** `s.lower()`, on the ASCII letters. */
  function Lower(s: string): (r: string)
    ensures |r| == |s|
    ensures forall i :: 0 <= i < |s| ==> r[i] == LowerChar(s[i])
  {
    seq(|s|, i requires 0 <= i < |s| => LowerChar(s[i]))
  }

  /** `s.startswith(prefix)`, character by character. */
  predicate StartsWith(s: string, prefix: string)
  {
    |prefix| <= |s| && forall i :: 0 <= i < |prefix| ==> s[i] == prefix[i]
  }

  /** `sub` occurs in `s` at position `k`. */
  predicate OccursAt(s: string, sub: string, k: nat)
  {
    k + |sub| <= |s| && s[k..k + |sub|] == sub
  }

  /** `sub in s` */
  predicate Contains(s: string, sub: string)
  {
    exists k: nat | k <= |s| :: OccursAt(s, sub, k)
  }

  /** A string without upper-case ASCII letters contains no string that starts with one. */
  lemma NoUpperContainsNoUpperStart(s: string, sub: string)
    requires forall i :: 0 <= i < |s| ==> !IsAsciiUpper(s[i])
    requires |sub| > 0 && IsAsciiUpper(sub[0])
    ensures !Contains(s, sub)
  {
    forall k: nat | k <= |s|
      ensures !OccursAt(s, sub, k)
    {
      if k + |sub| <= |s| {
        assert s[k..k + |sub|][0] == s[k];
      }
    }
  }

  /** Whatever the message, `"SAFETY" in message.lower()` is false. */
  lemma LoweredNeverContainsUpper(msg: string, sub: string)
    requires |sub| > 0 && IsAsciiUpper(sub[0])
    ensures !Contains(Lower(msg), sub)
  {
    NoUpperContainsNoUpperStart(Lower(msg), sub);
  }

  /** Every character of a contained string occurs in the containing one. */
  lemma ContainedCharsOccur(s: string, sub: string, c: char)
    ensures Contains(s, sub) && c in sub ==> c in s
  {
    if Contains(s, sub) && c in sub {
      var k: nat :| k <= |s| && OccursAt(s, sub, k);
      var j :| 0 <= j < |sub| && sub[j] == c;
      assert k + |sub| <= |s| && s[k..k + |sub|] == sub;
      assert s[k + j] == s[k..k + |sub|][j];
    }
  }

  /** Lower-casing brings in no character other than the lower-case form of an upper-case ASCII letter. */
  lemma LowerCharsOrigin(s: string, c: char)
    ensures c in Lower(s) ==> c in s || ('a' <= c <= 'z' && (c as int - 32) as char in s)
  {
    if c in Lower(s) {
      var i :| 0 <= i < |s| && Lower(s)[i] == c;
      assert s[i] == c || s[i] as int == c as int - 32;
    }
  }

  /** `s.replace(a, b)` for one-character strings `a` and `b`. */
  function ReplaceChar(s: string, a: char, b: char): (r: string)
    ensures |r| == |s|
    ensures forall i :: 0 <= i < |s| ==> r[i] == if s[i] == a then b else s[i]
    ensures a != b ==> a !in r
  {
    seq(|s|, i requires 0 <= i < |s| => if s[i] == a then b else s[i])
  }

  /** `s.index(c)`, with `None` where Python raises `ValueError`. */
  function IndexOf(s: string, c: char): (r: Option<nat>)
    ensures r.None? <==> c !in s
    ensures r.Some? ==> r.value < |s| && s[r.value] == c && c !in s[..r.value]
    decreases |s|
  {
    if |s| == 0 then None
    else if s[0] == c then Some(0)
    else match IndexOf(s[1..], c)
      case None => None
      case Some(i) => assert s[..i + 1] == [s[0]] + s[1..][..i]; Some(i + 1)
  }

  /** `s.rindex(c)`, with `None` where Python raises `ValueError`. */
  function LastIndexOf(s: string, c: char): (r: Option<nat>)
    ensures r.None? <==> c !in s
    ensures r.Some? ==> r.value < |s| && s[r.value] == c && c !in s[r.value + 1..]
    decreases |s|
  {
    if |s| == 0 then None
    else if s[|s| - 1] == c then Some(|s| - 1)
    else match LastIndexOf(s[..|s| - 1], c)
      case None => assert s == s[..|s| - 1] + [s[|s| - 1]]; None
      case Some(i) => assert s[i + 1..] == s[..|s| - 1][i + 1..] + [s[|s| - 1]]; Some(i)
  }

  /** An occurrence with none before it is the one `s.index(c)` finds. */
  lemma IndexOfUnique(s: string, c: char, k: nat)
    requires k < |s| && s[k] == c && c !in s[..k]
    ensures IndexOf(s, c) == Some(k)
  {
  }

  /** An occurrence with none after it is the one `s.rindex(c)` finds. */
  lemma LastIndexOfUnique(s: string, c: char, k: nat)
    requires k < |s| && s[k] == c && c !in s[k + 1..]
    ensures LastIndexOf(s, c) == Some(k)
  {
  }

  /** `s.split('/')[-1]`: the text after the last `/`, or all of `s`. */
  function LastComponent(s: string): (r: string)
    ensures '/' !in r
    ensures |r| <= |s| && s[|s| - |r|..] == r
    ensures |r| < |s| ==> s[|s| - |r| - 1] == '/'
    ensures '/' !in s ==> r == s
  {
    match LastIndexOf(s, '/')
    case None => s
    case Some(i) => s[i + 1..]
  }

  function TrimStart(s: string): (r: string)
    ensures |r| <= |s| && r == s[|s| - |r|..]
    ensures forall i :: 0 <= i < |s| - |r| ==> IsSpace(s[i])
    ensures |r| > 0 ==> !IsSpace(r[0])
    decreases |s|
  {
    if |s| > 0 && IsSpace(s[0]) then TrimStart(s[1..]) else s
  }

  function TrimEnd(s: string): (r: string)
    ensures |r| <= |s| && r == s[..|r|]
    ensures forall i :: |r| <= i < |s| ==> IsSpace(s[i])
    ensures |r| > 0 ==> !IsSpace(r[|r| - 1])
    decreases |s|
  {
    if |s| > 0 && IsSpace(s[|s| - 1]) then TrimEnd(s[..|s| - 1]) else s
  }

  /** `s.strip()`: `s` without its leading and trailing whitespace. */
  function Strip(s: string): (r: string)
    ensures |r| > 0 ==> !IsSpace(r[0]) && !IsSpace(r[|r| - 1])
  {
    TrimEnd(TrimStart(s))
  }

  /** Strip keeps one contiguous piece of `s` and drops only whitespace around it. */
  lemma StripIsInfix(s: string)
    ensures var r, k := Strip(s), |s| - |TrimStart(s)|;
            k + |r| <= |s| && r == s[k..k + |r|]
            && (forall i :: 0 <= i < k ==> IsSpace(s[i]))
            && (forall i :: k + |r| <= i < |s| ==> IsSpace(s[i]))
  {
    var t := TrimStart(s);
    var r := TrimEnd(t);
    var k := |s| - |t|;
    assert Strip(s) == r;
    SuffixPrefix(s, k, |r|);
    forall i | k + |r| <= i < |s|
      ensures IsSpace(s[i])
    {
      assert s[i] == t[i - k];
    }
  }

  /** The first `n` elements of the suffix from `k` are the slice `k..k + n`. */
  lemma SuffixPrefix(s: string, k: nat, n: nat)
    requires k + n <= |s|
    ensures s[k..][..n] == s[k..k + n]
  {
  }

  predicate IsDigit(c: char)
  {
    '0' <= c <= '9'
  }

  function DigitChar(d: nat): (c: char)
    requires d < 10
    ensures IsDigit(c) && c as int - '0' as int == d
  {
    ('0' as int + d) as char
  }

  /** `str(n)` for a natural number: its decimal digits, no leading zero. */
  function NatToString(n: nat): (r: string)
    ensures |r| > 0 && forall i :: 0 <= i < |r| ==> IsDigit(r[i])
    decreases n
  {
    if n < 10 then [DigitChar(n)] else NatToString(n / 10) + [DigitChar(n % 10)]
  }

  /** The value of a string of decimal digits; inverse of NatToString. */
  function DigitsValue(s: string): nat
    requires forall i :: 0 <= i < |s| ==> IsDigit(s[i])
    decreases |s|
  {
    if |s| == 0 then 0
    else
      assert IsDigit(s[|s| - 1]);
      10 * DigitsValue(s[..|s| - 1]) + (s[|s| - 1] as int - '0' as int)
  }

  lemma {:induction false} NatToStringRoundTrip(n: nat)
    ensures DigitsValue(NatToString(n)) == n
    decreases n
  {
    if n >= 10 {
      var s := NatToString(n);
      assert s[..|s| - 1] == NatToString(n / 10);
      NatToStringRoundTrip(n / 10);
    }
  }

  lemma NatToStringInjective(a: nat, b: nat)
    requires NatToString(a) == NatToString(b)
    ensures a == b
  {
    NatToStringRoundTrip(a);
    NatToStringRoundTrip(b);
  }

  /** `str(i)` for an integer. */
  function IntToString(i: int): (r: string)
    ensures |r| > 0 && '_' !in r && '/' !in r && '.' !in r
    decreases if i < 0 then 1 else 0
  {
    if i < 0 then "-" + IntToString(-i) else NatToString(i)
  }

  lemma IntToStringInjective(a: int, b: int)
    requires IntToString(a) == IntToString(b)
    ensures a == b
  {
    var s := IntToString(a);
    assert (a < 0) == (s[0] == '-');
    assert (b < 0) == (s[0] == '-');
    if a < 0 {
      assert NatToString(-a) == s[1..] == NatToString(-b);
      NatToStringInjective(-a, -b);
    } else {
      NatToStringInjective(a, b);
    }
  }

  /** `os.path.join(a, b)`. */
  function PathJoin(a: string, b: string): string
  {
    if |b| > 0 && b[0] == '/' then b
    else if a == "" || a[|a| - 1] == '/' then a + b
    else a + "/" + b
  }

  /** The first separator of `a + [sep] + b` is the one after `a` when `a` has none. */
  lemma FirstSeparator(a: string, b: string, sep: char)
    requires sep !in a
    ensures IndexOf(a + [sep] + b, sep) == Some(|a|)
  {
    var s := a + [sep] + b;
    assert s[..|a|] == a;
    assert s[|a|] == sep;
  }

  /** Splitting at a separator that occurs in neither left part is unambiguous. */
  lemma SplitAtSeparator(a: string, b: string, c: string, d: string, sep: char)
    requires sep !in a && sep !in c
    requires a + [sep] + b == c + [sep] + d
    ensures a == c && b == d
  {
    FirstSeparator(a, b, sep);
    FirstSeparator(c, d, sep);
    var s := a + [sep] + b;
    assert a == s[..|a|] == c;
    assert b == s[|a| + 1..] == d;
  }
}
