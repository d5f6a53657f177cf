/** The few Python `str` and `int` built-ins the bot relies on, over `seq<char>`:
    `isspace` (which is also what `\s` matches in a `str` regex), the `in`
    operator, `strip()`, `replace()`, `split()`/`join()`, `str(n)` and `int(s)`. */
module PyStr {
  import opened Wrappers

  /** `str.isspace()` of one character: the characters CPython treats as
      white space, which are also the ones `\s` matches in a `str` pattern. */
  predicate IsSpace(c: char) {
    c == ' ' || ('\t' <= c <= '\r') || ('\U{1C}' <= c <= '\U{1F}')
    || c == '\U{85}' || c == '\U{A0}' || c == '\U{1680}'
    || ('\U{2000}' <= c <= '\U{200A}') || c == '\U{2028}' || c == '\U{2029}'
    || c == '\U{202F}' || c == '\U{205F}' || c == '\U{3000}'
  }

  predicate IsDigit(c: char) {
    '0' <= c <= '9'
  }

  predicate AllSpace(s: string) {
    forall k :: 0 <= k < |s| ==> IsSpace(s[k])
  }

  predicate AllDigits(s: string) {
    forall k :: 0 <= k < |s| ==> IsDigit(s[k])
  }

  /** Length of the run of digits at the start of `s` (what `\d+` takes). */
  function DigitRun(s: string): (n: nat)
    ensures n <= |s| && AllDigits(s[..n])
    ensures n < |s| ==> !IsDigit(s[n])
    decreases |s|
  {
    if |s| == 0 || !IsDigit(s[0]) then 0
    else
      var n := 1 + DigitRun(s[1..]);
      assert s[..n] == [s[0]] + s[1..][..n - 1];
      n
  }

  /** A run of `n` digits followed by a non-digit (or the end) is the run
      `DigitRun` measures. */
  lemma DigitRunIs(s: string, n: int)
    requires 0 <= n <= |s| && AllDigits(s[..n]) && (n < |s| ==> !IsDigit(s[n]))
    ensures DigitRun(s) == n
  {
    var d := DigitRun(s);
    assert forall k :: 0 <= k < n ==> s[..n][k] == s[k];
    assert forall k :: 0 <= k < d ==> s[..d][k] == s[k];
  }

  // ---------------------------------------------------------------------------
  // Substring search: `pat in s` and `s.find(pat)`

  /** `pat` occurs in `s` starting at index `k`. */
  predicate OccursAt(s: string, pat: string, k: int) {
    0 <= k && k + |pat| <= |s| && s[k..k + |pat|] == pat
  }

  /** Python's `pat in s`. */
  predicate Contains(s: string, pat: string) {
    exists k :: 0 <= k <= |s| - |pat| && OccursAt(s, pat, k)
  }

  lemma OccursAtTail(s: string, pat: string, k: int)
    requires |s| > 0 && k >= 0
    ensures OccursAt(s[1..], pat, k) <==> OccursAt(s, pat, k + 1)
  {
    if 0 <= k && k + |pat| <= |s| - 1 {
      assert s[1..][k..k + |pat|] == s[k + 1..k + 1 + |pat|];
    }
  }

  lemma OccursInSlice(s: string, a: int, b: int, pat: string, k: int)
    requires 0 <= a <= b <= |s|
    requires OccursAt(s[a..b], pat, k)
    ensures OccursAt(s, pat, a + k)
  {
    forall j | a + k <= j < a + k + |pat| ensures s[a..b][j - a] == s[j] { }
    assert s[a..b][k..k + |pat|] == s[a + k..a + k + |pat|];
  }

  lemma OccursInSuffix(s: string, a: int, pat: string, j: int)
    requires 0 <= a <= j && a <= |s|
    ensures OccursAt(s[a..], pat, j - a) <==> OccursAt(s, pat, j)
  {
    if j + |pat| <= |s| {
      assert s[a..][j - a..j - a + |pat|] == s[j..j + |pat|];
    }
  }

  /** No occurrence in the first `d` positions of `s[a..]` means none in
      positions `a` to `a + d` of `s`. */
  lemma NoOccurrenceInSuffix(s: string, a: nat, pat: string, d: nat)
    requires a + d <= |s|
    requires forall k :: 0 <= k < d ==> !OccursAt(s[a..], pat, k)
    ensures forall k :: a <= k < a + d ==> !OccursAt(s, pat, k)
  {
    forall k | a <= k < a + d ensures !OccursAt(s, pat, k) {
      OccursInSuffix(s, a, pat, k);
    }
  }

  /** A piece cut out of a text contains only what the text contains. */
  lemma ContainsSlice(s: string, a: int, b: int, pat: string)
    requires 0 <= a <= b <= |s|
    requires Contains(s[a..b], pat)
    ensures Contains(s, pat)
  {
    var k :| 0 <= k <= |s[a..b]| - |pat| && OccursAt(s[a..b], pat, k);
    OccursInSlice(s, a, b, pat, k);
  }

  /** No occurrence starts before `p`: the text before `p` holds none. */
  lemma NoOccurrenceBefore(s: string, pat: string, p: nat)
    requires |pat| > 0 && p <= |s|
    requires forall k :: 0 <= k < p ==> !OccursAt(s, pat, k)
    ensures !Contains(s[..p], pat)
  {
    if Contains(s[..p], pat) {
      var k :| 0 <= k <= p - |pat| && OccursAt(s[..p], pat, k);
      assert s[..p] == s[0..p];
      OccursInSlice(s, 0, p, pat, k);
    }
  }

  /** `s.find(pat)`, with `None` for -1. */
  function Find(s: string, pat: string): (r: Option<nat>)
    ensures r.Some? ==> r.value + |pat| <= |s|
    decreases |s|
  {
    if |s| < |pat| then None
    else if s[..|pat|] == pat then Some(0)
    else
      match Find(s[1..], pat)
      case None => None
      case Some(i) => Some(i + 1)
  }

  /** When `Find` answers, `pat` occurs there and nowhere before. */
  lemma {:induction false} FindSome(s: string, pat: string)
    requires Find(s, pat).Some?
    ensures OccursAt(s, pat, Find(s, pat).value)
    ensures forall k :: 0 <= k < Find(s, pat).value ==> !OccursAt(s, pat, k)
    decreases |s|
  {
    if s[..|pat|] != pat {
      FindSome(s[1..], pat);
      var i := Find(s[1..], pat).value;
      OccursAtTail(s, pat, i);
      forall k | 0 <= k < i + 1 ensures !OccursAt(s, pat, k) {
        if k > 0 { OccursAtTail(s, pat, k - 1); }
      }
    }
  }

  /** When `Find` gives up, `pat` occurs nowhere in `s`. */
  lemma {:induction false} FindNone(s: string, pat: string)
    requires Find(s, pat).None?
    ensures !Contains(s, pat)
    decreases |s|
  {
    if |s| >= |pat| {
      FindNone(s[1..], pat);
      forall k | 0 <= k <= |s| - |pat| ensures !OccursAt(s, pat, k) {
        if k > 0 { OccursAtTail(s, pat, k - 1); }
      }
    }
  }

  // ---------------------------------------------------------------------------
  // `str.strip()`

  /** Number of white-space characters at the start of `s`. */
  function LeadingSpaces(s: string): (n: nat)
    ensures n <= |s| && AllSpace(s[..n])
    ensures n < |s| ==> !IsSpace(s[n])
    decreases |s|
  {
    if |s| == 0 || !IsSpace(s[0]) then 0
    else
      var n := 1 + LeadingSpaces(s[1..]);
      assert s[..n] == [s[0]] + s[1..][..n - 1];
      n
  }

  /** Number of white-space characters at the end of `s`. */
  function TrailingSpaces(s: string): (n: nat)
    ensures n <= |s| && AllSpace(s[|s| - n..])
    ensures n < |s| ==> !IsSpace(s[|s| - 1 - n])
    decreases |s|
  {
    if |s| == 0 || !IsSpace(s[|s| - 1]) then 0
    else
      var t := s[..|s| - 1];
      var n := 1 + TrailingSpaces(t);
      assert s[|s| - n..] == t[|t| - (n - 1)..] + [s[|s| - 1]];
      n
  }

  /** `s.strip()`: `s` without its leading and trailing white space. The
      result is the slice of `s` that starts at its first non-space character
      and ends at its last one; everything cut off is white space. */
  function Strip(s: string): (r: string)
    ensures LeadingSpaces(s) + |r| <= |s|
    ensures r == s[LeadingSpaces(s)..LeadingSpaces(s) + |r|]
    ensures AllSpace(s[..LeadingSpaces(s)]) && AllSpace(s[LeadingSpaces(s) + |r|..])
    ensures |r| > 0 ==> !IsSpace(r[0]) && !IsSpace(r[|r| - 1])
  {
    var a := LeadingSpaces(s);
    var t := s[a..];
    var b := TrailingSpaces(t);
    StripSlices(s, a, b);
    t[..|t| - b]
  }

  /** Where the pieces of `s` sit once `a` characters are cut at the front
      and `b` at the back. */
  lemma StripSlices(s: string, a: nat, b: nat)
    requires a + b <= |s|
    ensures var t := s[a..]; var r := t[..|t| - b];
      && r == s[a..a + |r|] && s[a + |r|..] == t[|t| - b..]
      && (|r| > 0 ==> r[0] == t[0] && r[|r| - 1] == t[|t| - 1 - b])
  {
  }

  lemma StripIdempotent(s: string)
    ensures Strip(Strip(s)) == Strip(s)
  {
    var r := Strip(s);
    assert LeadingSpaces(r) == 0;
    if |r| > 0 {
      assert TrailingSpaces(r[LeadingSpaces(r)..]) == 0 by {
        assert r[LeadingSpaces(r)..] == r;
      }
    }
  }

  lemma ContainsStrip(s: string, pat: string)
    requires Contains(Strip(s), pat)
    ensures Contains(s, pat)
  {
    var a := LeadingSpaces(s);
    ContainsSlice(s, a, a + |Strip(s)|, pat);
  }

  // ---------------------------------------------------------------------------
  // `str.replace(old, new)`, and the `split`/`join` pair it agrees with

  /** `s.replace(pat, rep)`: scans left to right and replaces each occurrence
      of `pat` that does not overlap an earlier replaced one. */
  function Replace(s: string, pat: string, rep: string): string
    requires |pat| > 0
    decreases |s|
  {
    if |s| < |pat| then s
    else if s[..|pat|] == pat then rep + Replace(s[|pat|..], pat, rep)
    else [s[0]] + Replace(s[1..], pat, rep)
  }

  /** `s.split(sep)`: the pieces between the non-overlapping occurrences of
      `sep`, found left to right. */
  function Split(s: string, sep: string): (r: seq<string>)
    requires |sep| > 0
    ensures |r| >= 1
    decreases |s|
  {
    if |s| < |sep| then [s]
    else if s[..|sep|] == sep then [""] + Split(s[|sep|..], sep)
    else
      var t := Split(s[1..], sep);
      [[s[0]] + t[0]] + t[1..]
  }

  /** `sep.join(parts)`. */
  function Join(parts: seq<string>, sep: string): string
    requires |parts| >= 1
  {
    if |parts| == 1 then parts[0] else parts[0] + sep + Join(parts[1..], sep)
  }

  lemma JoinCons(x: string, t: seq<string>, sep: string)
    requires |t| >= 1
    ensures Join([x] + t, sep) == x + sep + Join(t, sep)
  {
    assert ([x] + t)[1..] == t;
  }

  /** `pat` at the head of `s` is replaced and the scan resumes after it. */
  lemma ReplaceHeadMatch(t: string, pat: string, rep: string)
    requires |pat| > 0 && |t| >= |pat| && t[..|pat|] == pat
    ensures Replace(t, pat, rep) == rep + Replace(t[|pat|..], pat, rep)
  {
  }

  /** Without `pat` at its head, the first character of `s` is kept. */
  lemma {:induction false} ReplaceKeepsPrefix(s: string, pat: string, rep: string, n: nat)
    requires |pat| > 0 && n + |pat| <= |s|
    requires forall i :: 0 <= i < n ==> !OccursAt(s, pat, i)
    ensures Replace(s, pat, rep) == s[..n] + Replace(s[n..], pat, rep)
    decreases n
  {
    if n > 0 {
      var t := s[1..];
      ReplaceSkipsHead(s, pat, rep);
      NoOccurrenceInTail(s, pat, n);
      ReplaceKeepsPrefix(t, pat, rep, n - 1);
      KeptHeadJoins(s, Replace(s, pat, rep), Replace(t, pat, rep), Replace(t[n - 1..], pat, rep), n);
      SliceAfterHead(s, n);
    }
  }

  /** The text algebra of one step of `ReplaceKeepsPrefix`. */
  lemma KeptHeadJoins(s: string, whole: string, tail: string, rest: string, n: nat)
    requires 0 < n <= |s|
    requires whole == [s[0]] + tail && tail == s[1..][..n - 1] + rest
    ensures whole == s[..n] + rest
  {
    SliceAfterHead(s, n);
  }

  /** Without `pat` at its head, `s` keeps its first character. */
  lemma ReplaceSkipsHead(s: string, pat: string, rep: string)
    requires |pat| > 0 && |pat| <= |s| && !OccursAt(s, pat, 0)
    ensures Replace(s, pat, rep) == [s[0]] + Replace(s[1..], pat, rep)
  {
    assert s[..|pat|] == s[0..|pat|];
  }

  /** No occurrence in the first `n` positions of `s` means none in the
      first `n - 1` positions of `s[1..]`. */
  lemma NoOccurrenceInTail(s: string, pat: string, n: nat)
    requires 0 < n <= |s|
    requires forall i :: 0 <= i < n ==> !OccursAt(s, pat, i)
    ensures forall i :: 0 <= i < n - 1 ==> !OccursAt(s[1..], pat, i)
  {
    forall i | 0 <= i < n - 1 ensures !OccursAt(s[1..], pat, i) {
      OccursAtTail(s, pat, i);
    }
  }

  lemma SliceAfterHead(s: string, n: nat)
    requires 0 < n <= |s|
    ensures s[1..][n - 1..] == s[n..] && s[..n] == [s[0]] + s[1..][..n - 1]
  {
  }

  /** `"".join(parts)`. */
  function Concat(parts: seq<string>): (r: string)
    ensures |parts| == 1 ==> r == parts[0]
  {
    if |parts| == 0 then [] else parts[0] + Concat(parts[1..])
  }

  /** Gluing back the two pieces cut off at the front of a split. */
  lemma ConcatSplitStep(s: string, p: int, e: int, t: seq<string>)
    requires 0 <= p <= e <= |s| && Concat(t) == s[e..]
    ensures Concat([s[..p], s[p..e]] + t) == s
  {
    var a, b := s[..p], s[p..e];
    assert ([a, b] + t)[1..] == [b] + t;
    assert ([b] + t)[1..] == t;
    assert s == a + (b + s[e..]);
  }

  /** `s.replace(old, new)`, which replaces every occurrence of `old` by `new`,
      agrees with `new.join(s.split(old))`. */
  lemma {:induction false} ReplaceIsJoinOfSplit(s: string, pat: string, rep: string)
    requires |pat| > 0
    ensures Replace(s, pat, rep) == Join(Split(s, pat), rep)
    decreases |s|
  {
    if |s| < |pat| {
    } else if s[..|pat|] == pat {
      var u := s[|pat|..];
      ReplaceIsJoinOfSplit(u, pat, rep);
      var t := Split(u, pat);
      assert Replace(s, pat, rep) == rep + Replace(u, pat, rep);
      assert Split(s, pat) == [""] + t;
      JoinCons("", t, rep);
    } else {
      var u := s[1..];
      ReplaceIsJoinOfSplit(u, pat, rep);
      var t := Split(u, pat);
      var parts := [[s[0]] + t[0]] + t[1..];
      assert Replace(s, pat, rep) == [s[0]] + Replace(u, pat, rep);
      assert Split(s, pat) == parts;
      if |t| == 1 {
        assert Join(t, rep) == t[0];
        assert Join(parts, rep) == [s[0]] + t[0];
      } else {
        assert t == [t[0]] + t[1..];
        JoinCons(t[0], t[1..], rep);
        JoinCons([s[0]] + t[0], t[1..], rep);
      }
    }
  }

  /** Replacing a text by itself changes nothing. */
  lemma {:induction false} ReplaceBySelf(s: string, pat: string)
    requires |pat| > 0
    ensures Replace(s, pat, pat) == s
    decreases |s|
  {
    if |s| < |pat| {
    } else if s[..|pat|] == pat {
      ReplaceBySelf(s[|pat|..], pat);
      assert s == s[..|pat|] + s[|pat|..];
    } else {
      ReplaceBySelf(s[1..], pat);
      assert s == [s[0]] + s[1..];
    }
  }

  /** `sep.join(s.split(sep)) == s`: splitting loses nothing. */
  lemma SplitJoinRoundTrip(s: string, sep: string)
    requires |sep| > 0
    ensures Join(Split(s, sep), sep) == s
  {
    ReplaceIsJoinOfSplit(s, sep, sep);
    ReplaceBySelf(s, sep);
  }

  /** Replacing a text that does not occur changes nothing. */
  lemma {:induction false} ReplaceAbsent(s: string, pat: string, rep: string)
    requires |pat| > 0 && !Contains(s, pat)
    ensures Replace(s, pat, rep) == s
    decreases |s|
  {
    if |s| >= |pat| {
      assert !OccursAt(s, pat, 0);
      assert !Contains(s[1..], pat) by {
        if Contains(s[1..], pat) {
          assert s[1..] == s[1..|s|];
          ContainsSlice(s, 1, |s|, pat);
        }
      }
      ReplaceAbsent(s[1..], pat, rep);
      assert s == [s[0]] + s[1..];
    }
  }

  // ---------------------------------------------------------------------------
  // `str(n)` and `int(s)` for decimal digits

  function DigitChar(d: nat): (c: char)
    requires d < 10
    ensures IsDigit(c) && c as int - '0' as int == d
  {
    ('0' as int + d) as char
  }

  /** `str(n)` for a non-negative integer: its decimal digits, without
      leading zeros. */
  function NatToString(n: nat): (r: string)
    ensures |r| >= 1 && AllDigits(r)
    ensures |r| > 1 ==> r[0] != '0'
  {
    if n < 10 then [DigitChar(n)] else NatToString(n / 10) + [DigitChar(n % 10)]
  }

  /** `int(s)` for a run of decimal digits (leading zeros allowed). */
  function DigitsValue(s: string): nat
    requires AllDigits(s)
  {
    if |s| == 0 then 0
    else DigitsValue(s[..|s| - 1]) * 10 + (s[|s| - 1] as int - '0' as int)
  }

  /** `int(str(n)) == n`. */
  lemma {:induction false} DigitsValueOfNatToString(n: nat)
    ensures DigitsValue(NatToString(n)) == n
  {
    if n >= 10 {
      DigitsValueOfNatToString(n / 10);
      var r := NatToString(n);
      assert r[..|r| - 1] == NatToString(n / 10);
    }
  }

  /** Different numbers print differently. */
  lemma NatToStringInjective(m: nat, n: nat)
    requires NatToString(m) == NatToString(n)
    ensures m == n
  {
    DigitsValueOfNatToString(m);
    DigitsValueOfNatToString(n);
  }
}
