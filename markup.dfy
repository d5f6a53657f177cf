/** The announcement parser of `on_message` (main.py:66-88, repeated line for
    line in bot.py:38-60). The message text is cut into heading spans
    `[tituloinicio]…[titulofin]` and the text between them; that text is cut
    at `[eventoN]` markers, and each event segment is trimmed, rewritten and
    appended to the embed as a field. Segments tagged `[remember]` are also
    collected for the reminder buttons.

    Each regular expression of the source is a hand-written scanner here:
    "try a match at the head, otherwise keep one character and move on" is
    exactly the leftmost-first, non-overlapping search of `re.split`,
    `re.sub` and `str.replace`. */
module Markup {
  import opened Wrappers
  import opened PyStr
  import ReminderTasks

  const TitleOpen: string := "[tituloinicio]"
  const TitleClose: string := "[titulofin]"
  const EventPrefix: string := "[evento"
  const RememberTag: string := "[remember]"
  const LinkOpen: string := "[linki]"
  const LinkSep: string := "[linke]"
  const ParenJoin: string := ")("
  const ParenSeparated: string := ") - ("

  /** One `embed.add_field(name=…, value=…)` call (always `inline=False`). */
  datatype Field = Field(name: string, value: string)

  /** What the loop builds: the embed's fields and `eventos_para_botones`. */
  datatype Parsed = Parsed(fields: seq<Field>, eligible: seq<string>)

  /** `re.search(...)` returned `None` at main.py:72, so `.group(1)` raises. */
  datatype ParseError = NoTitleMatch(block: string)

  function Append(a: Parsed, b: Parsed): Parsed {
    Parsed(a.fields + b.fields, a.eligible + b.eligible)
  }

  // ===========================================================================
  // Heading spans: `\[tituloinicio\].*?\[titulofin\]` with DOTALL, as the
  // split of main.py:67 uses it

  /** Some opening marker is followed, further on, by a closing marker. */
  ghost predicate HasTitleSpan(s: string) {
    exists p, q :: OccursAt(s, TitleOpen, p) && OccursAt(s, TitleClose, q) && p + |TitleOpen| <= q
  }

  /** The leftmost match of the heading pattern in `s`, as `(p, q)`: the
      opening marker at `p`, the inner text `s[p + 14..q]`, the closing marker
      at `q`. `TitleMatchFound` and `TitleMatchNone` say what it finds. */
  function TitleMatch(s: string): (r: Option<(nat, nat)>)
    ensures r.Some? ==> r.value.0 + |TitleOpen| <= r.value.1 && r.value.1 + |TitleClose| <= |s|
  {
    match Find(s, TitleOpen)
    case None => None
    case Some(p) =>
      var a := p + |TitleOpen|;
      match Find(s[a..], TitleClose)
      case None => None
      case Some(d) => Some((p, a + d))
  }

  /** A match is the opening marker nearest the start and the first closing
      marker after it (`.*?` is lazy). */
  lemma TitleMatchFound(s: string)
    requires TitleMatch(s).Some?
    ensures OccursAt(s, TitleOpen, TitleMatch(s).value.0)
    ensures OccursAt(s, TitleClose, TitleMatch(s).value.1)
    ensures forall k :: 0 <= k < TitleMatch(s).value.0 ==> !OccursAt(s, TitleOpen, k)
    ensures forall k :: TitleMatch(s).value.0 + |TitleOpen| <= k < TitleMatch(s).value.1 ==> !OccursAt(s, TitleClose, k)
  {
    var p := Find(s, TitleOpen).value;
    var a := p + |TitleOpen|;
    var t := s[a..];
    var d := Find(t, TitleClose).value;
    assert TitleMatch(s).value == (p, a + d);
    FindSome(s, TitleOpen);
    FindSome(t, TitleClose);
    OccursInSuffix(s, a, TitleClose, a + d);
    NoOccurrenceInSuffix(s, a, TitleClose, d);
  }

  /** No opening marker comes before the match. */
  lemma TitleMatchFirst(s: string)
    requires TitleMatch(s).Some?
    ensures forall k :: 0 <= k < TitleMatch(s).value.0 ==> !OccursAt(s, TitleOpen, k)
  {
    FindSome(s, TitleOpen);
  }

  /** No closing marker after the first opening marker: no span at all. */
  lemma NoCloseAfterFirstOpen(s: string, p: nat)
    requires OccursAt(s, TitleOpen, p)
    requires forall k :: 0 <= k < p ==> !OccursAt(s, TitleOpen, k)
    requires !Contains(s[p + |TitleOpen|..], TitleClose)
    ensures !HasTitleSpan(s)
  {
    var a := p + |TitleOpen|;
    forall p', q | OccursAt(s, TitleOpen, p') && OccursAt(s, TitleClose, q) && p' + |TitleOpen| <= q
      ensures false
    {
      OccursInSuffix(s, a, TitleClose, q);
    }
  }

  /** The search fails exactly when no opening marker is followed by a
      closing one. */
  lemma TitleMatchNone(s: string)
    ensures TitleMatch(s).None? <==> !HasTitleSpan(s)
  {
    var f := Find(s, TitleOpen);
    if f.None? {
      FindNone(s, TitleOpen);
    } else {
      FindSome(s, TitleOpen);
      var a := f.value + |TitleOpen|;
      if Find(s[a..], TitleClose).None? {
        FindNone(s[a..], TitleClose);
        NoCloseAfterFirstOpen(s, f.value);
      } else {
        TitleMatchFound(s);
        assert OccursAt(s, TitleOpen, TitleMatch(s).value.0);
      }
    }
  }

  /** `re.split(r'(\[tituloinicio\].*?\[titulofin\])', s, flags=re.DOTALL)`:
      the text before each heading span, the span itself (kept, because the
      pattern is a capturing group), and finally the text after the last
      span. */
  function SplitTitles(s: string): (r: seq<string>)
    ensures |r| % 2 == 1
    decreases |s|
  {
    match TitleMatch(s)
    case None => [s]
    case Some((p, q)) =>
      [s[..p], s[p..q + |TitleClose|]] + SplitTitles(s[q + |TitleClose|..])
  }

  /** A whole heading span: the opening marker, an inner text in which no
      closing marker starts, and the closing marker. */
  predicate IsTitleSpan(w: string) {
    && |w| >= |TitleOpen| + |TitleClose|
    && w[..|TitleOpen|] == TitleOpen
    && w[|w| - |TitleClose|..] == TitleClose
    && forall k :: |TitleOpen| <= k < |w| - |TitleClose| ==> !OccursAt(w, TitleClose, k)
  }

  /** The text between the markers of a heading span. */
  function TitleInner(w: string): string
    requires IsTitleSpan(w)
  {
    w[|TitleOpen|..|w| - |TitleClose|]
  }

  /** One step of the heading split: the text before the first span, the
      span, and the split of what follows. */
  lemma SplitTitlesStep(s: string)
    requires TitleMatch(s).Some?
    ensures var p, q := TitleMatch(s).value.0, TitleMatch(s).value.1;
      SplitTitles(s) == [s[..p], s[p..q + |TitleClose|]] + SplitTitles(s[q + |TitleClose|..])
  {
  }

  /** `"".join(re.split(...))` gives back the message: the split loses nothing. */
  lemma {:induction false} SplitTitlesJoin(s: string)
    ensures Concat(SplitTitles(s)) == s
    decreases |s|
  {
    var m := TitleMatch(s);
    if m.Some? {
      var p, e := m.value.0, m.value.1 + |TitleClose|;
      var rest := SplitTitles(s[e..]);
      SplitTitlesJoin(s[e..]);
      SplitTitlesStep(s);
      assert SplitTitles(s) == [s[..p], s[p..e]] + rest;
      ConcatSplitStep(s, p, e, rest);
    }
  }

  /** The matched span of one split step is a heading span. */
  lemma MatchedSpanIsTitle(s: string)
    requires TitleMatch(s).Some?
    ensures var p, q := TitleMatch(s).value.0, TitleMatch(s).value.1;
      IsTitleSpan(s[p..q + |TitleClose|])
  {
    TitleMatchFound(s);
    var p, q := TitleMatch(s).value.0, TitleMatch(s).value.1;
    var e := q + |TitleClose|;
    var w := s[p..e];
    assert w[..|TitleOpen|] == s[p..p + |TitleOpen|];
    assert w[|w| - |TitleClose|..] == s[q..e];
    forall k | |TitleOpen| <= k < |w| - |TitleClose| ensures !OccursAt(w, TitleClose, k) {
      if OccursAt(w, TitleClose, k) {
        OccursInSlice(s, p, e, TitleClose, k);
      }
    }
  }

  /** Every odd piece of the heading split is a heading span. */
  lemma {:induction false} SplitTitlesHeading(s: string, i: nat)
    requires i < |SplitTitles(s)| && i % 2 == 1
    ensures IsTitleSpan(SplitTitles(s)[i])
    decreases |s|
  {
    SplitTitlesPieces(s, i);
    if i == 1 {
      MatchedSpanIsTitle(s);
    } else {
      OddAfterTwo(i);
      SplitTitlesHeading(s[TitleMatch(s).value.1 + |TitleClose|..], i - 2);
    }
  }

  /** A split with more than one piece found a span; its first two pieces
      are the text before the span and the span, and the later ones are the
      pieces of the split of the rest. */
  lemma SplitTitlesPieces(s: string, i: nat)
    requires 0 < i < |SplitTitles(s)|
    ensures TitleMatch(s).Some?
    ensures var p, e := TitleMatch(s).value.0, TitleMatch(s).value.1 + |TitleClose|;
      && SplitTitles(s)[0] == s[..p]
      && SplitTitles(s)[1] == s[p..e]
      && |SplitTitles(s)| == |SplitTitles(s[e..])| + 2
      && (i >= 2 ==> i - 2 < |SplitTitles(s[e..])| && SplitTitles(s)[i] == SplitTitles(s[e..])[i - 2])
  {
    assert TitleMatch(s).Some?;
    var p, q := TitleMatch(s).value.0, TitleMatch(s).value.1;
    var e := q + |TitleClose|;
    SplitTitlesStep(s);
    PieceAfterTwo(SplitTitles(s), s[..p], s[p..e], SplitTitles(s[e..]), i);
  }

  /** Two pieces further on, the parity is the same. */
  lemma OddAfterTwo(i: nat)
    requires i % 2 == 1 && i != 1
    ensures i >= 2 && (i - 2) % 2 == 1
  {
  }

  lemma EvenAfterTwo(i: nat)
    requires i % 2 == 0 && i != 0
    ensures i >= 2 && (i - 2) % 2 == 0
  {
  }

  /** The text before the first heading span holds no opening marker. */
  lemma TextBeforeFirstTitle(s: string)
    requires TitleMatch(s).Some?
    ensures !Contains(s[..TitleMatch(s).value.0], TitleOpen)
  {
    TitleMatchFirst(s);
    NoOccurrenceBefore(s, TitleOpen, TitleMatch(s).value.0);
  }

  /** Every even piece but the last lies between two heading spans and holds
      no opening marker at all. */
  lemma {:induction false} SplitTitlesText(s: string, i: nat)
    requires i < |SplitTitles(s)| - 1 && i % 2 == 0
    ensures !Contains(SplitTitles(s)[i], TitleOpen)
    decreases |s|
  {
    if i == 0 {
      SplitTitlesPieces(s, 1);
      TextBeforeFirstTitle(s);
    } else {
      EvenAfterTwo(i);
      SplitTitlesPieces(s, i);
      SplitTitlesText(s[TitleMatch(s).value.1 + |TitleClose|..], i - 2);
    }
  }

  /** The last piece may hold an opening marker, but no closing marker
      follows it. */
  lemma {:induction false} SplitTitlesLast(s: string)
    ensures var r := SplitTitles(s); !HasTitleSpan(r[|r| - 1])
    decreases |s|
  {
    TitleMatchNone(s);
    if TitleMatch(s).Some? {
      var p, q := TitleMatch(s).value.0, TitleMatch(s).value.1;
      var e := q + |TitleClose|;
      SplitTitlesStep(s);
      SplitTitlesLast(s[e..]);
    }
  }

  // ===========================================================================
  // The heading search of main.py:72: `\[tituloinicio\](.*?)\[titulofin\]`
  // without DOTALL, so `.` does not match `'\n'`

  /** A match of the line-72 pattern: the opening marker at `p`, the closing
      marker at `q`, and no line break between them. */
  predicate LineSpan(s: string, p: int, q: int) {
    && OccursAt(s, TitleOpen, p)
    && OccursAt(s, TitleClose, q)
    && p + |TitleOpen| <= q
    && '\n' !in s[p + |TitleOpen|..q]
  }

  /** The line-72 pattern matches from position `p`. */
  ghost predicate MatchesAt(s: string, p: int) {
    exists q :: LineSpan(s, p, q)
  }

  /** The line-72 pattern matches somewhere in `s`. */
  ghost predicate HasLineSpan(s: string) {
    exists p :: MatchesAt(s, p)
  }

  /** Where a match that starts at `p` ends: the first closing marker after
      the opening one (`.*?` is lazy), provided no line break comes first. */
  function LineSpanAt(s: string, p: nat): (r: Option<nat>)
    ensures r.Some? ==> p + |TitleOpen| <= r.value && r.value + |TitleClose| <= |s|
  {
    var a := p + |TitleOpen|;
    if OccursAt(s, TitleOpen, p) then
      match Find(s[a..], TitleClose)
      case None => None
      case Some(d) => if '\n' in s[a..a + d] then None else Some(a + d)
    else None
  }

  /** A line break in a prefix of a text is in the text. */
  lemma BreakInLonger(s: string, a: int, b: int, c: int)
    requires 0 <= a <= b <= c <= |s| && '\n' in s[a..b]
    ensures '\n' in s[a..c]
  {
    var k :| 0 <= k < b - a && s[a..b][k] == '\n';
    assert s[a..c][k] == '\n';
  }

  /** `LineSpanAt` finds the match starting at `p` exactly when there is one,
      and the closing marker it reports is the first after the opening one. */
  lemma LineSpanAtSpec(s: string, p: nat)
    ensures LineSpanAt(s, p).Some? ==>
      && LineSpan(s, p, LineSpanAt(s, p).value)
      && forall k :: p + |TitleOpen| <= k < LineSpanAt(s, p).value ==> !OccursAt(s, TitleClose, k)
    ensures LineSpanAt(s, p).None? ==> !MatchesAt(s, p)
  {
    var a := p + |TitleOpen|;
    if OccursAt(s, TitleOpen, p) {
      var f := Find(s[a..], TitleClose);
      if f.None? {
        FindNone(s[a..], TitleClose);
        forall q | a <= q ensures !OccursAt(s, TitleClose, q) {
          OccursInSuffix(s, a, TitleClose, q);
        }
      } else {
        var d := f.value;
        FindSome(s[a..], TitleClose);
        OccursInSuffix(s, a, TitleClose, a + d);
        NoOccurrenceInSuffix(s, a, TitleClose, d);
        if '\n' in s[a..a + d] {
          forall q | a + d <= q <= |s| ensures '\n' in s[a..q] {
            BreakInLonger(s, a, a + d, q);
          }
        }
      }
    }
  }

  /** `re.search` without DOTALL from position `i` on: the leftmost `p` at
      which the pattern matches, with the end of that match. */
  function HeadingSearchFrom(s: string, i: nat): (r: Option<(nat, nat)>)
    requires i <= |s|
    ensures r.Some? ==> i <= r.value.0 && r.value.0 + |TitleOpen| <= r.value.1 && r.value.1 + |TitleClose| <= |s|
    decreases |s| - i
  {
    match LineSpanAt(s, i)
    case Some(q) => Some((i, q))
    case None => if i == |s| then None else HeadingSearchFrom(s, i + 1)
  }

  /** `re.search(r'\[tituloinicio\](.*?)\[titulofin\]', s)` (main.py:72). */
  function HeadingSearch(s: string): (r: Option<(nat, nat)>)
    ensures r.Some? ==> r.value.0 + |TitleOpen| <= r.value.1 && r.value.1 + |TitleClose| <= |s|
  {
    HeadingSearchFrom(s, 0)
  }

  /** From `i` on, a reported match is the leftmost one. */
  lemma {:induction false} HeadingSearchFromSome(s: string, i: nat)
    requires i <= |s| && HeadingSearchFrom(s, i).Some?
    ensures var p, q := HeadingSearchFrom(s, i).value.0, HeadingSearchFrom(s, i).value.1;
      && LineSpan(s, p, q)
      && (forall k :: p + |TitleOpen| <= k < q ==> !OccursAt(s, TitleClose, k))
      && (forall k :: i <= k < p ==> !MatchesAt(s, k))
    decreases |s| - i
  {
    LineSpanAtSpec(s, i);
    if LineSpanAt(s, i).None? {
      assert i < |s| && HeadingSearchFrom(s, i) == HeadingSearchFrom(s, i + 1);
      HeadingSearchFromSome(s, i + 1);
    }
  }

  /** From `i` on, no match is reported only when none exists. */
  lemma {:induction false} HeadingSearchFromNone(s: string, i: nat)
    requires i <= |s| && HeadingSearchFrom(s, i).None?
    ensures forall k :: i <= k ==> !MatchesAt(s, k)
    decreases |s| - i
  {
    LineSpanAtSpec(s, i);
    if i < |s| {
      HeadingSearchFromNone(s, i + 1);
    }
  }

  /** A match of line 72 is the leftmost opening marker from which the
      first closing marker is reached without crossing a line break. */
  lemma HeadingSearchFound(s: string)
    requires HeadingSearch(s).Some?
    ensures var p, q := HeadingSearch(s).value.0, HeadingSearch(s).value.1;
      && LineSpan(s, p, q)
      && (forall k :: p + |TitleOpen| <= k < q ==> !OccursAt(s, TitleClose, k))
      && (forall k :: 0 <= k < p ==> !MatchesAt(s, k))
  {
    HeadingSearchFromSome(s, 0);
  }

  /** The search of line 72 finds nothing exactly when no opening marker is
      followed by a closing marker on the same line. */
  lemma HeadingSearchNone(s: string)
    ensures HeadingSearch(s).None? <==> !HasLineSpan(s)
  {
    if HeadingSearch(s).None? {
      HeadingSearchFromNone(s, 0);
    } else {
      HeadingSearchFromSome(s, 0);
      assert MatchesAt(s, HeadingSearch(s).value.0);
    }
  }

  /** A line-72 match is also a match of the DOTALL pattern of line 67. */
  lemma LineSpanIsTitleSpan(s: string)
    requires HasLineSpan(s)
    ensures HasTitleSpan(s)
  {
    var p :| MatchesAt(s, p);
    var q :| LineSpan(s, p, q);
    assert OccursAt(s, TitleOpen, p) && OccursAt(s, TitleClose, q);
  }

  // ===========================================================================
  // Event markers: `\[evento\d+\]`

  /** `w` is an event marker: `[evento`, one or more digits, `]`. */
  predicate IsMarker(w: string) {
    && |w| >= |EventPrefix| + 2
    && w[..|EventPrefix|] == EventPrefix
    && w[|w| - 1] == ']'
    && AllDigits(w[|EventPrefix|..|w| - 1])
  }

  /** An event marker occupies `s[i..j]`. */
  predicate MarkerAt(s: string, i: int, j: int) {
    0 <= i <= j <= |s| && IsMarker(s[i..j])
  }

  ghost predicate ContainsMarker(s: string) {
    exists i, j :: MarkerAt(s, i, j)
  }

  lemma MarkerAtTail(s: string, i: int, j: int)
    requires |s| > 0 && i >= 1
    ensures MarkerAt(s[1..], i - 1, j - 1) <==> MarkerAt(s, i, j)
  {
    if i <= j <= |s| {
      assert s[1..][i - 1..j - 1] == s[i..j];
    }
  }

  lemma MarkerInSlice(s: string, a: int, b: int, i: int, j: int)
    requires 0 <= a <= b <= |s| && MarkerAt(s[a..b], i, j)
    ensures MarkerAt(s, a + i, a + j)
  {
    forall m | a + i <= m < a + j ensures s[a..b][m - a] == s[m] { }
    assert s[a..b][i..j] == s[a + i..a + j];
  }

  lemma NoMarkerInSlice(s: string, a: int, b: int)
    requires 0 <= a <= b <= |s| && !ContainsMarker(s)
    ensures !ContainsMarker(s[a..b])
  {
    if ContainsMarker(s[a..b]) {
      var i, j :| MarkerAt(s[a..b], i, j);
      MarkerInSlice(s, a, b, i, j);
    }
  }

  /** What a marker at the head of `s` looks like, read off position by
      position: the prefix, the digits that `DigitRun` counts, the `]`. */
  lemma MarkerHeadShape(s: string, j: int)
    requires MarkerAt(s, 0, j)
    ensures var n := |EventPrefix|;
      && |s| >= n + 2 && s[..n] == EventPrefix
      && DigitRun(s[n..]) == j - 1 - n && s[j - 1] == ']'
  {
    var n := |EventPrefix|;
    var w := s[0..j];
    assert s[..n] == w[..n];
    assert s[j - 1] == w[|w| - 1];
    assert s[n..][..j - 1 - n] == w[n..|w| - 1];
    assert s[n..][j - 1 - n] == s[j - 1];
    DigitRunIs(s[n..], j - 1 - n);
  }

  /** The end of the event marker that starts `s`, if one does. */
  function MarkerAtHead(s: string): (r: Option<nat>)
    ensures r.Some? ==> |EventPrefix| + 2 <= r.value <= |s|
  {
    var n := |EventPrefix|;
    if |s| >= n + 2 && s[..n] == EventPrefix then
      var d := DigitRun(s[n..]);
      if d >= 1 && n + d < |s| && s[n + d] == ']' then Some(n + d + 1) else None
    else None
  }

  /** `MarkerAtHead` finds the marker at the head of `s`, and it is the only
      one there, because the digits must be followed by `]`. */
  lemma MarkerAtHeadSpec(s: string)
    ensures MarkerAtHead(s).Some? ==> MarkerAt(s, 0, MarkerAtHead(s).value)
    ensures forall j :: MarkerAt(s, 0, j) ==> MarkerAtHead(s) == Some(j)
  {
    var n := |EventPrefix|;
    forall j | MarkerAt(s, 0, j) ensures MarkerAtHead(s) == Some(j) {
      MarkerHeadShape(s, j);
    }
    if MarkerAtHead(s).Some? {
      var d := DigitRun(s[n..]);
      var m := s[0..n + d + 1];
      assert m[..n] == s[..n];
      assert forall t :: 0 <= t < d ==> m[n..n + d][t] == s[n..][..d][t];
      assert m[n..n + d] == s[n..][..d];
    }
  }

  /** The first event marker in `s`, as `(i, j)` with the marker in `s[i..j]`. */
  function FirstMarker(s: string): (r: Option<(nat, nat)>)
    ensures r.Some? ==> r.value.0 < r.value.1 <= |s|
    decreases |s|
  {
    if |s| == 0 then None
    else
      match MarkerAtHead(s)
      case Some(m) => Some((0, m))
      case None =>
        match FirstMarker(s[1..])
        case None => None
        case Some((i, j)) => Some((i + 1, j + 1))
  }

  /** `FirstMarker` finds a marker, and no marker starts before it. */
  lemma {:induction false} FirstMarkerFound(s: string)
    requires FirstMarker(s).Some?
    ensures var i, j := FirstMarker(s).value.0, FirstMarker(s).value.1;
      MarkerAt(s, i, j) && forall i', j' :: MarkerAt(s, i', j') ==> i <= i'
    decreases |s|
  {
    MarkerAtHeadSpec(s);
    if MarkerAtHead(s).None? {
      FirstMarkerFound(s[1..]);
      var i, j := FirstMarker(s[1..]).value.0, FirstMarker(s[1..]).value.1;
      MarkerAtTail(s, i + 1, j + 1);
      forall i', j' | MarkerAt(s, i', j') ensures i + 1 <= i' {
        if i' >= 1 { MarkerAtTail(s, i', j'); }
      }
    }
  }

  /** `FirstMarker` finds nothing exactly when there is no marker. */
  lemma {:induction false} FirstMarkerNone(s: string)
    ensures FirstMarker(s).None? <==> !ContainsMarker(s)
    decreases |s|
  {
    if FirstMarker(s).Some? {
      FirstMarkerFound(s);
    } else if |s| > 0 {
      MarkerAtHeadSpec(s);
      FirstMarkerNone(s[1..]);
      forall i, j | MarkerAt(s, i, j) ensures false {
        if i >= 1 { MarkerAtTail(s, i, j); }
      }
    }
  }

  /** `re.split(r'(\[evento\d+\])', bloque, flags=re.DOTALL)`: the text
      before the first marker, then each marker followed by its text up to
      the next marker or the end. */
  function SplitOnMarkers(s: string): (r: seq<string>)
    ensures |r| % 2 == 1
    decreases |s|
  {
    match FirstMarker(s)
    case None => [s]
    case Some((i, j)) => [s[..i], s[i..j]] + SplitOnMarkers(s[j..])
  }

  lemma SplitOnMarkersStep(s: string)
    requires FirstMarker(s).Some?
    ensures var i, j := FirstMarker(s).value.0, FirstMarker(s).value.1;
      SplitOnMarkers(s) == [s[..i], s[i..j]] + SplitOnMarkers(s[j..])
  {
  }

  /** `"".join(re.split(...))` gives back the block: the split loses nothing. */
  lemma {:induction false} SplitOnMarkersJoin(s: string)
    ensures Concat(SplitOnMarkers(s)) == s
    decreases |s|
  {
    var m := FirstMarker(s);
    if m.Some? {
      SplitOnMarkersJoin(s[m.value.1..]);
      SplitOnMarkersStep(s);
      ConcatSplitStep(s, m.value.0, m.value.1, SplitOnMarkers(s[m.value.1..]));
    }
  }

  /** The odd pieces of the marker split are the markers themselves. */
  lemma {:induction false} SplitOnMarkersMarker(s: string, k: nat)
    requires k < |SplitOnMarkers(s)| && k % 2 == 1
    ensures IsMarker(SplitOnMarkers(s)[k])
    decreases |s|
  {
    assert FirstMarker(s).Some?;
    var i, j := FirstMarker(s).value.0, FirstMarker(s).value.1;
    SplitOnMarkersStep(s);
    PieceAfterTwo(SplitOnMarkers(s), s[..i], s[i..j], SplitOnMarkers(s[j..]), k);
    if k == 1 {
      FirstMarkerFound(s);
    } else {
      SplitOnMarkersMarker(s[j..], k - 2);
    }
  }

  /** The text before the first marker holds no marker. */
  lemma TextBeforeFirstMarker(s: string)
    requires FirstMarker(s).Some?
    ensures !ContainsMarker(s[..FirstMarker(s).value.0])
  {
    var i := FirstMarker(s).value.0;
    FirstMarkerFound(s);
    if ContainsMarker(s[..i]) {
      var a, b :| MarkerAt(s[..i], a, b);
      assert s[..i] == s[0..i];
      MarkerInSlice(s, 0, i, a, b);
    }
  }

  /** The even pieces contain no marker: each event segment runs up to the
      next marker or to the end of the block. */
  lemma {:induction false} SplitOnMarkersSegment(s: string, k: nat)
    requires k < |SplitOnMarkers(s)| && k % 2 == 0
    ensures !ContainsMarker(SplitOnMarkers(s)[k])
    decreases |s|
  {
    if FirstMarker(s).None? {
      FirstMarkerNone(s);
    } else {
      var i, j := FirstMarker(s).value.0, FirstMarker(s).value.1;
      SplitOnMarkersStep(s);
      PieceAfterTwo(SplitOnMarkers(s), s[..i], s[i..j], SplitOnMarkers(s[j..]), k);
      if k == 0 {
        TextBeforeFirstMarker(s);
      } else {
        SplitOnMarkersSegment(s[j..], k - 2);
      }
    }
  }

  // ===========================================================================
  // The bolding rule of main.py:78: `(\[evento\d+\])\s+(\S+)` -> `\1 **\2**`

  /** Length of the run of non-space characters at the start of `s` (`\S+`). */
  function NonSpaceRun(s: string): (n: nat)
    ensures n <= |s| && (forall k :: 0 <= k < n ==> !IsSpace(s[k]))
    ensures n < |s| ==> IsSpace(s[n])
    decreases |s|
  {
    if |s| == 0 || IsSpace(s[0]) then 0 else 1 + NonSpaceRun(s[1..])
  }

  /** A match of the bolding pattern at the start of `s`: how many characters
      it takes and what replaces them. A match needs a marker at the head. */
  function BoldAtHead(s: string): (r: Option<(nat, string)>)
    ensures r.Some? ==> MarkerAtHead(s).Some? && 0 < r.value.0 <= |s|
  {
    match MarkerAtHead(s)
    case None => None
    case Some(m) =>
      var w := LeadingSpaces(s[m..]);
      var n := NonSpaceRun(s[m + w..]);
      if w >= 1 && n >= 1 then
        Some((m + w + n, s[..m] + " **" + s[m + w..m + w + n] + "**"))
      else None
  }

  /** `re.sub(r'(\[evento\d+\])\s+(\S+)', r'\1 **\2**', s)`. */
  function Bold(s: string): string
    decreases |s|
  {
    if |s| == 0 then ""
    else
      match BoldAtHead(s)
      case Some((k, rep)) => rep + Bold(s[k..])
      case None => [s[0]] + Bold(s[1..])
  }

  /** The bolding rule changes nothing in a text without an event marker. */
  lemma {:induction false} BoldWithoutMarker(s: string)
    requires !ContainsMarker(s)
    ensures Bold(s) == s
    decreases |s|
  {
    if |s| > 0 {
      MarkerAtHeadSpec(s);
      assert s[1..] == s[1..|s|];
      NoMarkerInSlice(s, 1, |s|);
      BoldWithoutMarker(s[1..]);
      assert s == [s[0]] + s[1..];
    }
  }

  // ===========================================================================
  // Links: `\[linki\](https?://[^\s\[]+)\[linke\](\S+)` -> `[\2](\1)`

  /** A character `[^\s\[]` accepts. */
  predicate IsUrlChar(c: char) {
    !IsSpace(c) && c != '['
  }

  /** Length of the run of URL characters at the start of `s`. */
  function UrlRun(s: string): (n: nat)
    ensures n <= |s| && (forall k :: 0 <= k < n ==> IsUrlChar(s[k]))
    ensures n < |s| ==> !IsUrlChar(s[n])
    decreases |s|
  {
    if |s| == 0 || !IsUrlChar(s[0]) then 0 else 1 + UrlRun(s[1..])
  }

  /** `https?://` followed by at least one more character. */
  predicate HasHttpScheme(u: string) {
    (|u| > 8 && u[..8] == "https://") || (|u| > 7 && u[..7] == "http://")
  }

  /** A URL the link pattern accepts: a scheme and then URL characters only. */
  predicate IsLinkUrl(u: string) {
    HasHttpScheme(u) && forall k :: 0 <= k < |u| ==> IsUrlChar(u[k])
  }

  /** A caption the link pattern accepts: one or more non-space characters. */
  predicate IsLinkLabel(l: string) {
    |l| >= 1 && forall k :: 0 <= k < |l| ==> !IsSpace(l[k])
  }

  /** A match of the link pattern at the start of `s`: how many characters it
      takes and what replaces them. Both runs are greedy, so the URL ends at
      the first white space or `[`, and the caption at the first white space. */
  function LinkAtHead(s: string): (r: Option<(nat, string)>)
    ensures r.Some? ==> OccursAt(s, LinkOpen, 0) && 0 < r.value.0 <= |s|
  {
    var n := |LinkOpen|;
    if |s| >= n && s[..n] == LinkOpen then
      var u := UrlRun(s[n..]);
      var url := s[n..n + u];
      var a := n + u + |LinkSep|;
      if HasHttpScheme(url) && a <= |s| && s[n + u..a] == LinkSep then
        var m := NonSpaceRun(s[a..]);
        if m >= 1 then Some((a + m, "[" + s[a..a + m] + "](" + url + ")")) else None
      else None
    else None
  }

  /** `re.sub(r'\[linki\](https?://[^\s\[]+)\[linke\](\S+)', r'[\2](\1)', s)`. */
  function RewriteLinks(s: string): string
    decreases |s|
  {
    if |s| == 0 then ""
    else
      match LinkAtHead(s)
      case Some((k, rep)) => rep + RewriteLinks(s[k..])
      case None => [s[0]] + RewriteLinks(s[1..])
  }

  /** A text without `[linki]` is left as it is. */
  lemma {:induction false} RewriteLinksAbsent(s: string)
    requires !Contains(s, LinkOpen)
    ensures RewriteLinks(s) == s
    decreases |s|
  {
    if |s| > 0 {
      assert !OccursAt(s, LinkOpen, 0);
      assert !Contains(s[1..], LinkOpen) by {
        if Contains(s[1..], LinkOpen) {
          assert s[1..] == s[1..|s|];
          ContainsSlice(s, 1, |s|, LinkOpen);
        }
      }
      RewriteLinksAbsent(s[1..]);
      assert s == [s[0]] + s[1..];
    }
  }

  /** `[^\s\[]+` takes the whole URL, stopping at the `[` of `[linke]`. */
  lemma UrlRunOf(url: string, rest: string)
    requires forall k :: 0 <= k < |url| ==> IsUrlChar(url[k])
    requires |rest| > 0 && rest[0] == '['
    ensures UrlRun(url + rest) == |url|
  {
    var s := url + rest;
    assert forall k :: 0 <= k < |url| ==> s[k] == url[k];
    assert s[|url|] == rest[0];
  }

  /** `\S+` takes the whole caption when white space or the end follows it. */
  lemma NonSpaceRunOf(caption: string, rest: string)
    requires forall k :: 0 <= k < |caption| ==> !IsSpace(caption[k])
    requires |rest| == 0 || IsSpace(rest[0])
    ensures NonSpaceRun(caption + rest) == |caption|
  {
    var s := caption + rest;
    assert forall k :: 0 <= k < |caption| ==> s[k] == caption[k];
    assert |rest| > 0 ==> s[|caption|] == rest[0];
  }

  /** Where the pieces of a link text sit. */
  lemma LinkPieces(url: string, caption: string, rest: string)
    ensures var s := LinkOpen + url + LinkSep + caption + rest;
      var n := |LinkOpen|;
      var a := n + |url| + |LinkSep|;
      && s[..n] == LinkOpen
      && s[n..] == url + (LinkSep + caption + rest)
      && s[n..n + |url|] == url
      && s[n + |url|..a] == LinkSep
      && s[a..] == caption + rest
      && s[a..a + |caption|] == caption
      && s[a + |caption|..] == rest
  {
  }

  /** A well-formed link at the head of a text is one match. */
  lemma LinkAtHeadOf(url: string, caption: string, rest: string)
    requires IsLinkUrl(url) && IsLinkLabel(caption)
    requires |rest| == 0 || IsSpace(rest[0])
    ensures var s := LinkOpen + url + LinkSep + caption + rest;
      LinkAtHead(s) == Some((|s| - |rest|, "[" + caption + "](" + url + ")"))
  {
    var s := LinkOpen + url + LinkSep + caption + rest;
    var n := |LinkOpen|;
    var a := n + |url| + |LinkSep|;
    LinkPieces(url, caption, rest);
    UrlRunOf(url, LinkSep + caption + rest);
    assert UrlRun(s[n..]) == |url|;
    NonSpaceRunOf(caption, rest);
    assert NonSpaceRun(s[a..]) == |caption|;
    assert a + |caption| == |s| - |rest|;
  }


  /** Every well-formed link is rewritten to `[LABEL](URL)`, the caption being
      the whole run of non-space characters after `[linke]`. */
  lemma RewriteOneLink(url: string, caption: string, rest: string)
    requires IsLinkUrl(url) && IsLinkLabel(caption)
    requires |rest| == 0 || IsSpace(rest[0])
    ensures RewriteLinks(LinkOpen + url + LinkSep + caption + rest)
         == "[" + caption + "](" + url + ")" + RewriteLinks(rest)
  {
    LinkAtHeadOf(url, caption, rest);
    LinkPieces(url, caption, rest);
  }

  /** A whole match of the link pattern at the start of `s`: `[linki]`, the
      URL up to `i`, `[linke]`, and the caption up to `j`, which is the end of
      the text or white space (`\S+` is greedy). */
  predicate LinkAt(s: string, i: int, j: int) {
    && |LinkOpen| <= i
    && i + |LinkSep| <= j <= |s|
    && s[..|LinkOpen|] == LinkOpen
    && IsLinkUrl(s[|LinkOpen|..i])
    && s[i..i + |LinkSep|] == LinkSep
    && IsLinkLabel(s[i + |LinkSep|..j])
    && (j == |s| || IsSpace(s[j]))
  }

  /** The text starts with a link the pattern accepts. */
  ghost predicate StartsWithLink(s: string) {
    exists i, j :: LinkAt(s, i, j)
  }

  /** What the scanner matches at the head is a whole link. */
  lemma LinkAtHeadParts(s: string) returns (i: int, j: int)
    requires LinkAtHead(s).Some?
    ensures LinkAt(s, i, j)
  {
    var n := |LinkOpen|;
    var u := UrlRun(s[n..]);
    i := n + u;
    var a := i + |LinkSep|;
    var m := NonSpaceRun(s[a..]);
    j := a + m;
    assert s[n..i] == s[n..][..u];
    assert s[a..j] == s[a..][..m];
    assert m < |s[a..]| ==> s[a..][m] == s[j];
  }

  /** A whole link at the head is matched, and becomes `[LABEL](URL)`. */
  lemma LinkAtMatches(s: string, i: int, j: int)
    requires LinkAt(s, i, j)
    ensures LinkAtHead(s) == Some((j, "[" + s[i + |LinkSep|..j] + "](" + s[|LinkOpen|..i] + ")"))
  {
    var n := |LinkOpen|;
    var a := i + |LinkSep|;
    assert s[n..] == s[n..i] + s[i..];
    assert s[i..][0] == s[i..i + |LinkSep|][0];
    UrlRunOf(s[n..i], s[i..]);
    assert s[a..] == s[a..j] + s[j..];
    NonSpaceRunOf(s[a..j], s[j..]);
  }

  /** The scanner matches at the head exactly when a link starts the text:
      anything else that begins with `[linki]` (a URL without `http://` or
      `https://`, a missing `[linke]`, an empty caption) is not a match. */
  lemma LinkAtHeadIff(s: string)
    ensures LinkAtHead(s).Some? <==> StartsWithLink(s)
  {
    if LinkAtHead(s).Some? {
      var i, j := LinkAtHeadParts(s);
    }
    if StartsWithLink(s) {
      var i, j :| LinkAt(s, i, j);
      LinkAtMatches(s, i, j);
    }
  }

  /** Where no link starts, the first character is kept and the scan moves on. */
  lemma RewriteLinksSkip(s: string)
    requires |s| > 0 && !StartsWithLink(s)
    ensures RewriteLinks(s) == [s[0]] + RewriteLinks(s[1..])
  {
    LinkAtHeadIff(s);
  }

  /** Text in which no link starts anywhere is left as it is, whatever
      `[linki]` it holds. */
  lemma {:induction false} RewriteLinksNoLink(s: string)
    requires forall k :: 0 <= k <= |s| ==> !StartsWithLink(s[k..])
    ensures RewriteLinks(s) == s
    decreases |s|
  {
    if |s| > 0 {
      var tail := s[1..];
      NoLinkInTail(s);
      RewriteLinksSkip(s);
      RewriteLinksNoLink(tail);
      assert s == [s[0]] + tail;
    }
  }

  lemma NoLinkInTail(s: string)
    requires |s| > 0
    requires forall k :: 0 <= k <= |s| ==> !StartsWithLink(s[k..])
    ensures !StartsWithLink(s)
    ensures forall k :: 0 <= k <= |s| - 1 ==> !StartsWithLink(s[1..][k..])
  {
    assert s[0..] == s;
    forall k | 0 <= k <= |s| - 1 ensures !StartsWithLink(s[1..][k..]) {
      assert s[1..][k..] == s[1 + k..];
    }
  }

  /** Text before the first link is copied as it is. */
  lemma {:induction false} RewriteLinksKeepsPrefix(pre: string, s: string)
    requires forall k :: 0 <= k < |pre| ==> !StartsWithLink((pre + s)[k..])
    ensures RewriteLinks(pre + s) == pre + RewriteLinks(s)
    decreases |pre|
  {
    var t := pre + s;
    if |pre| == 0 {
      assert t == s;
    } else {
      var tail := pre[1..];
      assert t[0..] == t;
      RewriteLinksSkip(t);
      assert t[1..] == tail + s;
      forall k | 0 <= k < |tail| ensures !StartsWithLink((tail + s)[k..]) {
        assert (tail + s)[k..] == t[1 + k..];
      }
      RewriteLinksKeepsPrefix(tail, s);
      var r := RewriteLinks(s);
      assert RewriteLinks(t) == [t[0]] + (tail + r);
      assert t[0] == pre[0] && pre == [pre[0]] + tail;
      ConsAppend(pre[0], tail, r);
    }
  }

  lemma ConsAppend<T>(x: T, xs: seq<T>, ys: seq<T>)
    ensures [x] + (xs + ys) == ([x] + xs) + ys
  {
  }

  /** A link starts with `[`. */
  lemma NoLinkWithoutBracket(s: string)
    requires |s| == 0 || s[0] != '['
    ensures !StartsWithLink(s)
  {
    if |s| >= |LinkOpen| {
      assert s[..|LinkOpen|][0] == s[0];
    }
  }

  /** A link after leading text without `[` (an announcement line such as
      `Mint opens now [linki]…`): the text is kept and the link rewritten. */
  lemma RewriteLinkAfterText(pre: string, url: string, caption: string, rest: string)
    requires '[' !in pre
    requires IsLinkUrl(url) && IsLinkLabel(caption)
    requires |rest| == 0 || IsSpace(rest[0])
    ensures RewriteLinks(pre + (LinkOpen + url + LinkSep + caption + rest))
         == pre + ("[" + caption + "](" + url + ")" + RewriteLinks(rest))
  {
    var s := LinkOpen + url + LinkSep + caption + rest;
    var t := pre + s;
    forall k | 0 <= k < |pre| ensures !StartsWithLink(t[k..]) {
      assert t[k..][0] == pre[k];
      NoLinkWithoutBracket(t[k..]);
    }
    RewriteLinksKeepsPrefix(pre, s);
    RewriteOneLink(url, caption, rest);
  }

  // ===========================================================================
  // The `)(` separator: `.replace(')(', ') - (')`

  /** When the replacement starts like the pattern, the output starts like the input. */
  lemma ReplaceKeepsFirst(s: string, pat: string, rep: string)
    requires |pat| > 0 && |rep| > 0 && rep[0] == pat[0] && |s| > 0
    ensures |Replace(s, pat, rep)| > 0 && Replace(s, pat, rep)[0] == s[0]
  {
  }

  /** After the rewrite no `)(` is left: every one found is separated, and
      the separator cannot create a new one. */
  lemma {:induction false} NoParenJoinLeft(s: string)
    ensures !Contains(Replace(s, ParenJoin, ParenSeparated), ParenJoin)
    decreases |s|
  {
    if |s| < 2 {
    } else if s[..2] == ParenJoin {
      var t := s[2..];
      NoParenJoinLeft(t);
      CleanAfterSeparator(Replace(s, ParenJoin, ParenSeparated), Replace(t, ParenJoin, ParenSeparated));
    } else {
      var t := s[1..];
      NoParenJoinLeft(t);
      ReplaceKeepsFirst(t, ParenJoin, ParenSeparated);
      assert s[..2] == [s[0], s[1]];
      CleanAfterChar(Replace(s, ParenJoin, ParenSeparated), s[0], Replace(t, ParenJoin, ParenSeparated));
    }
  }

  /** The separator followed by a text without `)(` has none. */
  lemma CleanAfterSeparator(o: string, ot: string)
    requires o == ParenSeparated + ot && !Contains(ot, ParenJoin)
    ensures !Contains(o, ParenJoin)
  {
    forall k | 0 <= k <= |o| - 2 ensures !OccursAt(o, ParenJoin, k) {
      if k >= 5 {
        assert o[k..k + 2] == ot[k - 5..k - 3];
        assert !OccursAt(ot, ParenJoin, k - 5);
      } else {
        assert o[..|ParenSeparated|] == ParenSeparated;
        SeparatorHasNoJoin(o, k);
      }
    }
  }

  /** No `)(` starts inside the separator `) - (`. */
  lemma SeparatorHasNoJoin(o: string, k: int)
    requires |o| >= |ParenSeparated| && o[..|ParenSeparated|] == ParenSeparated
    requires 0 <= k < |ParenSeparated|
    ensures !OccursAt(o, ParenJoin, k)
  {
    assert o[k] == ParenSeparated[k];
    if k < 4 {
      assert o[k + 1] == ParenSeparated[k + 1];
    }
  }

  /** One character followed by a text without `)(` has none, unless the
      two form one. */
  lemma CleanAfterChar(o: string, c: char, ot: string)
    requires o == [c] + ot && !Contains(ot, ParenJoin)
    requires |ot| > 0 ==> [c, ot[0]] != ParenJoin
    ensures !Contains(o, ParenJoin)
  {
    forall k | 0 <= k <= |o| - 2 ensures !OccursAt(o, ParenJoin, k) {
      if k >= 1 {
        assert o[k..k + 2] == ot[k - 1..k + 1];
        assert !OccursAt(ot, ParenJoin, k - 1);
      } else {
        assert o[..2] == [c, ot[0]];
      }
    }
  }

  // ===========================================================================
  // One event segment (main.py:77-86)

  /** The value of the field an event segment becomes, and the text it adds
      to the button list (none, or the one segment). */
  datatype Rendered = Rendered(value: string, remembered: seq<string>)

  /** Lines 77-85 on one segment: trim, bold, capture and strip
      `[remember]`, rewrite links, separate `)(`. */
  function RenderEvent(segment: string): Rendered {
    var t := Bold(Strip(segment));
    var remembered := if Contains(t, RememberTag) then [t] else [];
    var u := if Contains(t, RememberTag) then Strip(Replace(t, RememberTag, "")) else t;
    Rendered(Replace(RewriteLinks(u), ParenJoin, ParenSeparated), remembered)
  }

  /** A rendered segment shows no `)(`, and adds at most one text to the
      button list, one that carries the tag. */
  lemma RenderEventShape(segment: string)
    ensures var e := RenderEvent(segment);
      && !Contains(e.value, ParenJoin)
      && |e.remembered| <= 1
      && forall t :: t in e.remembered ==> Contains(t, RememberTag)
  {
    var t := Bold(Strip(segment));
    var u := if Contains(t, RememberTag) then Strip(Replace(t, RememberTag, "")) else t;
    NoParenJoinLeft(RewriteLinks(u));
  }

  /** The loop body on one segment, statement by statement. */
  method RenderSegment(segment: string) returns (e: Rendered)
    ensures e == RenderEvent(segment)
  {
    var remembered: seq<string> := [];
    var texto := Strip(segment);
    texto := Bold(texto);
    if Contains(texto, RememberTag) {
      remembered := remembered + [texto];
      texto := Strip(Replace(texto, RememberTag, ""));
    }
    texto := RewriteLinks(texto);
    texto := Replace(texto, ParenJoin, ParenSeparated);
    return Rendered(texto, remembered);
  }

  /** A segment cut out by the marker split: the bolding rule has nothing to
      act on, so the button text is exactly the trimmed segment, captured
      before any `[remember]` stripping or link rewriting. */
  lemma SegmentRendering(segment: string)
    requires !ContainsMarker(segment)
    ensures var t := Strip(segment);
      && Bold(t) == t
      && RenderEvent(segment).remembered == (if Contains(t, RememberTag) then [t] else [])
      && RenderEvent(segment).value
         == Replace(RewriteLinks(if Contains(t, RememberTag) then Strip(Replace(t, RememberTag, "")) else t),
                    ParenJoin, ParenSeparated)
  {
    var a := LeadingSpaces(segment);
    NoMarkerInSlice(segment, a, a + |Strip(segment)|);
    BoldWithoutMarker(Strip(segment));
  }

  /** A segment with no tag, no link and no `)(` is shown as its trimmed text. */
  lemma PlainSegment(segment: string)
    requires !ContainsMarker(segment)
    requires !Contains(segment, RememberTag) && !Contains(segment, LinkOpen) && !Contains(segment, ParenJoin)
    ensures RenderEvent(segment) == Rendered(Strip(segment), [])
  {
    var t := Strip(segment);
    SegmentRendering(segment);
    if Contains(t, RememberTag) { ContainsStrip(segment, RememberTag); }
    if Contains(t, LinkOpen) { ContainsStrip(segment, LinkOpen); }
    if Contains(t, ParenJoin) { ContainsStrip(segment, ParenJoin); }
    RewriteLinksAbsent(t);
    ReplaceAbsent(t, ParenJoin, ParenSeparated);
  }

  /** `str.replace` makes one pass: removing `[remember]` can join the text
      around it into a new `[remember]`, which then stays in the field. */
  lemma RememberStripIsOnePass()
    ensures Replace("[rem" + RememberTag + "ember]", RememberTag, "") == RememberTag
  {
    var s := "[rem" + RememberTag + "ember]";
    var t := RememberTag + "ember]";
    OnePassMismatch(s);
    OnePassPieces(s);
    ReplaceKeepsPrefix(s, RememberTag, "", 4);
    assert Replace(s, RememberTag, "") == s[..4] + Replace(t, RememberTag, "");
    ReplaceHeadMatch(t, RememberTag, "");
    assert Replace(t, RememberTag, "") == Replace("ember]", RememberTag, "");
    assert Replace("ember]", RememberTag, "") == "ember]";
  }

  /** No tag starts in the first four characters of the example. */
  lemma OnePassMismatch(s: string)
    requires s == "[rem" + RememberTag + "ember]"
    ensures forall i :: 0 <= i < 4 ==> !OccursAt(s, RememberTag, i)
  {
    assert s[0..10][4] == '[';
    assert s[1..11][0] == 'r';
    assert s[2..12][0] == 'e';
    assert s[3..13][0] == 'm';
  }

  /** The example is a tag with another tag inserted after its fourth
      character: `[rem[remember]ember]`. */
  lemma OnePassPieces(s: string)
    requires s == "[rem" + RememberTag + "ember]"
    ensures s[4..] == RememberTag + "ember]" && (RememberTag + "ember]")[10..] == "ember]"
    ensures s[..4] + "ember]" == RememberTag
  {
  }

  // ===========================================================================
  // The whole message (main.py:67-86)

  /** The field and the button texts one segment contributes. */
  function SegmentParsed(segment: string): Parsed {
    var e := RenderEvent(segment);
    Parsed([Field("", e.value)], e.remembered)
  }

  /** The fields and button texts of the first `k` events of one marker
      split: event `j` (from 1) is the piece `eventos[2 * j]` that follows
      the `j`-th marker, as the loop over `range(1, len(eventos), 2)` reads
      `eventos[i + 1]`. */
  function Events(eventos: seq<string>, k: nat): (p: Parsed)
    requires 2 * k < |eventos|
    ensures |p.fields| == k
  {
    if k == 0 then Parsed([], [])
    else Append(Events(eventos, k - 1), SegmentParsed(eventos[2 * k]))
  }

  /** All the events of one marker split; `re.split` with one group always
      yields an odd number of pieces. */
  function EventsResult(eventos: seq<string>): (p: Parsed)
    requires |eventos| % 2 == 1
    ensures 2 * |p.fields| + 1 == |eventos|
  {
    Events(eventos, PairCount(|eventos|))
  }

  /** The number of marker/segment pairs after the leading text. */
  function PairCount(n: nat): (k: nat)
    requires n % 2 == 1
    ensures 2 * k + 1 == n
  {
    n / 2
  }

  /** Every event field is unnamed, and the button list holds at most one
      text per field, each carrying the tag. */
  lemma {:induction false} EventsShape(eventos: seq<string>, k: nat)
    requires 2 * k < |eventos|
    ensures var p := Events(eventos, k);
      && (forall f :: f in p.fields ==> f.name == "")
      && |p.eligible| <= |p.fields|
      && (forall t :: t in p.eligible ==> Contains(t, RememberTag))
    decreases k
  {
    if k > 0 {
      EventsShape(eventos, k - 1);
      RenderEventShape(eventos[2 * k]);
    }
  }

  /** The text before the first marker (`eventos[0]`) is never read. */
  lemma {:induction false} EventsIgnoreLeadingText(eventos: seq<string>, lead: string, k: nat)
    requires 2 * k < |eventos|
    ensures |[lead] + eventos[1..]| == |eventos|
    ensures Events([lead] + eventos[1..], k) == Events(eventos, k)
    decreases k
  {
    if k > 0 {
      EventsIgnoreLeadingText(eventos, lead, k - 1);
      ReplaceHeadAt(eventos, lead, 2 * k);
    }
  }

  /** The inner loop of lines 76-86 over the pieces of one marker split. */
  method ParseEvents(eventos: seq<string>) returns (p: Parsed)
    requires |eventos| % 2 == 1
    ensures p == EventsResult(eventos)
  {
    p := Parsed([], []);
    var m := PairCount(|eventos|);
    var k: nat := 0;
    while k < m
      invariant k <= m
      invariant p == Events(eventos, k)
    {
      EventsStep(eventos, k);
      var e := RenderSegment(eventos[2 * k + 2]);
      p := Append(p, Parsed([Field("", e.value)], e.remembered));
      k := k + 1;
    }
  }

  /** One more event appends the field of the segment after the next marker. */
  lemma EventsStep(eventos: seq<string>, k: nat)
    requires 2 * k + 2 < |eventos|
    ensures Events(eventos, k + 1) == Append(Events(eventos, k), SegmentParsed(eventos[2 * k + 2]))
  {
    var j := k + 1;
    var seg := eventos[2 * k + 2];
    assert eventos[2 * j] == seg;
    var prev := Events(eventos, k);
    assert Events(eventos, j - 1) == prev;
    assert Events(eventos, j) == Append(prev, SegmentParsed(seg));
  }

  /** Replacing the head of a sequence keeps every later element. */
  lemma ReplaceHeadAt<T>(xs: seq<T>, x: T, j: nat)
    requires 1 <= j < |xs|
    ensures |[x] + xs[1..]| == |xs| && ([x] + xs[1..])[j] == xs[j]
  {
  }

  /** Indexing past the first two pieces of `[a, b] + rest`. */
  lemma PieceAfterTwo<T>(whole: seq<T>, a: T, b: T, rest: seq<T>, i: nat)
    requires whole == [a, b] + rest && i < |whole|
    ensures |whole| == |rest| + 2 && whole[0] == a && whole[1] == b
    ensures i >= 2 ==> whole[i] == rest[i - 2] && (i - 2) % 2 == i % 2
    ensures i % 2 == 0 && i != 0 ==> i >= 2
    ensures i % 2 == 1 && i != 1 ==> i >= 2
  {
  }

  /** The last element of a prefix, and the prefix before it. */
  lemma PrefixStep<T>(xs: seq<T>, n: nat)
    requires 0 < n <= |xs|
    ensures xs[..n][..n - 1] == xs[..n - 1] && xs[..n][n - 1] == xs[n - 1]
    ensures n >= 2 ==> xs[..n][..n - 2] == xs[..n - 2]
  {
  }

  lemma PrefixAll<T>(xs: seq<T>)
    ensures xs[..|xs|] == xs
  {
  }

  /** The line-71 test: both marker strings occur somewhere in the block. */
  predicate LooksLikeHeading(bloque: string) {
    Contains(bloque, TitleOpen) && Contains(bloque, TitleClose)
  }

  /** One iteration of the outer loop (lines 71-86). */
  function BlockResult(bloque: string): (r: Result<Parsed, ParseError>)
    ensures r.Failure? ==> LooksLikeHeading(bloque)
    ensures LooksLikeHeading(bloque) && r.Success? ==> |r.value.fields| == 1 && r.value.eligible == []
  {
    if LooksLikeHeading(bloque) then
      match HeadingSearch(bloque)
      case None => Failure(NoTitleMatch(bloque))
      case Some((p, q)) => Success(Parsed([Field(bloque[p + |TitleOpen|..q], "")], []))
    else
      Success(EventsResult(SplitOnMarkers(bloque)))
  }

  /** The outer loop over the first pieces of the split, in order; the first
      block that raises ends the whole handler. */
  function BlocksResult(bloques: seq<string>): (r: Result<Parsed, ParseError>)
    ensures r.Failure? ==> exists i :: 0 <= i < |bloques| && BlockResult(bloques[i]) == r
    decreases |bloques|
  {
    if |bloques| == 0 then Success(Parsed([], []))
    else
      match BlocksResult(bloques[..|bloques| - 1])
      case Failure(e) => Failure(e)
      case Success(prev) =>
        match BlockResult(bloques[|bloques| - 1])
        case Failure(e) => Failure(e)
        case Success(b) => Success(Append(prev, b))
  }

  /** What `on_message` computes from `message.content` before sending. */
  function ParseAnnouncement(content: string): Result<Parsed, ParseError> {
    BlocksResult(SplitTitles(content))
  }

  /** A block added after a failure leaves the failure as it is. */
  lemma BlocksResultAfterFailure(bloques: seq<string>)
    requires |bloques| > 0 && BlocksResult(bloques[..|bloques| - 1]).Failure?
    ensures BlocksResult(bloques) == BlocksResult(bloques[..|bloques| - 1])
  {
  }

  /** Once a block has raised, later blocks change nothing. */
  lemma {:induction false} FailureIsFinal(bloques: seq<string>, k: nat)
    requires k <= |bloques| && BlocksResult(bloques[..k]).Failure?
    ensures BlocksResult(bloques) == BlocksResult(bloques[..k])
    decreases |bloques| - k
  {
    if k < |bloques| {
      var init := bloques[..|bloques| - 1];
      assert bloques[..k] == init[..k];
      FailureIsFinal(init, k);
      BlocksResultAfterFailure(bloques);
    } else {
      assert bloques[..k] == bloques;
    }
  }

  /** Some block raises. */
  ghost predicate SomeBlockFails(bloques: seq<string>) {
    exists i :: 0 <= i < |bloques| && BlockResult(bloques[i]).Failure?
  }

  /** The loop fails exactly when one of its blocks does. */
  lemma {:induction false} BlocksFailIff(bloques: seq<string>)
    ensures BlocksResult(bloques).Failure? <==> SomeBlockFails(bloques)
    decreases |bloques|
  {
    if |bloques| > 0 {
      var n := |bloques|;
      var init := bloques[..n - 1];
      BlocksFailIff(init);
      assert BlocksResult(bloques).Failure?
        <==> BlocksResult(init).Failure? || BlockResult(bloques[n - 1]).Failure?;
      if SomeBlockFails(init) {
        var i :| 0 <= i < |init| && BlockResult(init[i]).Failure?;
        assert bloques[i] == init[i];
      }
      if SomeBlockFails(bloques) {
        var i :| 0 <= i < n && BlockResult(bloques[i]).Failure?;
        if i < n - 1 {
          assert init[i] == bloques[i];
        }
      }
    }
  }

  /** A block that is not a heading and holds no event marker adds no field
      and no button text. */
  lemma NoMarkerNoEvents(bloque: string)
    requires !ContainsMarker(bloque) && !LooksLikeHeading(bloque)
    ensures BlockResult(bloque) == Success(Parsed([], []))
  {
    FirstMarkerNone(bloque);
    assert SplitOnMarkers(bloque) == [bloque];
  }

  /** A heading span whose inner text holds no line break becomes one field
      named by that inner text, with an empty value, and adds no button text. */
  lemma HeadingBlock(w: string)
    requires IsTitleSpan(w)
    ensures w == TitleOpen + TitleInner(w) + TitleClose
    ensures '\n' !in TitleInner(w) ==> BlockResult(w) == Success(Parsed([Field(TitleInner(w), "")], []))
    ensures '\n' !in TitleInner(w) ==> HasLineSpan(w)
  {
    var c := |w| - |TitleClose|;
    assert OccursAt(w, TitleOpen, 0);
    assert OccursAt(w, TitleClose, c);
    assert w == w[..|TitleOpen|] + w[|TitleOpen|..c] + w[c..];
    assert LooksLikeHeading(w);
    if '\n' !in TitleInner(w) {
      assert LineSpan(w, 0, c) && MatchesAt(w, 0);
      LineSpanAtSpec(w, 0);
      assert LineSpanAt(w, 0) == Some(c);
    }
  }

  /** The closing marker of a heading span is the only one after its
      opening marker. */
  lemma SpanCloseIsLast(w: string, q: int)
    requires IsTitleSpan(w) && OccursAt(w, TitleClose, q) && |TitleOpen| <= q
    ensures q == |w| - |TitleClose|
  {
  }

  /** A heading span whose inner text holds a line break: the search of
      line 72 either finds nothing, and the handler raises, or matches from a
      later opening marker that lies on the last line of the span, and the
      field is named by the text after that marker. */
  lemma HeadingWithBreak(w: string)
    requires IsTitleSpan(w) && '\n' in TitleInner(w)
    ensures BlockResult(w).Failure? <==> !HasLineSpan(w)
    ensures BlockResult(w).Success? ==>
      && HeadingSearch(w).Some?
      && var p, c := HeadingSearch(w).value.0, |w| - |TitleClose|;
      && 0 < p
      && OccursAt(w, TitleOpen, p)
      && '\n' !in w[p + |TitleOpen|..c]
      && BlockResult(w) == Success(Parsed([Field(w[p + |TitleOpen|..c], "")], []))
  {
    var c := |w| - |TitleClose|;
    assert OccursAt(w, TitleOpen, 0);
    assert OccursAt(w, TitleClose, c);
    assert LooksLikeHeading(w);
    assert w[|TitleOpen|..c] == TitleInner(w);
    HeadingSearchNone(w);
    if HeadingSearch(w).Some? {
      var p, q := HeadingSearch(w).value.0, HeadingSearch(w).value.1;
      HeadingSearchFound(w);
      assert LineSpan(w, p, q);
      SpanCloseIsLast(w, q);
      assert q == c && '\n' !in w[p + |TitleOpen|..c];
      assert BlockResult(w) == Success(Parsed([Field(w[p + |TitleOpen|..c], "")], []));
    }
  }

  /** The heading `a`, a line break, `b`: the search of line 72 finds no
      match and the handler raises. */
  lemma BrokenHeadingRaises()
    ensures BlockResult(TitleOpen + "a\nb" + TitleClose) == Failure(NoTitleMatch(TitleOpen + "a\nb" + TitleClose))
  {
    var w := TitleOpen + "a\nb" + TitleClose;
    assert |w| == 28;
    assert w[..|TitleOpen|] == TitleOpen;
    assert w[|w| - |TitleClose|..] == TitleClose;
    assert w[|TitleOpen|..|w| - |TitleClose|] == "a\nb";
    forall k | |TitleOpen| <= k < |w| - |TitleClose| ensures !OccursAt(w, TitleClose, k) {
      assert w[k..k + |TitleClose|][0] == w[k] != '[';
    }
    assert IsTitleSpan(w);
    assert w[1] == TitleOpen[1] && w[2] == TitleOpen[2] && w[3] == TitleOpen[3];
    forall p, q | OccursAt(w, TitleOpen, p) && OccursAt(w, TitleClose, q) && p + |TitleOpen| <= q
      ensures '\n' in w[p + |TitleOpen|..q]
    {
      assert w[p..p + |TitleOpen|][0] == w[p] == '[';
      SpanCloseIsLast(w, q);
    }
    HeadingWithBreak(w);
  }

  /** A heading span on which the search of line 72 finds nothing: every
      opening marker in it is cut off from the closing marker by a line
      break. */
  ghost predicate BrokenHeading(w: string) {
    IsTitleSpan(w) && !HasLineSpan(w)
  }

  /** `on_message` raises exactly when the last piece of the heading split
      holds both marker strings, or an earlier heading span is broken by line
      breaks. In the last piece every closing marker comes before the first
      opening one, so the line-71 test passes but the search finds nothing. */
  lemma ParseFailsIff(content: string)
    ensures var r := SplitTitles(content);
      && (ParseAnnouncement(content).Failure? <==>
           LooksLikeHeading(r[|r| - 1]) || exists i :: 0 <= i < |r| - 1 && BrokenHeading(r[i]))
      && !HasTitleSpan(r[|r| - 1])
  {
    var r := SplitTitles(content);
    var n := |r|;
    var last := r[n - 1];
    SplitTitlesLast(content);
    if HasLineSpan(last) {
      LineSpanIsTitleSpan(last);
    }
    BlockFails(last);
    forall i | 0 <= i < n - 1 ensures BlockResult(r[i]).Failure? <==> BrokenHeading(r[i]) {
      InnerPieceRaises(content, i);
    }
    BlocksFailIff(r);
    if SomeBlockFails(r) && !LooksLikeHeading(last) {
      var i :| 0 <= i < n && BlockResult(r[i]).Failure?;
      assert i < n - 1 && BrokenHeading(r[i]);
    }
    if exists i :: 0 <= i < n - 1 && BrokenHeading(r[i]) {
      var i :| 0 <= i < n - 1 && BrokenHeading(r[i]);
      assert BlockResult(r[i]).Failure?;
    }
    if LooksLikeHeading(last) {
      assert BlockResult(r[n - 1]).Failure?;
    }
  }

  /** A block raises exactly when it passes the line-71 test but the search
      of line 72 finds no span in it. */
  lemma BlockFails(bloque: string)
    ensures BlockResult(bloque).Failure? <==> LooksLikeHeading(bloque) && !HasLineSpan(bloque)
  {
    HeadingSearchNone(bloque);
  }

  /** A piece of the heading split other than the last raises exactly when it
      is a broken heading span, one whose inner text holds a line break; a
      text piece fails the line-71 test and never raises. */
  lemma InnerPieceRaises(content: string, i: nat)
    requires i < |SplitTitles(content)| - 1
    ensures var w := SplitTitles(content)[i];
      && (BlockResult(w).Failure? <==> BrokenHeading(w))
      && (BrokenHeading(w) ==> i % 2 == 1 && '\n' in TitleInner(w))
  {
    var w := SplitTitles(content)[i];
    if i % 2 == 1 {
      SplitTitlesHeading(content, i);
      HeadingBlock(w);
      if '\n' in TitleInner(w) {
        HeadingWithBreak(w);
      }
    } else {
      SplitTitlesText(content, i);
      assert !LooksLikeHeading(w);
      if IsTitleSpan(w) {
        assert OccursAt(w, TitleOpen, 0);
      }
    }
  }

  /** One pass of the outer loop (lines 71-86) on one block. */
  method ParseBlock(bloque: string) returns (r: Result<Parsed, ParseError>)
    ensures r == BlockResult(bloque)
  {
    if Contains(bloque, TitleOpen) && Contains(bloque, TitleClose) {
      var m := HeadingSearch(bloque);
      if m.None? {
        return Failure(NoTitleMatch(bloque));
      }
      var titulo := bloque[m.value.0 + |TitleOpen|..m.value.1];
      return Success(Parsed([Field(titulo, "")], []));
    }
    var eventos := SplitOnMarkers(bloque);
    var p := ParseEvents(eventos);
    return Success(p);
  }

  /** One more block extends the fields and button texts, unless it raises. */
  lemma BlocksResultStep(bloques: seq<string>, b: nat)
    requires b < |bloques|
    ensures BlocksResult(bloques[..b + 1]) ==
      match BlocksResult(bloques[..b])
      case Failure(e) => Failure(e)
      case Success(prev) =>
        match BlockResult(bloques[b])
        case Failure(e) => Failure(e)
        case Success(x) => Success(Append(prev, x))
  {
    PrefixStep(bloques, b + 1);
  }

  /** The steps of `on_message` that build the embed and the button list
      (main.py:66-86): the outer loop over the heading split, in order,
      stopping at the first block that raises. */
  method Parse(content: string) returns (r: Result<Parsed, ParseError>)
    ensures r == ParseAnnouncement(content)
  {
    var fields: seq<Field> := [];
    var eligible: seq<string> := [];
    var bloques := SplitTitles(content);
    for b := 0 to |bloques|
      invariant BlocksResult(bloques[..b]) == Success(Parsed(fields, eligible))
    {
      var x := ParseBlock(bloques[b]);
      BlocksResultStep(bloques, b);
      if x.Failure? {
        FailureIsFinal(bloques, b + 1);
        return x;
      }
      fields := fields + x.value.fields;
      eligible := eligible + x.value.eligible;
    }
    PrefixAll(bloques);
    return Success(Parsed(fields, eligible));
  }

  // ---------------------------------------------------------------------------
  // on_message, up to the send

  /** The announcement part of `on_message`: the parse, then a view of
      reminder buttons when some segment was tagged `[remember]`. */
  method OnMessage(content: string) returns (r: Result<Parsed, ParseError>, view: ReminderTasks.ReminderView?)
    ensures r == ParseAnnouncement(content)
    ensures view != null <==> r.Success? && r.value.eligible != []
    ensures view != null ==> fresh(view) && view.children == ReminderTasks.ButtonsFor(r.value.eligible)
  {
    r := Parse(content);
    view := null;
    if r.Success? && r.value.eligible != [] {
      view := new ReminderTasks.ReminderView(r.value.eligible);
    }
  }
}
