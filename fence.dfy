/** The code-fence cleanup of a model reply:
    `re.sub(r"```html\s*([\s\S]*?)```", r"\1", text)`, written out as the
    left-to-right scan Python's regular-expression engine performs. The scan
    tests the two markers character by character; OpensAtMeans and
    ClosesAtMeans tie these tests to the marker strings. */
module Fence {
  import opened Text

  /** The opening marker of the pattern. */
  const Open := "```html"
  /** The closing marker of the pattern. */
  const Close := "```"

  /** The opening marker, 7 characters, starts at index i of s. */
  predicate OpensAt(s: string, i: nat) {
    && i + 7 <= |s|
    && s[i] == '`' && s[i + 1] == '`' && s[i + 2] == '`'
    && s[i + 3] == 'h' && s[i + 4] == 't' && s[i + 5] == 'm' && s[i + 6] == 'l'
  }

  /** The closing marker, 3 characters, starts at index i of s. */
  predicate ClosesAt(s: string, i: nat) {
    i + 3 <= |s| && s[i] == '`' && s[i + 1] == '`' && s[i + 2] == '`'
  }

  lemma OpensAtMeans(s: string, i: nat)
    ensures OpensAt(s, i) <==> OccursAt(s, Open, i)
  {
    if i + 7 <= |s| {
      var w := s[i..i + 7];
      assert forall j :: 0 <= j < 7 ==> w[j] == s[i + j];
      assert OpensAt(s, i) <==> w == Open;
    }
  }

  lemma ClosesAtMeans(s: string, i: nat)
    ensures ClosesAt(s, i) <==> OccursAt(s, Close, i)
  {
    if i + 3 <= |s| {
      var w := s[i..i + 3];
      assert forall j :: 0 <= j < 3 ==> w[j] == s[i + j];
      assert ClosesAt(s, i) <==> w == Close;
    }
  }

  /** The first index k >= i at which the closing marker starts, if any
      (FindCloseFirst states that it is the first). */
  function FindClose(s: string, i: nat): (r: Option<nat>)
    requires i <= |s|
    decreases |s| - i
    ensures r.Some? ==> i <= r.value && r.value + 3 <= |s|
  {
    if ClosesAt(s, i) then Some(i)
    else if i == |s| then None
    else FindClose(s, i + 1)
  }

  /** FindClose finds a closing marker, and none starts earlier at or after
      i; when it finds none, there is none. */
  lemma {:induction false} FindCloseFirst(s: string, i: nat)
    requires i <= |s|
    ensures var r := FindClose(s, i);
      && (r.Some? ==> ClosesAt(s, r.value))
      && forall k: nat :: i <= k && (r.None? || k < r.value) ==> !ClosesAt(s, k)
    decreases |s| - i
  {
    if !ClosesAt(s, i) && i < |s| {
      FindCloseFirst(s, i + 1);
    }
  }

  /** FindClose returns the first closing marker at or after i. */
  lemma FindCloseAt(s: string, i: nat, e: nat)
    requires i <= e && ClosesAt(s, e)
    requires forall k: nat :: i <= k < e ==> !ClosesAt(s, k)
    ensures FindClose(s, i) == Some(e)
  {
    FindCloseFirst(s, i);
    var r := FindClose(s, i);
    if r.Some? {
      assert !(r.value < e);
    }
  }

  /** The first index k >= j at which s holds no whitespace, or |s|: where
      the greedy `\s*` run starting at j ends. */
  function SkipSpaces(s: string, j: nat): (k: nat)
    requires j <= |s|
    decreases |s| - j
    ensures j <= k <= |s|
  {
    if j < |s| && IsSpace(s[j]) then SkipSpaces(s, j + 1) else j
  }

  /** SkipSpaces passes over whitespace only and stops at the first
      character that is not whitespace. */
  lemma {:induction false} SkipSpacesSpan(s: string, j: nat)
    requires j <= |s|
    ensures forall t :: j <= t < SkipSpaces(s, j) ==> IsSpace(s[t])
    ensures SkipSpaces(s, j) < |s| ==> !IsSpace(s[SkipSpaces(s, j)])
    decreases |s| - j
  {
    if j < |s| && IsSpace(s[j]) {
      SkipSpacesSpan(s, j + 1);
    }
  }

  /** An index reached over whitespace only, where whitespace stops, is
      where SkipSpaces stops. */
  lemma {:induction false} SkipSpacesUnique(s: string, j: nat, k: nat)
    requires j <= k <= |s|
    requires forall t :: j <= t < k ==> IsSpace(s[t])
    requires k < |s| ==> !IsSpace(s[k])
    ensures SkipSpaces(s, j) == k
    decreases k - j
  {
    if j < k {
      SkipSpacesUnique(s, j + 1, k);
    }
  }

  /** A match of the pattern: the captured body is s[body..close] and the
      closing marker starts at close. */
  datatype Match = NoMatch | Match(body: nat, close: nat)

  /** The match of the pattern that starts exactly at index i, if any
      (MatchAtIsRegexMatch states what it is). */
  function MatchAt(s: string, i: nat): (m: Match)
    requires i <= |s|
    ensures m.Match? ==> i + 7 <= m.body <= m.close && m.close + 3 <= |s|
  {
    if OpensAt(s, i) then
      var b := SkipSpaces(s, i + 7);
      var e := FindClose(s, b);
      if e.Some? then Match(b, e.value) else NoMatch
    else NoMatch
  }

  /** MatchAt is the first match the regular-expression engine finds at i.
      `\s*` is greedy, so the body starts after the whole whitespace run;
      `[\s\S]*?` is lazy, so the body stops at the first closing marker.
      When no closing marker follows the whitespace run, giving characters
      of the run back to the body cannot help either, since no whitespace
      character starts the closing marker: the second ensures says there is
      then no closing marker anywhere after the opening one. */
  lemma MatchAtIsRegexMatch(s: string, i: nat)
    requires i <= |s|
    ensures var m := MatchAt(s, i);
      m.Match? ==>
      && OccursAt(s, Open, i)
      && OccursAt(s, Close, m.close)
      && AllSpaces(s[i + |Open|..m.body])
      && (m.body < |s| ==> !IsSpace(s[m.body]))
      && (forall k: nat :: m.body <= k < m.close ==> !OccursAt(s, Close, k))
    ensures MatchAt(s, i).NoMatch? ==>
      !OccursAt(s, Open, i) || forall k: nat :: i + |Open| <= k ==> !OccursAt(s, Close, k)
  {
    OpensAtMeans(s, i);
    if OpensAt(s, i) {
      var b := SkipSpaces(s, i + 7);
      SkipSpacesSpan(s, i + 7);
      assert forall t :: i + 7 <= t < b ==> s[i + 7..b][t - (i + 7)] == s[t];
      FindCloseFirst(s, b);
      SpacesHoldNoClose(s, i + 7, b);
      NoCloseMeans(s, i + 7, FindClose(s, b));
    }
  }

  /** The character-level search result, restated on the marker string. */
  lemma NoCloseMeans(s: string, a: nat, r: Option<nat>)
    requires r.Some? ==> ClosesAt(s, r.value)
    requires forall k: nat :: a <= k && (r.None? || k < r.value) ==> !ClosesAt(s, k)
    ensures r.Some? ==> OccursAt(s, Close, r.value)
    ensures forall k: nat :: a <= k && (r.None? || k < r.value) ==> !OccursAt(s, Close, k)
  {
    forall k: nat
      ensures ClosesAt(s, k) <==> OccursAt(s, Close, k)
    {
      ClosesAtMeans(s, k);
    }
  }

  /** No closing marker starts inside a run of whitespace. */
  lemma SpacesHoldNoClose(s: string, a: nat, b: nat)
    requires a <= b <= |s|
    requires forall t :: a <= t < b ==> IsSpace(s[t])
    ensures forall k: nat :: a <= k < b ==> !ClosesAt(s, k)
  {
  }

  /** `re.sub(pattern, r"\1", ...)` applied to s from index i on: each
      match is replaced by its body and the scan resumes after the match;
      where no match starts, the character is kept and the scan moves on. */
  function SubFrom(s: string, i: nat): (r: string)
    requires i <= |s|
    decreases |s| - i, 1
    ensures |r| <= |s| - i
  {
    if i == |s| then "" else Emit(s, i, MatchAt(s, i))
  }

  /** What the scan produces from index i on, given the match m there. */
  function Emit(s: string, i: nat, m: Match): (r: string)
    requires i < |s|
    requires m.Match? ==> i + 7 <= m.body <= m.close && m.close + 3 <= |s|
    decreases |s| - i, 0
    ensures |r| <= |s| - i
  {
    if m.Match? then s[m.body..m.close] + SubFrom(s, m.close + 3)
    else [s[i]] + SubFrom(s, i + 1)
  }

  /** The fence cleanup of a whole reply text. */
  function Unfence(s: string): (r: string)
    ensures |r| <= |s|
  {
    SubFrom(s, 0)
  }

  /** Where no match starts at or after i, the scan copies the text. */
  lemma {:induction false} SubFromNoMatch(s: string, i: nat)
    requires i <= |s|
    requires forall k: nat :: i <= k < |s| ==> MatchAt(s, k).NoMatch?
    ensures SubFrom(s, i) == s[i..]
    decreases |s| - i
  {
    if i < |s| {
      SubFromNoMatch(s, i + 1);
      assert s[i..] == [s[i]] + s[i + 1..];
    }
  }

  /** A match anywhere at or after i makes the result strictly shorter. */
  lemma {:induction false} SubFromShrinks(s: string, i: nat, k: nat)
    requires i <= k < |s| && MatchAt(s, k).Match?
    ensures |SubFrom(s, i)| < |s| - i
    decreases |s| - i
  {
    if MatchAt(s, i).NoMatch? {
      SubFromShrinks(s, i + 1, k);
    }
  }

  /** The cleanup leaves a text unchanged exactly when the pattern matches
      nowhere in it. */
  lemma UnfenceIdentityIff(s: string)
    ensures Unfence(s) == s <==> forall k: nat :: k < |s| ==> MatchAt(s, k).NoMatch?
  {
    if forall k: nat :: k < |s| ==> MatchAt(s, k).NoMatch? {
      SubFromNoMatch(s, 0);
    } else {
      var k: nat :| k < |s| && MatchAt(s, k).Match?;
      SubFromShrinks(s, 0, k);
    }
  }

  /** A text without the opening marker is left as it is. */
  lemma UnfenceWithoutOpen(s: string)
    requires !Contains(s, Open)
    ensures Unfence(s) == s
  {
    forall k: nat | k < |s|
      ensures MatchAt(s, k).NoMatch?
    {
      OpensAtMeans(s, k);
    }
    SubFromNoMatch(s, 0);
  }

  /** A text that is one fenced block, `"```html"`, whitespace, a body
      without "```" and `"```"`, is reduced to the body without its leading
      whitespace (which the greedy `\s*` takes). A body that ends in one or
      two backquotes meets the closing marker early; the backquotes left
      over after the match are then copied, so the result is the same. */
  lemma UnfenceWrapped(ws: string, body: string)
    requires AllSpaces(ws)
    requires !Contains(body, Close)
    ensures Unfence(Open + ws + body + Close) == body[LeadingSpaces(body)..]
  {
    var s := Open + ws + body + Close;
    BlockLayout(s, ws, body);
    forall j: nat
      ensures !ClosesAt(body, j)
    {
      ClosesAtMeans(body, j);
    }
    UnfenceBlock(s, ws, body);
  }

  /** The shape of a fenced block at the level of characters: the opening
      marker, ws, the body and the closing marker, one after the other. */
  predicate Layout(s: string, ws: string, body: string) {
    && |s| == 7 + |ws| + |body| + 3
    && OpensAt(s, 0)
    && s[7..7 + |ws|] == ws
    && s[7 + |ws|..7 + |ws| + |body|] == body
    && ClosesAt(s, |s| - 3)
  }

  /** The concatenation of the markers, ws and the body has that layout. */
  lemma BlockLayout(s: string, ws: string, body: string)
    requires s == Open + ws + body + Close
    ensures Layout(s, ws, body)
  {
    OccursPrefix(Open, ws + body + Close);
    assert s == Open + (ws + body + Close);
    OpensAtMeans(s, 0);
    assert s[7..7 + |ws|] == ws;
    assert s[7 + |ws|..7 + |ws| + |body|] == body;
    assert s == (Open + ws + body) + Close;
    ConcatOccurs(Open + ws + body, Close, "");
    assert s + "" == s;
    ClosesAtMeans(s, |s| - 3);
  }

  /** The scan of a fenced block: the match at its start covers the body
      from the end of its leading whitespace to its trailing backquotes,
      and the backquotes left over after the match are copied. The facts
      about the block's characters come first; ScanBlock then runs the
      scan on them. */
  lemma UnfenceBlock(s: string, ws: string, body: string)
    requires Layout(s, ws, body)
    requires AllSpaces(ws)
    requires forall j: nat :: !ClosesAt(body, j)
    ensures Unfence(s) == body[LeadingSpaces(body)..]
  {
    var n, t := LeadingSpaces(body), TrailingTicks(body);
    TicksAfterSpaces(body);
    var m := |body| - t;
    var b, e := 7 + |ws| + n, 7 + |ws| + m;
    BlockScanFacts(s, ws, body, b, e);
    BlockSliceFacts(s, ws, body, n, m, t);
    ScanBlock(s, body, b, e, n, m, t);
  }

  /** Where, in a fenced block, the whitespace run after the opening marker
      ends and where the closing marker is then found. */
  lemma BlockScanFacts(s: string, ws: string, body: string, b: nat, e: nat)
    requires Layout(s, ws, body)
    requires AllSpaces(ws)
    requires forall j: nat :: !ClosesAt(body, j)
    requires b == 7 + |ws| + LeadingSpaces(body)
    requires e == 7 + |ws| + (|body| - TrailingTicks(body)) && b <= e
    ensures OpensAt(s, 0) && b == SkipSpaces(s, 7) && FindClose(s, b) == Some(e)
  {
    WrappedSpaces(s, ws, body);
    WrappedClose(s, ws, body, b, e);
  }

  /** The stretch of a fenced block after its whitespace run and before its
      trailing backquotes, and its last t characters, in terms of the body. */
  lemma BlockSliceFacts(s: string, ws: string, body: string, n: nat, m: nat, t: nat)
    requires Layout(s, ws, body)
    requires t == TrailingTicks(body) && m == |body| - t && n <= m
    ensures t <= 2 && 7 + |ws| + m + 3 + t == |s|
    ensures s[7 + |ws| + n..7 + |ws| + m] == body[n..m] && s[|s| - t..] == body[|body| - t..]
  {
    WrappedBody(s, ws, body, n, m);
    TicksAtEnd(s, ws, body, t);
  }

  /** The scan of a text that opens with a match ending three characters
      before its last t characters, when the match body is body[n..m] and
      those t characters are the rest of body: body[n..]. */
  lemma ScanBlock(s: string, body: string, b: nat, e: nat, n: nat, m: nat, t: nat)
    requires OpensAt(s, 0) && b == SkipSpaces(s, 7) && FindClose(s, b) == Some(e)
    requires t <= 2 && m == |body| - t && n <= m && e + 3 + t == |s|
    requires s[b..e] == body[n..m] && s[|s| - t..] == body[|body| - t..]
    ensures Unfence(s) == body[n..]
  {
    ScanParts(s, b, e, t);
    BlockJoin(Unfence(s), s[b..e], s[|s| - t..], body, n, m);
  }

  /** The scan of a text that opens with a match ending three characters
      before the last t is the match body followed by those t characters. */
  lemma ScanParts(s: string, b: nat, e: nat, t: nat)
    requires OpensAt(s, 0) && b == SkipSpaces(s, 7) && FindClose(s, b) == Some(e)
    requires e + 3 + t == |s| && t <= 6
    ensures Unfence(s) == s[b..e] + s[|s| - t..]
  {
    MatchFromParts(s, b, e);
    SubFromAtMatch(s, 0, b, e);
    ShortTailCopied(s, t);
  }

  /** A scan result made of x == body[n..m] and y == body[m..] is body[n..]. */
  lemma BlockJoin(u: string, x: string, y: string, body: string, n: nat, m: nat)
    requires n <= m <= |body|
    requires u == x + y && x == body[n..m] && y == body[m..]
    ensures u == body[n..]
  {
  }

  /** MatchAt at the start of s puts together the opening marker, the
      whitespace run after it and the first closing marker after that. */
  lemma MatchFromParts(s: string, b: nat, e: nat)
    requires OpensAt(s, 0)
    requires b == SkipSpaces(s, 7)
    requires FindClose(s, b) == Some(e)
    ensures MatchAt(s, 0) == Match(b, e)
  {
  }

  /** How many backquotes, at most two, end the body. */
  function TrailingTicks(body: string): (k: nat)
    ensures k <= 2 && k <= |body|
  {
    if |body| >= 2 && body[|body| - 1] == '`' && body[|body| - 2] == '`' then 2
    else if |body| >= 1 && body[|body| - 1] == '`' then 1
    else 0
  }

  /** The characters TrailingTicks counts are backquotes. */
  lemma TicksAreBackquotes(body: string)
    ensures forall j :: |body| - TrailingTicks(body) <= j < |body| ==> body[j] == '`'
  {
  }

  /** Before the trailing backquotes of a body without "```" stands a
      character other than a backquote. */
  lemma TicksStop(body: string)
    requires forall j: nat :: !ClosesAt(body, j)
    ensures var k := TrailingTicks(body); k < |body| ==> body[|body| - k - 1] != '`'
  {
    var k := TrailingTicks(body);
    if k == 2 && |body| > 2 {
      assert !ClosesAt(body, |body| - 3);
    }
  }

  /** The whitespace prefix of a body stops before its trailing backquotes. */
  lemma TicksAfterSpaces(body: string)
    ensures LeadingSpaces(body) + TrailingTicks(body) <= |body|
  {
    var n := LeadingSpaces(body);
    TicksAreBackquotes(body);
    assert forall j :: 0 <= j < n ==> body[..n][j] == body[j];
  }

  /** Where a match starts, the scan emits its body and resumes after it. */
  lemma SubFromAtMatch(s: string, i: nat, b: nat, e: nat)
    requires i < |s| && MatchAt(s, i) == Match(b, e)
    ensures SubFrom(s, i) == s[b..e] + SubFrom(s, e + 3)
  {
  }

  /** The substitution replaces the leftmost match: the text before the
      first index k at or after i where the pattern matches is copied, then
      the body of that match is emitted and the scan resumes after it. */
  lemma {:induction false} SubFromFirstMatch(s: string, i: nat, k: nat, b: nat, e: nat)
    requires i <= k < |s| && MatchAt(s, k) == Match(b, e)
    requires forall j: nat :: i <= j < k ==> MatchAt(s, j).NoMatch?
    ensures SubFrom(s, i) == s[i..k] + (s[b..e] + SubFrom(s, e + 3))
    decreases k - i
  {
    if i < k {
      SubFromFirstMatch(s, i + 1, k, b, e);
      SubFromCopies(s, i);
      PrependSlice(s, i, k, s[b..e] + SubFrom(s, e + 3));
    } else {
      SubFromAtMatch(s, i, b, e);
    }
  }

  /** Where no match starts, the scan copies one character and moves on. */
  lemma SubFromCopies(s: string, i: nat)
    requires i < |s| && MatchAt(s, i).NoMatch?
    ensures SubFrom(s, i) == [s[i]] + SubFrom(s, i + 1)
  {
  }

  /** A character followed by the rest of a slice is the whole slice. */
  lemma PrependSlice(s: string, i: nat, k: nat, t: string)
    requires i < k <= |s|
    ensures [s[i]] + (s[i + 1..k] + t) == s[i..k] + t
  {
    assert s[i..k] == [s[i]] + s[i + 1..k];
  }

  /** A slice of the body of a fenced block, found in the block. */
  lemma WrappedBody(s: string, ws: string, body: string, n: nat, m: nat)
    requires Layout(s, ws, body) && n <= m <= |body|
    ensures s[7 + |ws| + n..7 + |ws| + m] == body[n..m]
  {
    var o := 7 + |ws|;
    assert forall k :: o <= k < o + |body| ==> s[k] == s[o..o + |body|][k - o];
    assert forall k :: o + n <= k < o + m ==> s[k] == body[k - o];
  }

  /** The last six characters of a text are too few for a match to start
      there, so the scan copies them. */
  lemma ShortTailCopied(s: string, k: nat)
    requires k <= 6 && k <= |s|
    ensures SubFrom(s, |s| - k) == s[|s| - k..]
  {
    forall m: nat | |s| - k <= m < |s|
      ensures MatchAt(s, m).NoMatch?
    {
    }
    SubFromNoMatch(s, |s| - k);
  }

  /** The last k characters of a fenced block and of its body agree, k
      being the number of trailing backquotes of the body. */
  lemma TicksAtEnd(s: string, ws: string, body: string, k: nat)
    requires Layout(s, ws, body)
    requires k == TrailingTicks(body)
    ensures s[|s| - k..] == body[|body| - k..]
  {
    if k == 1 {
      assert s[|s| - 1..] == [s[|s| - 1]];
      assert body[|body| - 1..] == [body[|body| - 1]];
    } else if k == 2 {
      assert s[|s| - 2..] == [s[|s| - 2], s[|s| - 1]];
      assert body[|body| - 2..] == [body[|body| - 2], body[|body| - 1]];
    }
  }

  /** After the opening marker of a fenced block, the whitespace run covers
      ws and the leading whitespace of the body. */
  lemma WrappedSpaces(s: string, ws: string, body: string)
    requires Layout(s, ws, body)
    requires AllSpaces(ws)
    ensures SkipSpaces(s, 7) == 7 + |ws| + LeadingSpaces(body)
  {
    var o, n := 7 + |ws|, LeadingSpaces(body);
    assert forall t :: 7 <= t < o ==> s[t] == s[7..o][t - 7];
    assert forall t :: o <= t < o + |body| ==> s[t] == s[o..o + |body|][t - o];
    assert forall t :: 0 <= t < n ==> body[t] == body[..n][t];
    SkipSpacesUnique(s, 7, o + n);
  }

  /** Searching a fenced block for the closing marker from anywhere inside
      the body before its trailing backquotes finds the first backquote of
      the final run of three. */
  lemma WrappedClose(s: string, ws: string, body: string, i: nat, e: nat)
    requires Layout(s, ws, body)
    requires forall j: nat :: !ClosesAt(body, j)
    requires e == 7 + |ws| + (|body| - TrailingTicks(body))
    requires 7 + |ws| <= i <= e
    ensures FindClose(s, i) == Some(e)
  {
    var k := TrailingTicks(body);
    CloseAfterBody(s, ws, body, k);
    TicksStop(body);
    NoCloseInBody(s, ws, body, k, i);
    FindCloseAt(s, i, e);
  }

  /** The last three characters of a fenced block, shifted back over the
      trailing backquotes of the body, are still backquotes. */
  lemma CloseAfterBody(s: string, ws: string, body: string, k: nat)
    requires Layout(s, ws, body)
    requires k == TrailingTicks(body)
    ensures ClosesAt(s, 7 + |ws| + |body| - k)
  {
    var o := 7 + |ws|;
    TicksAreBackquotes(body);
    assert forall j :: o <= j < o + |body| ==> s[j] == s[o..o + |body|][j - o];
  }

  /** No closing marker starts in a fenced block between the opening marker
      and the final run of backquotes. */
  lemma NoCloseInBody(s: string, ws: string, body: string, k: nat, i: nat)
    requires Layout(s, ws, body)
    requires forall j: nat :: !ClosesAt(body, j)
    requires k == TrailingTicks(body)
    requires k < |body| ==> body[|body| - k - 1] != '`'
    requires 7 + |ws| <= i
    ensures forall j: nat :: i <= j < 7 + |ws| + |body| - k ==> !ClosesAt(s, j)
  {
    var o := 7 + |ws|;
    assert forall j :: o <= j < o + |body| ==> s[j] == s[o..o + |body|][j - o];
    forall j: nat | i <= j < o + |body| - k
      ensures !ClosesAt(s, j)
    {
      if j + 3 <= o + |body| {
        assert !ClosesAt(body, j - o);
      } else {
        var p := o + |body| - k - 1;
        assert s[p] == body[|body| - k - 1];
      }
    }
  }
}
