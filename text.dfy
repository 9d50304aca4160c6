/** String primitives the handler relies on: Python's whitespace class,
    `str.strip()`, `str.join` and substring occurrence. */
module Text {

  datatype Option<T> = None | Some(value: T)

  /** Whitespace as CPython's `str.isspace` sees it; the `re` module's `\s`
      on a `str` pattern uses the same set. */
  predicate IsSpace(c: char) {
    || ('\t' <= c <= '\r')
    || ('\U{1C}' <= c <= ' ')
    || c == '\U{85}' || c == '\U{A0}' || c == '\U{1680}'
    || ('\U{2000}' <= c <= '\U{200A}')
    || c == '\U{2028}' || c == '\U{2029}' || c == '\U{202F}'
    || c == '\U{205F}' || c == '\U{3000}'
  }

  predicate AllSpaces(s: string) {
    forall k :: 0 <= k < |s| ==> IsSpace(s[k])
  }

  /** No leading and no trailing whitespace. */
  predicate Trimmed(s: string) {
    s == [] || (!IsSpace(s[0]) && !IsSpace(s[|s| - 1]))
  }

  /** t occurs in s starting at index k. */
  predicate OccursAt(s: string, t: string, k: nat) {
    k + |t| <= |s| && s[k..k + |t|] == t
  }

  ghost predicate Contains(s: string, t: string) {
    exists k: nat :: OccursAt(s, t, k)
  }

  /** Length of the longest whitespace prefix of s. */
  function LeadingSpaces(s: string): (n: nat)
    ensures n <= |s| && AllSpaces(s[..n])
    ensures n < |s| ==> !IsSpace(s[n])
  {
    if s != [] && IsSpace(s[0]) then
      var m := LeadingSpaces(s[1..]);
      assert s[..m + 1] == [s[0]] + s[1..][..m];
      m + 1
    else 0
  }

  /** The two properties in the contract of `LeadingSpaces` determine it. */
  lemma LeadingSpacesUnique(s: string, n: nat)
    requires n <= |s| && AllSpaces(s[..n])
    requires n < |s| ==> !IsSpace(s[n])
    ensures LeadingSpaces(s) == n
  {
    var l := LeadingSpaces(s);
    assert forall k :: 0 <= k < n ==> s[..n][k] == s[k];
    assert forall k :: 0 <= k < l ==> s[..l][k] == s[k];
  }

  /** Scanning back from e, but not past n, over whitespace: the index
      where the run of whitespace that ends at e starts. */
  function StripEnd(s: string, n: nat, e: nat): (r: nat)
    requires n <= e <= |s|
    ensures n <= r <= e
    ensures forall k :: r <= k < e ==> IsSpace(s[k])
    ensures n < r ==> !IsSpace(s[r - 1])
    decreases e
  {
    if n < e && IsSpace(s[e - 1]) then StripEnd(s, n, e - 1) else e
  }

  /** Python's `str.strip()` without an argument: the result is the slice
      of s left between its whitespace prefix and its whitespace suffix. */
  function Strip(s: string): (r: string)
    ensures Trimmed(r)
    ensures |r| <= |s|
    ensures AllSpaces(s[..LeadingSpaces(s)])
    ensures LeadingSpaces(s) + |r| <= |s|
    ensures r == s[LeadingSpaces(s)..LeadingSpaces(s) + |r|]
    ensures AllSpaces(s[LeadingSpaces(s) + |r|..])
  {
    var n := LeadingSpaces(s);
    var e := StripEnd(s, n, |s|);
    var r := s[n..e];
    assert r != [] ==> r[0] == s[n] && r[|r| - 1] == s[e - 1];
    r
  }

  /** A whitespace-surrounded trimmed string strips to itself: this pins
      `Strip` down independently of how it is computed. */
  lemma StripUnique(a: string, m: string, b: string)
    requires AllSpaces(a) && AllSpaces(b) && Trimmed(m)
    ensures Strip(a + m + b) == m
  {
    var s := a + m + b;
    var i, j := |a|, |a| + |m|;
    assert s[..i] == a && s[i..j] == m && s[j..] == b;
    assert i < j ==> s[i] == m[0] && s[j - 1] == m[|m| - 1];
    StripOfShape(s, i, j);
  }

  /** When s is whitespace up to i and from j on, and s[i..j] neither starts
      nor ends with whitespace, Strip returns s[i..j]. */
  lemma StripOfShape(s: string, i: nat, j: nat)
    requires i <= j <= |s|
    requires AllSpaces(s[..i]) && AllSpaces(s[j..])
    requires i < j ==> !IsSpace(s[i]) && !IsSpace(s[j - 1])
    ensures Strip(s) == s[i..j]
  {
    SpacesFrom(s, j);
    if i == j {
      SpacesUpTo(s, i);
      StripAllSpaces(s);
    } else {
      StripMiddle(s, i, j);
    }
  }

  /** A string of whitespace only strips to the empty string. */
  lemma StripAllSpaces(s: string)
    requires forall k :: 0 <= k < |s| ==> IsSpace(s[k])
    ensures Strip(s) == []
  {
    assert LeadingSpaces(s) == |s|;
  }

  /** The case of StripOfShape where s[i..j] is not empty. */
  lemma StripMiddle(s: string, i: nat, j: nat)
    requires i < j <= |s|
    requires AllSpaces(s[..i]) && forall k :: j <= k < |s| ==> IsSpace(s[k])
    requires !IsSpace(s[i]) && !IsSpace(s[j - 1])
    ensures Strip(s) == s[i..j]
  {
    LeadingSpacesUnique(s, i);
    var r := Strip(s);
    SpacesFrom(s, i + |r|);
    assert i + |r| >= j;
    assert r != [] ==> r[|r| - 1] == s[i + |r| - 1];
    assert i + |r| <= j;
  }

  /** The characters of an all-whitespace suffix, by their index in s. */
  lemma SpacesFrom(s: string, j: nat)
    requires j <= |s|
    ensures AllSpaces(s[j..]) ==> forall k :: j <= k < |s| ==> IsSpace(s[k])
  {
    assert forall k :: j <= k < |s| ==> s[k] == s[j..][k - j];
  }

  /** The characters of an all-whitespace prefix, by their index in s. */
  lemma SpacesUpTo(s: string, i: nat)
    requires i <= |s|
    ensures AllSpaces(s[..i]) ==> forall k :: 0 <= k < i ==> IsSpace(s[k])
  {
    assert forall k :: 0 <= k < i ==> s[k] == s[..i][k];
  }

  /** Dropping the leading whitespace first does not change what Strip
      returns. */
  lemma StripAfterLeading(s: string)
    ensures Strip(s[LeadingSpaces(s)..]) == Strip(s)
  {
    var n, m := LeadingSpaces(s), Strip(s);
    var after := s[n + |m|..];
    SplitAt(s, n, n + |m|);
    StripOfTail(s[n..], m, after);
  }

  /** A trimmed string followed by whitespace strips to itself. */
  lemma StripOfTail(t: string, m: string, after: string)
    requires t == m + after && Trimmed(m) && AllSpaces(after)
    ensures Strip(t) == m
  {
    StripUnique("", m, after);
    assert "" + m + after == t;
  }

  /** A suffix of s is the slice up to j followed by the suffix from j. */
  lemma SplitAt(s: string, i: nat, j: nat)
    requires i <= j <= |s|
    ensures s[i..] == s[i..j] + s[j..]
  {
  }

  /** Stripping twice changes nothing further. */
  lemma StripIdempotent(s: string)
    ensures Strip(Strip(s)) == Strip(s)
  {
    StripUnique("", Strip(s), "");
    assert "" + Strip(s) + "" == Strip(s);
  }

  /** Python's `sep.join(xs)`. */
  function Join(xs: seq<string>, sep: string): (r: string)
    ensures |xs| == 1 ==> r == xs[0]
  {
    if |xs| == 0 then ""
    else if |xs| == 1 then xs[0]
    else xs[0] + sep + Join(xs[1..], sep)
  }

  /** Joining two non-empty lists puts one separator between their joins. */
  lemma {:induction false} JoinAppend(xs: seq<string>, ys: seq<string>, sep: string)
    requires xs != [] && ys != []
    ensures Join(xs + ys, sep) == Join(xs, sep) + sep + Join(ys, sep)
  {
    if |xs| == 1 {
      assert (xs + ys)[1..] == ys;
    } else {
      assert (xs + ys)[1..] == xs[1..] + ys;
      JoinAppend(xs[1..], ys, sep);
    }
  }

  /** Element i of a join sits between the join of the elements before it
      and the join of the elements after it, each separated by sep. */
  lemma JoinAround(xs: seq<string>, sep: string, i: nat)
    requires i < |xs|
    ensures Join(xs, sep) ==
      Join(xs[..i], sep) + (if i == 0 then "" else sep) + xs[i]
      + (if i == |xs| - 1 then "" else sep) + Join(xs[i + 1..], sep)
  {
    JoinUpTo(xs, sep, i);
    JoinRest(xs, sep, i);
  }

  /** The join of the elements up to and including i. */
  lemma JoinUpTo(xs: seq<string>, sep: string, i: nat)
    requires i < |xs|
    ensures Join(xs[..i + 1], sep) == Join(xs[..i], sep) + (if i == 0 then "" else sep) + xs[i]
  {
    if i == 0 {
      assert xs[..1] == [xs[0]];
    } else {
      assert xs[..i + 1] == xs[..i] + [xs[i]];
      JoinAppend(xs[..i], [xs[i]], sep);
    }
  }

  /** The join of all elements, split after element i. */
  lemma JoinRest(xs: seq<string>, sep: string, i: nat)
    requires i < |xs|
    ensures Join(xs, sep) ==
      Join(xs[..i + 1], sep) + (if i == |xs| - 1 then "" else sep) + Join(xs[i + 1..], sep)
  {
    if i == |xs| - 1 {
      assert xs[..i + 1] == xs;
    } else {
      assert xs == xs[..i + 1] + xs[i + 1..];
      JoinAppend(xs[..i + 1], xs[i + 1..], sep);
    }
  }

  /** Every element of a join is a substring of it, at the offset after the
      elements before it. */
  lemma JoinContains(xs: seq<string>, sep: string, i: nat)
    requires i < |xs|
    ensures OccursAt(Join(xs, sep), xs[i], |Join(xs[..i], sep)| + (if i == 0 then 0 else |sep|))
    ensures Contains(Join(xs, sep), xs[i])
  {
    JoinAround(xs, sep, i);
    var pre := Join(xs[..i], sep) + (if i == 0 then "" else sep);
    var post := (if i == |xs| - 1 then "" else sep) + Join(xs[i + 1..], sep);
    assert Join(xs, sep) == pre + xs[i] + post;
    ConcatOccurs(pre, xs[i], post);
  }

  /** The middle of a three-part concatenation occurs right after the first part. */
  lemma ConcatOccurs(a: string, t: string, b: string)
    ensures OccursAt(a + t + b, t, |a|)
    ensures Contains(a + t + b, t)
  {
    assert (a + t + b)[|a|..|a| + |t|] == t;
    assert OccursAt(a + t + b, t, |a|);
  }

  /** An occurrence inside an occurrence is an occurrence in the outer string. */
  lemma OccursWithin(p: string, a: string, t: string, m: nat, k: nat)
    requires OccursAt(p, a, m) && OccursAt(a, t, k)
    ensures OccursAt(p, t, m + k)
  {
    assert forall j :: 0 <= j < |t| ==> t[j] == a[k + j] == p[m + k + j];
  }

  /** An empty middle part adds nothing to a concatenation. */
  lemma EmptyMiddle(a: string, e: string, b: string)
    requires e == ""
    ensures a + e + b == a + b && a + e == a
  {
  }

  /** The first of three concatenated parts occurs at the start. */
  lemma OccursHead(a: string, x: string, y: string)
    ensures OccursAt(a + x + y, a, 0)
  {
    assert (a + x + y)[..|a|] == a;
  }

  /** What occurs at the start of an occurrence occurs where it starts. */
  lemma OccursStartOf(p: string, t: string, a: string, m: nat)
    requires OccursAt(p, t, m) && OccursAt(t, a, 0)
    ensures OccursAt(p, a, m)
  {
    OccursWithin(p, t, a, m, 0);
  }

  /** One differing character rules an occurrence out. */
  lemma OccursMismatch(s: string, t: string, k: nat, j: nat)
    requires j < |t| && k + j < |s| && s[k + j] != t[j]
    ensures !OccursAt(s, t, k)
  {
    if k + |t| <= |s| {
      assert s[k..k + |t|][j] == s[k + j];
    }
  }

  /** A string occurs at the start of any extension of it. */
  lemma OccursPrefix(a: string, b: string)
    ensures OccursAt(a + b, a, 0)
  {
    assert (a + b)[..|a|] == a;
  }
}
