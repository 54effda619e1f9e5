/**
 The handful of Python `str` operations the resolver and the patcher rely on:
 `isspace`, `strip()`, `rstrip("\n")`, `split(maxsplit=1)`, `replace`, `split(sep)`
 and `sep.join(...)`, written out over `seq<char>`.
 */
module Text {
  import opened Wrappers

  /** The characters Python's `str.isspace` accepts; `strip()` and `split()`
      without arguments use exactly this set. */
  predicate IsSpace(c: char) {
    || c == ' '
    || ('\t' <= c <= '\r')
    || ('\U{1C}' <= c <= '\U{1F}')
    || c == '\U{85}' || c == '\U{A0}' || c == '\U{1680}'
    || ('\U{2000}' <= c <= '\U{200A}')
    || c == '\U{2028}' || c == '\U{2029}' || c == '\U{202F}' || c == '\U{205F}' || c == '\U{3000}'
  }

  predicate AllSpace(s: string) {
    forall k :: 0 <= k < |s| ==> IsSpace(s[k])
  }

  /** A non-empty run of non-whitespace characters. */
  predicate IsWord(s: string) {
    s != [] && forall k :: 0 <= k < |s| ==> !IsSpace(s[k])
  }

  /** The number of whitespace characters `s` starts with. */
  function LeadingSpaces(s: string): (n: nat)
    ensures n <= |s|
    ensures forall k :: 0 <= k < n ==> IsSpace(s[k])
    ensures n < |s| ==> !IsSpace(s[n])
  {
    if s == [] || !IsSpace(s[0]) then 0 else 1 + LeadingSpaces(s[1..])
  }

  /** The number of whitespace characters `s` ends with. */
  function TrailingSpaces(s: string): (n: nat)
    ensures n <= |s|
    ensures forall k :: |s| - n <= k < |s| ==> IsSpace(s[k])
    ensures n < |s| ==> !IsSpace(s[|s| - n - 1])
  {
    if s == [] || !IsSpace(s[|s| - 1]) then 0 else 1 + TrailingSpaces(s[..|s| - 1])
  }

  /** `s.lstrip()` */
  function StripStart(s: string): (r: string)
    ensures |r| <= |s| && r == s[|s| - |r|..]
    ensures r == [] || !IsSpace(r[0])
    ensures r == [] <==> AllSpace(s)
  {
    var n := LeadingSpaces(s);
    s[n..]
  }

  /** What `lstrip` removes is whitespace. */
  lemma StripStartRemovesSpace(s: string)
    ensures AllSpace(s[..|s| - |StripStart(s)|])
  {
    assert |s| - |StripStart(s)| == LeadingSpaces(s);
  }

  /** `s.strip()`: the result neither starts nor ends with whitespace, and it
      is empty exactly when `s` is all whitespace. */
  function Strip(s: string): (r: string)
    ensures |r| <= |s|
    ensures r == [] || (!IsSpace(r[0]) && !IsSpace(r[|r| - 1]))
    ensures r == [] <==> AllSpace(s)
  {
    var t := StripStart(s);
    var m := TrailingSpaces(t);
    t[..|t| - m]
  }

  /** Whitespace around a word-bounded text is exactly what `strip` removes. */
  lemma StripSurrounded(pre: string, x: string, post: string)
    requires AllSpace(pre) && AllSpace(post)
    requires x != [] && !IsSpace(x[0]) && !IsSpace(x[|x| - 1])
    ensures Strip(pre + x + post) == x
  {
    var s := pre + x + post;
    LeadingSpacesOf(pre, x + post);
    assert s == pre + (x + post);
    var t := s[|pre|..];
    assert t == x + post;
    TrailingSpacesOf(x, post);
    assert t[..|t| - |post|] == x;
  }

  /** `strip` of a line whose text has no surrounding whitespace is that text. */
  lemma StripLine(x: string)
    requires x != [] && !IsSpace(x[0]) && !IsSpace(x[|x| - 1])
    ensures Strip(x + "\n") == x
  {
    StripSurrounded([], x, "\n");
    assert [] + x + "\n" == x + "\n";
  }

  lemma {:induction false} LeadingSpacesOf(pre: string, x: string)
    requires AllSpace(pre) && x != [] && !IsSpace(x[0])
    ensures LeadingSpaces(pre + x) == |pre|
    decreases |pre|
  {
    if pre != [] {
      assert (pre + x)[1..] == pre[1..] + x;
      LeadingSpacesOf(pre[1..], x);
    }
  }

  lemma {:induction false} TrailingSpacesOf(x: string, post: string)
    requires AllSpace(post) && x != [] && !IsSpace(x[|x| - 1])
    ensures TrailingSpaces(x + post) == |post|
    decreases |post|
  {
    if post != [] {
      var p := post[..|post| - 1];
      assert (x + post)[..|x + post| - 1] == x + p;
      TrailingSpacesOf(x, p);
    }
  }

  /** `s.rstrip("\n")` */
  function StripNewlines(s: string): (r: string)
    ensures |r| <= |s| && r == s[..|r|]
    ensures forall k :: |r| <= k < |s| ==> s[k] == '\n'
    ensures r == [] || r[|r| - 1] != '\n'
  {
    if s != [] && s[|s| - 1] == '\n' then StripNewlines(s[..|s| - 1]) else s
  }

  /** The length of the leading run of non-whitespace characters. */
  function WordLength(s: string): (k: nat)
    ensures k <= |s|
    ensures forall j :: 0 <= j < k ==> !IsSpace(s[j])
    ensures k < |s| ==> IsSpace(s[k])
  {
    if s == [] || IsSpace(s[0]) then 0 else 1 + WordLength(s[1..])
  }

  /** `s` is the word `w`, then a non-empty run of whitespace `gap`, then `rest`. */
  predicate GapJoined(s: string, w: string, gap: string, rest: string) {
    gap != [] && AllSpace(gap) && s == w + gap + rest
  }

  /** `s.split(maxsplit=1)`: at most two parts, the first a whitespace-free
      word and the second the rest of the string after the whitespace run
      that follows it (the rest keeps any trailing whitespace, as CPython does). */
  function SplitOnce(s: string): (parts: seq<string>)
    ensures |parts| <= 2
    ensures parts == [] <==> AllSpace(s)
    ensures parts != [] ==> IsWord(parts[0])
    ensures |parts| == 2 ==> parts[1] != [] && !IsSpace(parts[1][0])
  {
    var t := StripStart(s);
    if t == [] then
      assert s[..|s|] == s;
      []
    else
      assert !AllSpace(s) by { assert s[|s| - |t|] == t[0]; }
      var k := WordLength(t);
      assert k > 0;
      var w := t[..k];
      assert IsWord(w);
      var rest := StripStart(t[k..]);
      if rest == [] then [w] else [w, rest]
  }

  /** When `split(maxsplit=1)` yields two parts, the stripped text is the first
      part, a non-empty whitespace gap, and the second part. */
  lemma SplitOnceJoins(s: string)
    requires |SplitOnce(s)| == 2
    ensures exists gap :: GapJoined(StripStart(s), SplitOnce(s)[0], gap, SplitOnce(s)[1])
  {
    var t := StripStart(s);
    var k := WordLength(t);
    WordThenRest(t, k);
  }

  /** Cutting `t` after its leading word of length `k`: the word, the
      whitespace after it, and the rest from the next non-whitespace on. */
  lemma WordThenRest(t: string, k: nat)
    requires k < |t| && IsSpace(t[k]) && StripStart(t[k..]) != []
    ensures var u := t[k..];
      var rest := StripStart(u);
      GapJoined(t, t[..k], u[..|u| - |rest|], rest)
  {
    var u := t[k..];
    var n := LeadingSpaces(u);
    var rest := StripStart(u);
    assert rest == u[n..];
    assert n != 0 by { assert u[0] == t[k]; }
    var gap := u[..n];
    StripStartRemovesSpace(u);
    assert u == gap + rest;
    assert t == t[..k] + u;
  }

  /** Splitting a word, a whitespace gap and a rest recovers the word and the rest. */
  lemma SplitOnceOfJoined(w: string, gap: string, rest: string)
    requires IsWord(w) && gap != [] && AllSpace(gap)
    requires rest != [] && !IsSpace(rest[0])
    ensures SplitOnce(w + gap + rest) == [w, rest]
  {
    var s := w + gap + rest;
    assert LeadingSpaces(s) == 0;
    assert StripStart(s) == s;
    WordLengthOfPrefix(w, gap + rest);
    assert s == w + (gap + rest);
    assert s[..|w|] == w;
    assert s[|w|..] == gap + rest;
    LeadingSpacesOf(gap, rest);
    assert (gap + rest)[|gap|..] == rest;
  }

  lemma {:induction false} WordLengthOfPrefix(w: string, tail: string)
    requires forall k :: 0 <= k < |w| ==> !IsSpace(w[k])
    requires tail != [] && IsSpace(tail[0])
    ensures WordLength(w + tail) == |w|
    decreases |w|
  {
    if w != [] {
      assert (w + tail)[1..] == w[1..] + tail;
      WordLengthOfPrefix(w[1..], tail);
    }
  }

  /** `t` occurs in `s` starting at index `i`. */
  predicate OccursAt(s: string, t: string, i: nat) {
    i + |t| <= |s| && s[i..i + |t|] == t
  }

  /** `t in s` */
  predicate Contains(s: string, t: string) {
    exists i: nat | i <= |s| :: OccursAt(s, t, i)
  }

  /** The leftmost occurrence of `t` in `s` at or after `i`. */
  function FindFrom(s: string, t: string, i: nat): (r: Option<nat>)
    requires t != [] && i <= |s|
    decreases |s| - i
    ensures r.Some? ==> i <= r.value && OccursAt(s, t, r.value)
    ensures r.Some? ==> forall j: nat :: i <= j < r.value ==> !OccursAt(s, t, j)
    ensures r.None? ==> forall j: nat :: i <= j ==> !OccursAt(s, t, j)
  {
    if i + |t| > |s| then None
    else if OccursAt(s, t, i) then Some(i)
    else FindFrom(s, t, i + 1)
  }

  /** `s.find(t)`, with `None` for Python's `-1`. */
  function Find(s: string, t: string): (r: Option<nat>)
    requires t != []
    ensures r.Some? ==> OccursAt(s, t, r.value) && forall j: nat :: j < r.value ==> !OccursAt(s, t, j)
    ensures r.None? ==> forall j: nat :: !OccursAt(s, t, j)
  {
    FindFrom(s, t, 0)
  }

  /** `s.replace(pat, rep)`: every non-overlapping occurrence of `pat`, taken
      from the left, becomes `rep`. An empty `pat` matches between every two
      characters and at both ends, as in Python. */
  function Replace(s: string, pat: string, rep: string): string
    decreases |s|
  {
    if pat == [] then Interleave(s, rep)
    else if |s| < |pat| then s
    else if s[..|pat|] == pat then rep + Replace(s[|pat|..], pat, rep)
    else [s[0]] + Replace(s[1..], pat, rep)
  }

  /** `s.replace("", rep)` */
  function Interleave(s: string, rep: string): string {
    if s == [] then rep else rep + [s[0]] + Interleave(s[1..], rep)
  }

  /** `s.split(sep)` for a non-empty separator. */
  function Split(s: string, sep: string): (parts: seq<string>)
    requires sep != []
    decreases |s|
    ensures |parts| >= 1
  {
    match Find(s, sep)
    case None => [s]
    case Some(i) => [s[..i]] + Split(s[i + |sep|..], sep)
  }

  /** `sep.join(parts)` */
  function Join(parts: seq<string>, sep: string): string {
    if parts == [] then []
    else if |parts| == 1 then parts[0]
    else parts[0] + sep + Join(parts[1..], sep)
  }

  /** The one-character strings of `s`, in order. */
  function Chars(s: string): (cs: seq<string>)
    ensures |cs| == |s|
    ensures forall k :: 0 <= k < |s| ==> cs[k] == [s[k]]
  {
    seq(|s|, k requires 0 <= k < |s| => [s[k]])
  }

  // ---- facts about occurrences in slices ----

  lemma OccursInPrefix(s: string, t: string, n: nat, j: nat)
    requires n <= |s| && OccursAt(s[..n], t, j)
    ensures OccursAt(s, t, j)
  {
    assert s[..n][j..j + |t|] == s[j..j + |t|];
  }

  lemma OccursInSuffix(s: string, t: string, n: nat, j: nat)
    requires n <= |s|
    ensures OccursAt(s[n..], t, j) <==> OccursAt(s, t, n + j)
  {
    if n + j + |t| <= |s| {
      assert s[n..][j..j + |t|] == s[n + j..n + j + |t|];
    }
  }

  // ---- Replace against Split and Join ----

  /** One step of `Split` at the leftmost occurrence of the separator. */
  lemma SplitAtFirst(s: string, sep: string, i: nat)
    requires sep != [] && Find(s, sep) == Some(i)
    ensures i + |sep| <= |s|
    ensures Split(s, sep) == [s[..i]] + Split(s[i + |sep|..], sep)
  {
  }

  lemma JoinCons(x: string, tail: seq<string>, sep: string)
    requires tail != []
    ensures Join([x] + tail, sep) == x + sep + Join(tail, sep)
  {
    assert ([x] + tail)[1..] == tail;
  }

  /** Joining pieces that do not contain the one-character separator `c`
      and splitting again on `c` gives back the pieces. */
  lemma {:induction false} SplitJoin(parts: seq<string>, c: char)
    requires parts != [] && forall k :: 0 <= k < |parts| ==> c !in parts[k]
    ensures Split(Join(parts, [c]), [c]) == parts
    decreases |parts|
  {
    var p := parts[0];
    if |parts| == 1 {
      NoCharNoFind(p, c);
    } else {
      var rest := parts[1..];
      var s := Join(parts, [c]);
      assert s == p + [c] + Join(rest, [c]);
      FindAfterFreePrefix(p, c, Join(rest, [c]));
      SplitAtFirst(s, [c], |p|);
      assert s[..|p|] == p && s[|p| + 1..] == Join(rest, [c]);
      SplitJoin(rest, c);
    }
  }

  lemma NoCharNoFind(s: string, c: char)
    requires c !in s
    ensures Find(s, [c]) == None
  {
    forall j: nat
      ensures !OccursAt(s, [c], j)
    {
      if j + 1 <= |s| {
        assert s[j..j + 1][0] == s[j];
      }
    }
  }

  lemma FindAfterFreePrefix(p: string, c: char, tail: string)
    requires c !in p
    ensures Find(p + [c] + tail, [c]) == Some(|p|)
  {
    var s := p + [c] + tail;
    assert s[|p|..|p| + 1] == [c];
    assert OccursAt(s, [c], |p|);
    forall j: nat | j < |p|
      ensures !OccursAt(s, [c], j)
    {
      assert s[j..j + 1][0] == s[j] == p[j];
    }
  }

  /** Splitting on `sep` and joining with `sep` gives back the string. */
  lemma {:induction false} JoinSplit(s: string, sep: string)
    requires sep != []
    ensures Join(Split(s, sep), sep) == s
    decreases |s|
  {
    match Find(s, sep)
    case None =>
    case Some(i) =>
      SplitAtFirst(s, sep, i);
      var rest := s[i + |sep|..];
      JoinSplit(rest, sep);
      JoinCons(s[..i], Split(rest, sep), sep);
      assert s[i..i + |sep|] == sep;
      assert s == s[..i] + s[i..i + |sep|] + rest;
  }

  /** No piece of a split contains the separator. */
  lemma {:induction false} SplitPiecesAvoidSep(s: string, sep: string)
    requires sep != []
    ensures forall k :: 0 <= k < |Split(s, sep)| ==> !Contains(Split(s, sep)[k], sep)
    decreases |s|
  {
    match Find(s, sep)
    case None =>
    case Some(i) =>
      var rest := s[i + |sep|..];
      SplitPiecesAvoidSep(rest, sep);
      var ps := Split(s, sep);
      SplitAtFirst(s, sep, i);
      if Contains(s[..i], sep) {
        var j: nat :| OccursAt(s[..i], sep, j);
        OccursInPrefix(s, sep, i, j);
        assert false;
      }
      forall k | 0 <= k < |ps|
        ensures !Contains(ps[k], sep)
      {
        if k > 0 {
          assert ps[k] == Split(rest, sep)[k - 1];
        }
      }
  }

  lemma ReplaceCopiesChar(s: string, pat: string, rep: string)
    requires pat != [] && |s| >= |pat| && !OccursAt(s, pat, 0)
    ensures Replace(s, pat, rep) == [s[0]] + Replace(s[1..], pat, rep)
  {
    assert s[..|pat|] == s[0..|pat|];
  }

  lemma ReplaceShort(s: string, pat: string, rep: string)
    requires pat != [] && |s| < |pat|
    ensures Replace(s, pat, rep) == s
  {
  }

  lemma ReplaceAtOccurrence(s: string, pat: string, rep: string)
    requires pat != [] && OccursAt(s, pat, 0)
    ensures Replace(s, pat, rep) == rep + Replace(s[|pat|..], pat, rep)
  {
    assert s[..|pat|] == s[0..|pat|];
  }

  /** Positions before the first occurrence of `pat` are copied unchanged. */
  lemma {:induction false} ReplaceSkipsPrefix(s: string, pat: string, rep: string, i: nat)
    requires pat != [] && i <= |s|
    requires forall j: nat :: j < i ==> !OccursAt(s, pat, j)
    ensures Replace(s, pat, rep) == s[..i] + Replace(s[i..], pat, rep)
    decreases i, 1
  {
    if i == 0 {
      assert s[..0] == [] && s[0..] == s;
    } else if |s| < |pat| {
      ReplaceShort(s, pat, rep);
      ReplaceShort(s[i..], pat, rep);
      assert s[..i] + s[i..] == s;
    } else {
      ReplaceSkipsPrefixStep(s, pat, rep, i);
    }
  }

  lemma {:induction false} ReplaceSkipsPrefixStep(s: string, pat: string, rep: string, i: nat)
    requires pat != [] && 0 < i <= |s| && |pat| <= |s|
    requires forall j: nat :: j < i ==> !OccursAt(s, pat, j)
    ensures Replace(s, pat, rep) == s[..i] + Replace(s[i..], pat, rep)
    decreases i, 0
  {
    var t := s[1..];
    assert Replace(s, pat, rep) == [s[0]] + Replace(t, pat, rep) by {
      assert !OccursAt(s, pat, 0);
      ReplaceCopiesChar(s, pat, rep);
    }
    NoOccurrenceInTail(s, pat, i);
    ReplaceSkipsPrefix(t, pat, rep, i - 1);
    assert t[i - 1..] == s[i..];
    var rest := Replace(s[i..], pat, rep);
    assert Replace(t, pat, rep) == t[..i - 1] + rest;
    ConsPrefix(s, i, rest);
  }

  lemma ConsPrefix(s: string, i: nat, rest: string)
    requires 0 < i <= |s|
    ensures [s[0]] + (s[1..][..i - 1] + rest) == s[..i] + rest
  {
    assert [s[0]] + s[1..][..i - 1] == s[..i];
  }

  lemma NoOccurrenceInTail(s: string, pat: string, i: nat)
    requires 0 < i <= |s|
    requires forall j: nat :: j < i ==> !OccursAt(s, pat, j)
    ensures forall j: nat :: j < i - 1 ==> !OccursAt(s[1..], pat, j)
  {
    forall j: nat | j < i - 1
      ensures !OccursAt(s[1..], pat, j)
    {
      OccursInSuffix(s, pat, 1, j);
    }
  }

  /** Where `pat` does not occur, `replace` changes nothing. */
  lemma ReplaceWithoutOccurrence(s: string, pat: string, rep: string)
    requires pat != [] && !Contains(s, pat)
    ensures Replace(s, pat, rep) == s
  {
    ReplaceSkipsPrefix(s, pat, rep, |s|);
    assert s[..|s|] == s;
  }

  /** For a non-empty pattern, `s.replace(pat, rep) == rep.join(s.split(pat))`:
      the text between occurrences is kept and each occurrence becomes `rep`. */
  lemma {:induction false} ReplaceIsJoinOfSplit(s: string, pat: string, rep: string)
    requires pat != []
    ensures Replace(s, pat, rep) == Join(Split(s, pat), rep)
    decreases |s|
  {
    match Find(s, pat)
    case None =>
      ReplaceWithoutOccurrence(s, pat, rep);
    case Some(i) =>
      var rest := s[i + |pat|..];
      ReplaceSkipsPrefix(s, pat, rep, i);
      var tail := s[i..];
      OccursInSuffix(s, pat, i, 0);
      ReplaceAtOccurrence(tail, pat, rep);
      assert tail[|pat|..] == rest;
      ReplaceIsJoinOfSplit(rest, pat, rep);
      SplitAtFirst(s, pat, i);
      JoinCons(s[..i], Split(rest, pat), rep);
  }

  /** For the empty pattern, `rep` lands before, between and after the characters. */
  lemma {:induction false} InterleaveIsFramedJoin(s: string, rep: string)
    ensures Replace(s, [], rep) == if s == [] then rep else rep + Join(Chars(s), rep) + rep
    decreases |s|
  {
    if s != [] {
      InterleaveIsFramedJoin(s[1..], rep);
      if |s| > 1 {
        assert Chars(s)[1..] == Chars(s[1..]);
      }
    }
  }

  /** Replacing a string by itself is the identity. */
  lemma ReplaceByItself(s: string, pat: string)
    ensures Replace(s, pat, pat) == s
  {
    if pat == [] {
      InterleaveEmpty(s);
    } else {
      ReplaceIsJoinOfSplit(s, pat, pat);
      JoinSplit(s, pat);
    }
  }

  lemma {:induction false} InterleaveEmpty(s: string)
    ensures Interleave(s, []) == s
    decreases |s|
  {
    if s != [] {
      InterleaveEmpty(s[1..]);
    }
  }
}
