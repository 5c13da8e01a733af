/** Text operations shared by the backend and the frontend: substring search,
    stripping, whitespace splitting and the last token of a string.

    Python's `str.strip()` / `str.split()` and JavaScript's `String.prototype.trim()`
    run the same index scans over different sets of whitespace characters, so
    every operation here takes the whitespace class `ws` as a parameter. */
module Text {

  /** Every character of `s` at an index in [lo, hi) is whitespace. */
  ghost predicate Blank(s: string, lo: int, hi: int, ws: char -> bool) {
    forall i :: lo <= i < hi && 0 <= i < |s| ==> ws(s[i])
  }

  /** Every character of `s` is whitespace (vacuously true of ""). */
  ghost predicate AllSpace(s: string, ws: char -> bool) {
    Blank(s, 0, |s|, ws)
  }

  /** A token: non-empty and free of whitespace. */
  ghost predicate IsToken(w: string, ws: char -> bool) {
    w != [] && forall i :: 0 <= i < |w| ==> !ws(w[i])
  }

  // ---------------------------------------------------------------------------
  // Substring containment (Python's `p in s`)
  // ---------------------------------------------------------------------------

  ghost predicate OccursAt(s: string, p: string, i: int) {
    0 <= i <= |s| - |p| && s[i..i + |p|] == p
  }

  /** `p in s`: true exactly when `p` occurs at some position of `s`. */
  function Contains(s: string, p: string): (r: bool)
    ensures r <==> exists i :: OccursAt(s, p, i)
    decreases |s|
  {
    if |s| < |p| then false
    else if s[..|p|] == p then
      assert OccursAt(s, p, 0);
      true
    else
      ContainsStep(s, p);
      Contains(s[1..], p)
  }

  /** When `p` is not a prefix of `s`, its occurrences in `s` are those in `s[1..]`. */
  lemma ContainsStep(s: string, p: string)
    requires |p| <= |s| && s[..|p|] != p
    ensures (exists i :: OccursAt(s, p, i)) <==> (exists j :: OccursAt(s[1..], p, j))
  {
    if exists i :: OccursAt(s, p, i) {
      var i :| OccursAt(s, p, i);
      assert i != 0;
      assert s[1..][i - 1..i - 1 + |p|] == s[i..i + |p|];
      assert OccursAt(s[1..], p, i - 1);
    }
    if exists j :: OccursAt(s[1..], p, j) {
      var j :| OccursAt(s[1..], p, j);
      assert s[1..][j..j + |p|] == s[j + 1..j + 1 + |p|];
      assert OccursAt(s, p, j + 1);
    }
  }

  /** A string that contains `p` contains the first character of `p`. */
  lemma ContainsHead(s: string, p: string)
    requires p != []
    ensures Contains(s, p) ==> p[0] in s
  {
    if Contains(s, p) {
      var i :| OccursAt(s, p, i);
      assert s[i] == s[i..i + |p|][0];
    }
  }

  /** `p` occurs in `a + p + b`. */
  lemma ContainsInfix(a: string, p: string, b: string)
    ensures Contains(a + p + b, p)
  {
    assert (a + p + b)[|a|..|a| + |p|] == p;
    assert OccursAt(a + p + b, p, |a|);
  }

  // ---------------------------------------------------------------------------
  // Index scans
  // ---------------------------------------------------------------------------

  /** The index of the first non-whitespace character at or after `from`, or |s|. */
  function SkipSpace(s: string, from: nat, ws: char -> bool): (a: nat)
    requires from <= |s|
    ensures from <= a <= |s| && Blank(s, from, a, ws)
    ensures a == |s| || !ws(s[a])
    decreases |s| - from
  {
    if from < |s| && ws(s[from]) then SkipSpace(s, from + 1, ws) else from
  }

  /** The index just past the run of non-whitespace characters starting at `from`. */
  function SkipWord(s: string, from: nat, ws: char -> bool): (b: nat)
    requires from <= |s|
    ensures from <= b <= |s| && forall i :: from <= i < b ==> !ws(s[i])
    ensures b == |s| || ws(s[b])
    decreases |s| - from
  {
    if from < |s| && !ws(s[from]) then SkipWord(s, from + 1, ws) else from
  }

  /** The index just past the last non-whitespace character of s[lo..hi], or lo. */
  function SkipSpaceBack(s: string, lo: nat, hi: nat, ws: char -> bool): (e: nat)
    requires lo <= hi <= |s|
    ensures lo <= e <= hi && Blank(s, e, hi, ws)
    ensures e == lo || !ws(s[e - 1])
    decreases hi
  {
    if lo < hi && ws(s[hi - 1]) then SkipSpaceBack(s, lo, hi - 1, ws) else hi
  }

  // ---------------------------------------------------------------------------
  // Stripping (Python's `str.strip()`, JavaScript's `trim()`)
  // ---------------------------------------------------------------------------

  /** `r` sits at offset `k` of `s` with nothing but whitespace around it. */
  ghost predicate Framed(s: string, r: string, k: int, ws: char -> bool) {
    0 <= k <= |s| - |r| && s[k..k + |r|] == r
    && Blank(s, 0, k, ws) && Blank(s, k + |r|, |s|, ws)
  }

  /** `r` neither starts nor ends with whitespace. */
  ghost predicate Tight(r: string, ws: char -> bool) {
    r == [] || (!ws(r[0]) && !ws(r[|r| - 1]))
  }

  /** Strips whitespace from both ends: what is left is framed by whitespace in
      `s`, is tight, and is empty exactly when `s` is blank. */
  function Strip(s: string, ws: char -> bool): (r: string)
    ensures exists k :: Framed(s, r, k, ws)
    ensures Tight(r, ws)
    ensures r == [] <==> AllSpace(s, ws)
  {
    var a := SkipSpace(s, 0, ws);
    var e := SkipSpaceBack(s, a, |s|, ws);
    assert Framed(s, s[a..e], a, ws);
    assert a < e ==> s[a..e][0] == s[a] && s[a..e][e - a - 1] == s[e - 1];
    s[a..e]
  }

  /** A string has one tight whitespace-framed part: so Strip is fully
      determined by its contract. */
  lemma FramedUnique(s: string, r1: string, k1: int, r2: string, k2: int, ws: char -> bool)
    requires Framed(s, r1, k1, ws) && Tight(r1, ws)
    requires Framed(s, r2, k2, ws) && Tight(r2, ws)
    ensures r1 == r2
  {
    var e1, e2 := k1 + |r1|, k2 + |r2|;
    assert r1 != [] ==> s[k1] == r1[0] && s[e1 - 1] == r1[|r1| - 1];
    assert r2 != [] ==> s[k2] == r2[0] && s[e2 - 1] == r2[|r2| - 1];
    if r1 != [] && r2 != [] {
      assert k1 == k2 && e1 == e2;
    }
  }

  /** An occurrence in a slice of `s` is an occurrence in `s`. */
  lemma OccursInSlice(s: string, r: string, k: int, m: string, i: int)
    requires 0 <= k <= |s| - |r| && s[k..k + |r|] == r && OccursAt(r, m, i)
    ensures OccursAt(s, m, k + i)
  {
    forall j | 0 <= j < |m| ensures s[k + i + j] == m[j] {
      assert s[k + i + j] == s[k..k + |r|][i + j] == r[i + j] == r[i..i + |m|][j];
    }
    assert s[k + i..k + i + |m|] == m;
  }

  /** An occurrence of a non-empty tight pattern lies inside the part of `s`
      that whitespace frames. */
  lemma OccursInFrame(s: string, r: string, k: int, m: string, i: int, ws: char -> bool)
    requires Framed(s, r, k, ws) && m != [] && Tight(m, ws) && OccursAt(s, m, i)
    ensures OccursAt(r, m, i - k)
  {
    var j := i + |m| - 1;
    assert s[i] == m[0] && s[j] == m[|m| - 1];
    assert k <= i && j < k + |r|;
    forall x | 0 <= x < |m| ensures r[i - k + x] == m[x] {
      assert r[i - k + x] == s[k..k + |r|][i - k + x] == s[i + x] == s[i..i + |m|][x];
    }
    assert r[i - k..i - k + |m|] == m;
  }

  /** Stripping keeps every occurrence of a non-empty tight pattern: the
      whitespace it removes cannot hold a character of one. */
  lemma ContainsStrip(s: string, m: string, ws: char -> bool)
    requires m != [] && Tight(m, ws)
    ensures Contains(Strip(s, ws), m) <==> Contains(s, m)
  {
    var r := Strip(s, ws);
    var k :| Framed(s, r, k, ws);
    if Contains(r, m) {
      var i :| OccursAt(r, m, i);
      OccursInSlice(s, r, k, m, i);
    }
    if Contains(s, m) {
      var i :| OccursAt(s, m, i);
      OccursInFrame(s, r, k, m, i, ws);
    }
  }

  /** Any tight part that whitespace frames is what Strip yields. */
  lemma StripFramed(s: string, r: string, k: int, ws: char -> bool)
    requires Framed(s, r, k, ws) && Tight(r, ws)
    ensures Strip(s, ws) == r
  {
    var k' :| Framed(s, Strip(s, ws), k', ws);
    FramedUnique(s, r, k, Strip(s, ws), k', ws);
  }

  /** A tight string is its own Strip. */
  lemma StripTight(s: string, ws: char -> bool)
    requires Tight(s, ws)
    ensures Strip(s, ws) == s
  {
    assert s[0..|s|] == s;
    StripFramed(s, s, 0, ws);
  }

  /** A part framed by whitespace stays framed when more whitespace is put around. */
  lemma FramedWithin(w1: string, s: string, w2: string, r: string, k: int, ws: char -> bool)
    requires AllSpace(w1, ws) && AllSpace(w2, ws) && Framed(s, r, k, ws)
    ensures Framed(w1 + s + w2, r, |w1| + k, ws)
  {
    var t := w1 + s + w2;
    var m := |w1| + k;
    forall i | 0 <= i < |r| ensures t[m + i] == r[i] {
      assert t[m + i] == s[k + i] == s[k..k + |r|][i];
    }
    assert t[m..m + |r|] == r;
    forall i | 0 <= i < m ensures ws(t[i]) {
      if i < |w1| { assert t[i] == w1[i]; } else { assert t[i] == s[i - |w1|]; }
    }
    forall i | m + |r| <= i < |t| ensures ws(t[i]) {
      if i < |w1| + |s| { assert t[i] == s[i - |w1|]; } else { assert t[i] == w2[i - |w1| - |s|]; }
    }
  }

  /** Whitespace around a string does not change what Strip yields. */
  lemma StripIgnoresMargins(w1: string, s: string, w2: string, ws: char -> bool)
    requires AllSpace(w1, ws) && AllSpace(w2, ws)
    ensures Strip(w1 + s + w2, ws) == Strip(s, ws)
  {
    var r := Strip(s, ws);
    var k :| Framed(s, r, k, ws);
    FramedWithin(w1, s, w2, r, k, ws);
    StripFramed(w1 + s + w2, r, |w1| + k, ws);
  }

  // ---------------------------------------------------------------------------
  // Whitespace splitting (Python's argument-less `str.split()`)
  // ---------------------------------------------------------------------------

  /** The maximal runs of non-whitespace characters of s[from..], in order. */
  function SplitFrom(s: string, from: nat, ws: char -> bool): (r: seq<string>)
    requires from <= |s|
    ensures forall k :: 0 <= k < |r| ==> IsToken(r[k], ws)
    ensures r == [] <==> Blank(s, from, |s|, ws)
    decreases |s| - from
  {
    var a := SkipSpace(s, from, ws);
    if a == |s| then []
    else
      var b := SkipWord(s, a, ws);
      [s[a..b]] + SplitFrom(s, b, ws)
  }

  /** `w` occurs at offset `a` of `s`, with only whitespace between `from` and `a`. */
  ghost predicate WordAt(s: string, from: int, a: int, w: string, ws: char -> bool) {
    0 <= from <= a && a + |w| <= |s| && Blank(s, from, a, ws) && s[a..a + |w|] == w
  }

  /** From `from` on, `s` is a run of whitespace, `words[0]`, a non-empty run of
      whitespace, `words[1]`, ..., the last word and a run of whitespace: the
      layout `b0 + words[0] + b1 + ... + words[n-1] + bn` with every `bi` blank
      and every inner `bi` non-empty. */
  ghost predicate Gapped(s: string, from: nat, words: seq<string>, ws: char -> bool)
    decreases |words|
  {
    from <= |s| &&
    if words == [] then Blank(s, from, |s|, ws)
    else
      exists a ::
        && WordAt(s, from, a, words[0], ws)
        && (|words| > 1 ==> a + |words[0]| < |s| && ws(s[a + |words[0]|]))
        && Gapped(s, a + |words[0]|, words[1..], ws)
  }

  /** The first token split off at `from` and the rest, unfolded. */
  lemma SplitFromHead(s: string, from: nat, ws: char -> bool)
    requires from <= |s| && SplitFrom(s, from, ws) != []
    ensures var a := SkipSpace(s, from, ws); var b := SkipWord(s, a, ws);
      a < b <= |s| && SplitFrom(s, from, ws) == [s[a..b]] + SplitFrom(s, b, ws)
  {
  }

  /** SplitFrom lays its tokens out in `s` as Gapped describes. */
  lemma {:induction false} SplitFromGapped(s: string, from: nat, ws: char -> bool)
    requires from <= |s|
    ensures Gapped(s, from, SplitFrom(s, from, ws), ws)
    decreases |s| - from
  {
    var words := SplitFrom(s, from, ws);
    if words != [] {
      SplitFromHead(s, from, ws);
      var a := SkipSpace(s, from, ws);
      var b := SkipWord(s, a, ws);
      var rest := SplitFrom(s, b, ws);
      SplitFromGapped(s, b, ws);
      GappedCons(s, from, a, s[a..b], rest, ws);
      assert words == [s[a..b]] + rest;
    }
  }

  /** The step of SplitFromGapped: a word after a blank run, then a Gapped rest. */
  lemma GappedCons(s: string, from: nat, a: nat, w: string, rest: seq<string>, ws: char -> bool)
    requires WordAt(s, from, a, w, ws) && Gapped(s, a + |w|, rest, ws)
    requires rest != [] ==> a + |w| < |s| && ws(s[a + |w|])
    ensures Gapped(s, from, [w] + rest, ws)
  {
    var words := [w] + rest;
    assert words[0] == w && words[1..] == rest;
  }

  /** Skipping whitespace from `from` passes over a blank run up to `a`. */
  lemma {:induction false} SkipSpaceBlank(s: string, from: nat, a: nat, ws: char -> bool)
    requires from <= a <= |s| && Blank(s, from, a, ws)
    ensures SkipSpace(s, from, ws) == SkipSpace(s, a, ws)
    decreases a - from
  {
    if from < a {
      assert ws(s[from]);
      SkipSpaceBlank(s, from + 1, a, ws);
    }
  }

  /** Leading whitespace does not change what is split off. */
  lemma SplitFromBlank(s: string, from: nat, a: nat, ws: char -> bool)
    requires from <= a <= |s| && Blank(s, from, a, ws)
    ensures SplitFrom(s, from, ws) == SplitFrom(s, a, ws)
  {
    SkipSpaceBlank(s, from, a, ws);
  }

  /** Tokens laid out in `s` from `from` on as Gapped describes are exactly what
      SplitFrom splits off there. */
  lemma {:induction false} GappedSplitFrom(s: string, from: nat, words: seq<string>, ws: char -> bool)
    requires forall k :: 0 <= k < |words| ==> IsToken(words[k], ws)
    requires Gapped(s, from, words, ws)
    ensures SplitFrom(s, from, ws) == words
    decreases 2 * |words|
  {
    if words != [] {
      var w, tail := words[0], words[1..];
      var a :|
        && WordAt(s, from, a, w, ws)
        && (|words| > 1 ==> a + |w| < |s| && ws(s[a + |w|]))
        && Gapped(s, a + |w|, tail, ws);
      assert words == [w] + tail;
      assert IsToken(w, ws);
      assert forall k :: 0 <= k < |tail| ==> IsToken(tail[k], ws);
      GappedSplitCons(s, from, a, w, tail, ws);
    }
  }

  /** The step of GappedSplitFrom: a token after a blank run, then Gapped tokens. */
  lemma {:induction false} GappedSplitCons(s: string, from: nat, a: nat, w: string, tail: seq<string>, ws: char -> bool)
    requires IsToken(w, ws) && forall k :: 0 <= k < |tail| ==> IsToken(tail[k], ws)
    requires WordAt(s, from, a, w, ws) && Gapped(s, a + |w|, tail, ws)
    requires tail != [] ==> a + |w| < |s| && ws(s[a + |w|])
    ensures SplitFrom(s, from, ws) == [w] + tail
    decreases 2 * |tail| + 1
  {
    GappedSplitFrom(s, a + |w|, tail, ws);
    if tail == [] && a + |w| < |s| {
      assert Blank(s, a + |w|, |s|, ws);
    }
    SplitFromWord(s, a, w, ws);
    SplitFromBlank(s, from, a, ws);
  }

  /** Split is the only way to lay tokens out in `s`: any token sequence whose
      layout is `s` is Split(s). */
  lemma GappedSplit(s: string, words: seq<string>, ws: char -> bool)
    requires forall k :: 0 <= k < |words| ==> IsToken(words[k], ws)
    requires Gapped(s, 0, words, ws)
    ensures Split(s, ws) == words
  {
    GappedSplitFrom(s, 0, words, ws);
  }

  /** The tokens of `s`: whitespace runs of any length separate them and leading
      or trailing whitespace yields no empty token. */
  function Split(s: string, ws: char -> bool): (r: seq<string>)
    ensures forall k :: 0 <= k < |r| ==> IsToken(r[k], ws)
    ensures r == [] <==> AllSpace(s, ws)
    ensures Gapped(s, 0, r, ws)
  {
    SplitFromGapped(s, 0, ws);
    SplitFrom(s, 0, ws)
  }

  /** The words separated by single spaces: the inverse of Split. */
  function Join(words: seq<string>): string {
    if words == [] then []
    else if |words| == 1 then words[0]
    else words[0] + " " + Join(words[1..])
  }

  /** A whitespace character at `from` is skipped like any leading whitespace. */
  lemma SplitFromSkip(s: string, from: nat, ws: char -> bool)
    requires from < |s| && ws(s[from])
    ensures SplitFrom(s, from, ws) == SplitFrom(s, from + 1, ws)
  {
  }

  /** A run of non-whitespace from `from` that stops at `n` is a whole word. */
  lemma SkipWordReaches(s: string, from: nat, n: nat, ws: char -> bool)
    requires from <= n <= |s|
    requires forall i :: from <= i < n ==> !ws(s[i])
    requires n == |s| || ws(s[n])
    ensures SkipWord(s, from, ws) == n
    decreases n - from
  {
    if from < n {
      SkipWordReaches(s, from + 1, n, ws);
    }
  }

  /** A token `w` at `from`, followed by whitespace or the end, is the first
      token split off at `from`. */
  lemma SplitFromWord(s: string, from: nat, w: string, ws: char -> bool)
    requires IsToken(w, ws) && from + |w| <= |s| && s[from..from + |w|] == w
    requires from + |w| == |s| || ws(s[from + |w|])
    ensures SplitFrom(s, from, ws) == [w] + SplitFrom(s, from + |w|, ws)
  {
    var n := from + |w|;
    assert !ws(s[from]) && SkipWord(s, from, ws) == n by {
      forall i | from <= i < n ensures !ws(s[i]) {
        assert s[i] == w[i - from];
      }
      SkipWordReaches(s, from, n, ws);
    }
  }

  /** A token that runs to the end is the only token split off. */
  lemma SplitFromOne(s: string, from: nat, w: string, ws: char -> bool)
    requires IsToken(w, ws) && from + |w| == |s| && s[from..from + |w|] == w
    ensures SplitFrom(s, from, ws) == [w]
  {
    SplitFromWord(s, from, w, ws);
    assert Blank(s, |s|, |s|, ws);
  }

  /** When a token is followed by a space and the text after the space splits
      into `rest`, the text from the token on splits into the token and `rest`. */
  lemma SplitFromCons(s: string, from: nat, w: string, rest: seq<string>, ws: char -> bool)
    requires ws(' ') && IsToken(w, ws)
    requires from + |w| < |s| && s[from..from + |w|] == w && s[from + |w|] == ' '
    requires SplitFrom(s, from + |w| + 1, ws) == rest
    ensures SplitFrom(s, from, ws) == [w] + rest
  {
    SplitFromWord(s, from, w, ws);
    SplitFromSkip(s, from + |w|, ws);
  }

  /** From `from` on, `s` holds exactly `words`, one space between each two. */
  ghost predicate Spaced(s: string, from: nat, words: seq<string>)
    decreases |words|
  {
    from <= |s| &&
    if words == [] then from == |s|
    else
      var n := from + |words[0]|;
      n <= |s| && s[from..n] == words[0] &&
      if |words| == 1 then n == |s|
      else n < |s| && s[n] == ' ' && Spaced(s, n + 1, words[1..])
  }

  /** A suffix equal to the join of two or more words starts with the first
      word and a space, then holds the join of the others. */
  lemma JoinHead(s: string, from: nat, words: seq<string>)
    requires |words| > 1 && from <= |s| && s[from..] == Join(words)
    ensures from + |words[0]| < |s| && s[from..from + |words[0]|] == words[0]
    ensures s[from + |words[0]|] == ' ' && s[from + |words[0]| + 1..] == Join(words[1..])
  {
    var w, rest := words[0], Join(words[1..]);
    assert s[from..] == w + " " + rest;
    assert s[from..][..|w|] == w;
    assert s[from..][|w|] == ' ';
    assert s[from..][|w| + 1..] == rest;
  }

  /** A suffix equal to `Join(words)` holds the words spaced by single spaces. */
  lemma {:induction false} JoinSpaced(s: string, from: nat, words: seq<string>)
    requires from <= |s| && s[from..] == Join(words)
    ensures Spaced(s, from, words)
    decreases |words|
  {
    if words == [] {
      assert |s[from..]| == 0;
    } else if |words| == 1 {
      assert s[from..from + |words[0]|] == s[from..];
    } else {
      JoinHead(s, from, words);
      JoinSpaced(s, from + |words[0]| + 1, words[1..]);
    }
  }

  /** Splitting a suffix that holds tokens spaced by single spaces gives the tokens. */
  lemma {:induction false} SplitSpaced(s: string, from: nat, words: seq<string>, ws: char -> bool)
    requires ws(' ')
    requires forall k :: 0 <= k < |words| ==> IsToken(words[k], ws)
    requires Spaced(s, from, words)
    ensures SplitFrom(s, from, ws) == words
    decreases 2 * |words|
  {
    if words == [] {
      assert Blank(s, from, |s|, ws);
    } else if |words| == 1 {
      assert IsToken(words[0], ws);
      SplitFromOne(s, from, words[0], ws);
      assert words == [words[0]];
    } else {
      var w, tail := words[0], words[1..];
      assert words == [w] + tail;
      assert IsToken(w, ws);
      assert forall k :: 0 <= k < |tail| ==> IsToken(tail[k], ws);
      SplitSpacedCons(s, from, w, tail, ws);
    }
  }

  /** The step of SplitSpaced: a token, a space, then spaced tokens. */
  lemma {:induction false} SplitSpacedCons(s: string, from: nat, w: string, tail: seq<string>, ws: char -> bool)
    requires ws(' ') && IsToken(w, ws)
    requires forall k :: 0 <= k < |tail| ==> IsToken(tail[k], ws)
    requires from + |w| < |s| && s[from..from + |w|] == w && s[from + |w|] == ' '
    requires Spaced(s, from + |w| + 1, tail)
    ensures SplitFrom(s, from, ws) == [w] + tail
    decreases 2 * |tail| + 1
  {
    SplitSpaced(s, from + |w| + 1, tail, ws);
    SplitFromCons(s, from, w, tail, ws);
  }

  /** Splitting words joined by single spaces gives the words back. */
  lemma SplitJoin(words: seq<string>, ws: char -> bool)
    requires ws(' ')
    requires forall k :: 0 <= k < |words| ==> IsToken(words[k], ws)
    ensures Split(Join(words), ws) == words
  {
    JoinSpaced(Join(words), 0, words);
    SplitSpaced(Join(words), 0, words, ws);
  }

  /** `s` splits into at least two tokens when a non-whitespace character, a
      whitespace character and another non-whitespace character occur in it
      in that order. */
  lemma TwoTokens(s: string, i: int, j: int, k: int, ws: char -> bool)
    requires 0 <= i < j < k < |s|
    requires !ws(s[i]) && ws(s[j]) && !ws(s[k])
    ensures |Split(s, ws)| >= 2
  {
    var a := SkipSpace(s, 0, ws);
    assert a <= i;
    var b := SkipWord(s, a, ws);
    assert b <= j;
    assert !Blank(s, b, |s|, ws);
  }

  // ---------------------------------------------------------------------------
  // The last token (Python's `s.split()[-1]`)
  // ---------------------------------------------------------------------------

  /** `w` starts at offset `k` of `s`, not before `from`, is preceded by
      whitespace or by `from`, and is followed by whitespace only. */
  ghost predicate TrailingAt(s: string, w: string, k: int, from: nat, ws: char -> bool) {
    from <= k && 0 <= k <= |s| - |w| && s[k..k + |w|] == w
    && Blank(s, k + |w|, |s|, ws) && (k == from || ws(s[k - 1]))
  }

  /** `w` is the last whitespace-delimited token of `s`. */
  ghost predicate IsLastWord(s: string, w: string, ws: char -> bool) {
    IsToken(w, ws) && exists k :: TrailingAt(s, w, k, 0, ws)
  }

  lemma {:induction false} LastOfSplitFrom(s: string, from: nat, ws: char -> bool)
    requires from <= |s| && SplitFrom(s, from, ws) != []
    ensures exists k :: TrailingAt(s, Last(SplitFrom(s, from, ws)), k, from, ws)
    decreases |s| - from
  {
    var a := SkipSpace(s, from, ws);
    var b := SkipWord(s, a, ws);
    var rest := SplitFrom(s, b, ws);
    assert SplitFrom(s, from, ws) == [s[a..b]] + rest;
    if rest == [] {
      assert a == from || ws(s[a - 1]);
      assert TrailingAt(s, s[a..b], a, from, ws);
      assert Last(SplitFrom(s, from, ws)) == s[a..b];
    } else {
      LastOfSplitFrom(s, b, ws);
      var v := Last(rest);
      var k :| TrailingAt(s, v, k, b, ws);
      assert IsToken(v, ws);
      assert s[k] == v[0];
      assert b < |s|;
      assert TrailingAt(s, v, k, from, ws);
      assert Last(SplitFrom(s, from, ws)) == v;
    }
  }

  function Last(r: seq<string>): string
    requires r != []
  {
    r[|r| - 1]
  }

  /** The last element of Split is the last token of the string. */
  lemma LastOfSplit(s: string, ws: char -> bool)
    requires Split(s, ws) != []
    ensures IsLastWord(s, Last(Split(s, ws)), ws)
  {
    LastOfSplitFrom(s, 0, ws);
  }

  /** The last token of `s`, defined whenever `s` is not blank. */
  function LastToken(s: string, ws: char -> bool): (w: string)
    requires Split(s, ws) != []
    ensures IsLastWord(s, w, ws)
  {
    LastOfSplit(s, ws);
    Last(Split(s, ws))
  }

  /** A token trailing a whitespace-framed part trails the whole string. */
  lemma TrailingInFrame(s: string, r: string, k: int, w: string, j: int, ws: char -> bool)
    requires Framed(s, r, k, ws) && TrailingAt(r, w, j, 0, ws)
    ensures TrailingAt(s, w, k + j, 0, ws)
  {
    forall i | 0 <= i < |r| ensures s[k + i] == r[i] {
      assert r[i] == s[k..k + |r|][i];
    }
    forall i | 0 <= i < |w| ensures s[k + j + i] == w[i] {
      assert w[i] == r[j..j + |w|][i];
    }
    assert s[k + j..k + j + |w|] == w;
  }

  /** The last token of the stripped string is the last token of the string. */
  lemma LastWordOfStrip(s: string, w: string, ws: char -> bool)
    requires IsLastWord(Strip(s, ws), w, ws)
    ensures IsLastWord(s, w, ws)
  {
    var r := Strip(s, ws);
    var k :| Framed(s, r, k, ws);
    var j :| TrailingAt(r, w, j, 0, ws);
    TrailingInFrame(s, r, k, w, j, ws);
  }

  /** Inside a trailing token every character is non-whitespace. */
  lemma TrailingSolid(s: string, w: string, k: int, ws: char -> bool)
    requires IsToken(w, ws) && TrailingAt(s, w, k, 0, ws)
    ensures forall i :: k <= i < k + |w| ==> !ws(s[i])
  {
    forall i | k <= i < k + |w| ensures !ws(s[i]) {
      assert s[i] == s[k..k + |w|][i - k];
    }
  }

  /** Two trailing tokens end at the same index. */
  lemma TrailingEnds(s: string, w1: string, k1: int, w2: string, k2: int, ws: char -> bool)
    requires IsToken(w1, ws) && TrailingAt(s, w1, k1, 0, ws)
    requires IsToken(w2, ws) && TrailingAt(s, w2, k2, 0, ws)
    ensures k1 + |w1| == k2 + |w2|
  {
    TrailingSolid(s, w1, k1, ws);
    TrailingSolid(s, w2, k2, ws);
    assert !ws(s[k1 + |w1| - 1]) && !ws(s[k2 + |w2| - 1]);
  }

  /** Two trailing tokens that end together start together. */
  lemma TrailingStarts(s: string, w1: string, k1: int, w2: string, k2: int, ws: char -> bool)
    requires IsToken(w1, ws) && TrailingAt(s, w1, k1, 0, ws)
    requires IsToken(w2, ws) && TrailingAt(s, w2, k2, 0, ws)
    requires k1 + |w1| == k2 + |w2|
    ensures k1 == k2
  {
    TrailingSolid(s, w1, k1, ws);
    TrailingSolid(s, w2, k2, ws);
  }

  /** A string has at most one last token. */
  lemma LastWordUnique(s: string, w1: string, w2: string, ws: char -> bool)
    requires IsLastWord(s, w1, ws) && IsLastWord(s, w2, ws)
    ensures w1 == w2
  {
    var k1 :| TrailingAt(s, w1, k1, 0, ws);
    var k2 :| TrailingAt(s, w2, k2, 0, ws);
    TrailingEnds(s, w1, k1, w2, k2, ws);
    TrailingStarts(s, w1, k1, w2, k2, ws);
  }
}
