/**
  The changelog line formatter, `formatCommit` in scripts/release.js and
  `formatCommitForChangelog` in scripts/bump-version.js (the same two
  replacements in both): strip the prefix matched by
  `^[a-z]+(\(.+\))?!?:\s*` under the `i` flag, then upper-case the first character.

  The prefix is specified by `PrefixMatch` (the pattern read as a grammar)
  and computed by `PrefixEnd`, which follows the backtracking order of the
  regular expression: the greedy `.+` makes the scope end at the rightmost
  `)` that is followed by `:` or `!:`, the greedy `!?` prefers `!:`, and
  `\s*` takes all the white space after the colon. The two lemmas
  `PrefixEndSound` and `PrefixEndLongest` show that this is the longest
  match of the pattern.
 */
module CommitFormat {
  import opened Wrappers
  import opened Strings

  predicate AllLetters(s: string, lo: nat, hi: nat)
    requires lo <= hi <= |s|
  {
    forall i | lo <= i < hi :: IsLetter(s[i])
  }

  /** `(\(.+\))?` matches `s[a..b]`. */
  predicate ScopeMatch(s: string, a: nat, b: nat)
    requires a <= b <= |s|
  {
    a == b || (a + 3 <= b && s[a] == '(' && s[b - 1] == ')' && NoLineTerminator(s, a + 1, b - 1))
  }

  /** `!?:` matches `s[b..c]`. */
  predicate BangColonMatch(s: string, b: nat, c: nat)
    requires b <= c <= |s|
  {
    (c == b + 1 && s[b] == ':') || (c == b + 2 && s[b] == '!' && s[b + 1] == ':')
  }

  /** The whole pattern `[a-z]+(\(.+\))?!?:\s*` (case-insensitive) matches `s[..k]`. */
  ghost predicate PrefixMatch(s: string, k: nat) {
    k <= |s| &&
    exists a: nat, b: nat, c: nat | 1 <= a <= b <= c <= k ::
      AllLetters(s, 0, a) && ScopeMatch(s, a, b) && BangColonMatch(s, b, c) && AllSpace(s, c, k)
  }

  /** The number of leading ASCII letters. */
  function LetterRun(s: string): (n: nat)
    ensures n <= |s| && AllLetters(s, 0, n)
    ensures n < |s| ==> !IsLetter(s[n])
  {
    if s != [] && IsLetter(s[0]) then 1 + LetterRun(s[1..]) else 0
  }

  /** The number of white-space characters from index `from` on. */
  function SpaceRun(s: string, from: nat): (n: nat)
    requires from <= |s|
    decreases |s| - from
    ensures from + n <= |s| && AllSpace(s, from, from + n)
    ensures from + n < |s| ==> !IsSpace(s[from + n])
  {
    if from < |s| && IsSpace(s[from]) then 1 + SpaceRun(s, from + 1) else 0
  }

  /** Where `!?:` starting at `b` ends; it can end in one place at most. */
  function ColonEnd(s: string, b: nat): (r: Option<nat>)
    requires b <= |s|
    ensures r.Some? ==> b < r.value <= |s| && BangColonMatch(s, b, r.value)
    ensures forall c | b <= c <= |s| && BangColonMatch(s, b, c) :: r == Some(c)
  {
    if b + 2 <= |s| && s[b] == '!' && s[b + 1] == ':' then Some(b + 2)
    else if b + 1 <= |s| && s[b] == ':' then Some(b + 1)
    else None
  }

  /** `s[j]` can close a scope opened at `s[a]`: `.+` reaches it and `!?:` follows. */
  predicate ClosesScope(s: string, a: nat, j: nat) {
    a + 2 <= j < |s| && s[j] == ')' && NoLineTerminator(s, a + 1, j) && ColonEnd(s, j + 1).Some?
  }

  /** The largest `j <= hi` that closes the scope opened at `a`: the greedy `.+` backing off. */
  function LastScopeClose(s: string, a: nat, hi: int): (r: Option<nat>)
    decreases hi
    ensures r.Some? ==> r.value <= hi && ClosesScope(s, a, r.value)
    ensures r.Some? ==> forall j: nat | r.value < j <= hi :: !ClosesScope(s, a, j)
    ensures r.None? ==> forall j: nat | j <= hi :: !ClosesScope(s, a, j)
  {
    if hi < a + 2 then None
    else if ClosesScope(s, a, hi) then Some(hi)
    else LastScopeClose(s, a, hi - 1)
  }

  /** The length of the prefix the regular expression strips, or `None` when it does not match. */
  function PrefixEnd(s: string): (r: Option<nat>)
    ensures r.Some? ==> r.value <= |s|
  {
    var a := LetterRun(s);
    if a == 0 || a == |s| then None
    else if s[a] == '(' then ScopedEnd(s, a)
    else
      match ColonEnd(s, a)
      case None => None
      case Some(c) => Some(c + SpaceRun(s, c))
  }

  /** The end of the prefix when a scope opens at `s[a]`. */
  function ScopedEnd(s: string, a: nat): (r: Option<nat>)
    requires a < |s|
    ensures r.Some? ==> r.value <= |s|
  {
    match LastScopeClose(s, a, |s| - 1)
    case None => None
    case Some(j) =>
      var c := ColonEnd(s, j + 1).value;
      Some(c + SpaceRun(s, c))
  }

  /** What `PrefixEnd` finds is a match of the pattern. */
  lemma PrefixEndSound(s: string)
    ensures PrefixEnd(s).Some? ==> PrefixMatch(s, PrefixEnd(s).value)
  {
    var a := LetterRun(s);
    if PrefixEnd(s).Some? {
      var k := PrefixEnd(s).value;
      if s[a] == '(' {
        var j := LastScopeClose(s, a, |s| - 1).value;
        var c := ColonEnd(s, j + 1).value;
        assert ScopeMatch(s, a, j + 1);
        assert AllLetters(s, 0, a) && BangColonMatch(s, j + 1, c) && AllSpace(s, c, k);
      } else {
        var c := ColonEnd(s, a).value;
        assert ScopeMatch(s, a, a) && BangColonMatch(s, a, c) && AllSpace(s, c, k);
      }
    }
  }

  /** Every match of the pattern is covered by what `PrefixEnd` finds: it is the longest one. */
  lemma PrefixEndLongest(s: string, k: nat)
    requires PrefixMatch(s, k)
    ensures PrefixEnd(s).Some? && k <= PrefixEnd(s).value
  {
    var a: nat, b: nat, c: nat :| 1 <= a <= b <= c <= k &&
      AllLetters(s, 0, a) && ScopeMatch(s, a, b) && BangColonMatch(s, b, c) && AllSpace(s, c, k);
    // s[a] is `(`, `!` or `:`, so the letters of the match are all the leading letters
    assert !IsLetter(s[a]);
    assert LetterRun(s) == a;
    if s[a] == '(' {
      ScopedMatchLongest(s, a, b, c, k);
    } else {
      assert b == a;
      assert ColonEnd(s, a) == Some(c);
    }
  }

  /** `PrefixEndLongest` when the match has a scope. */
  lemma ScopedMatchLongest(s: string, a: nat, b: nat, c: nat, k: nat)
    requires 1 <= a <= b < c <= k <= |s| && LetterRun(s) == a && s[a] == '('
    requires ScopeMatch(s, a, b) && BangColonMatch(s, b, c) && AllSpace(s, c, k)
    ensures PrefixEnd(s).Some? && k <= PrefixEnd(s).value
  {
    assert ColonEnd(s, b) == Some(c);
    assert ClosesScope(s, a, b - 1);
    var j := LastScopeClose(s, a, |s| - 1).value;
    var e := ColonEnd(s, j + 1).value;
    PrefixEndScoped(s, a);
    ScopedEndAt(s, a, j, e);
    if j == b - 1 {
      assert e == c;
    } else {
      LaterCloseBound(s, b, c, k, j);
    }
  }

  lemma PrefixEndScoped(s: string, a: nat)
    requires 1 <= a < |s| && LetterRun(s) == a && s[a] == '('
    ensures PrefixEnd(s) == ScopedEnd(s, a)
  {
  }

  lemma ScopedEndAt(s: string, a: nat, j: nat, e: nat)
    requires a < |s| && LastScopeClose(s, a, |s| - 1) == Some(j) && ColonEnd(s, j + 1) == Some(e)
    ensures ScopedEnd(s, a) == Some(e + SpaceRun(s, e))
  {
  }

  lemma PlainPrefixEnd(s: string, a: nat, c: nat)
    requires 1 <= a < |s| && LetterRun(s) == a && s[a] != '(' && ColonEnd(s, a) == Some(c)
    ensures PrefixEnd(s) == Some(c + SpaceRun(s, c))
  {
  }

  /** A `)` after the scope of a match lies beyond that match. */
  lemma LaterCloseBound(s: string, b: nat, c: nat, k: nat, j: nat)
    requires b < c <= k <= |s| && BangColonMatch(s, b, c) && AllSpace(s, c, k)
    requires b <= j < |s| && s[j] == ')'
    ensures k <= j
  {
    assert forall i | b <= i < c :: s[i] == ':' || s[i] == '!';
    assert !IsSpace(s[j]);
  }

  /** The last character of a matched prefix is the colon or white space after it. */
  lemma PrefixEndsInColonOrSpace(s: string, k: nat)
    requires PrefixMatch(s, k)
    ensures 0 < k && (s[k - 1] == ':' || IsSpace(s[k - 1]))
  {
    var a: nat, b: nat, c: nat :| 1 <= a <= b <= c <= k &&
      AllLetters(s, 0, a) && ScopeMatch(s, a, b) && BangColonMatch(s, b, c) && AllSpace(s, c, k);
  }

  /** `formatCommit(message)`: strip the prefix, then upper-case the first character. */
  function FormatCommit(message: string): string {
    var rest := match PrefixEnd(message) case Some(k) => message[k..] case None => message;
    UpperFirst(rest)
  }

  /**
    When `message[..k]` is the longest match of the prefix pattern, the
    formatted line is `message[k..]` with its first character upper-cased,
    and it does not start with white space.
   */
  lemma FormatCommitStripsLongestPrefix(message: string, k: nat)
    requires PrefixMatch(message, k)
    requires forall k': nat | k < k' <= |message| :: !PrefixMatch(message, k')
    ensures FormatCommit(message) == UpperFirst(message[k..])
    ensures k < |message| ==> !IsSpace(message[k])
  {
    PrefixEndLongest(message, k);
    PrefixEndSound(message);
    if k < |message| && IsSpace(message[k]) {
      PrefixMatchExtends(message, k);
    }
  }

  /** A match followed by white space extends by one character. */
  lemma PrefixMatchExtends(s: string, k: nat)
    requires PrefixMatch(s, k) && k < |s| && IsSpace(s[k])
    ensures PrefixMatch(s, k + 1)
  {
    var a: nat, b: nat, c: nat :| 1 <= a <= b <= c <= k && AllLetters(s, 0, a)
      && ScopeMatch(s, a, b) && BangColonMatch(s, b, c) && AllSpace(s, c, k);
    assert AllSpace(s, c, k + 1);
  }

  /** A message with no such prefix changes in its first character only. */
  lemma FormatCommitWithoutPrefix(message: string)
    requires forall k: nat | k <= |message| :: !PrefixMatch(message, k)
    ensures FormatCommit(message) == UpperFirst(message)
    ensures |FormatCommit(message)| == |message|
    ensures 0 < |message| ==> FormatCommit(message)[1..] == message[1..]
  {
    PrefixEndSound(message);
  }

  lemma {:induction false} LetterRunIs(s: string, n: nat)
    requires n <= |s| && AllLetters(s, 0, n) && (n < |s| ==> !IsLetter(s[n]))
    ensures LetterRun(s) == n
  {
    if n > 0 {
      LetterRunIs(s[1..], n - 1);
    }
  }

  lemma {:induction false} SpaceRunIs(s: string, from: nat, n: nat)
    requires from + n <= |s| && AllSpace(s, from, from + n) && (from + n < |s| ==> !IsSpace(s[from + n]))
    decreases n
    ensures SpaceRun(s, from) == n
  {
    if n > 0 {
      SpaceRunIs(s, from + 1, n - 1);
    }
  }

  /**
    A message `type: description` (a one-blank separator, no scope) is
    formatted as its description with the first character upper-cased:
    `feat: add export` becomes `Add export`.
   */
  lemma FormatPlainTypedCommit(t: string, d: string)
    requires |t| >= 1 && AllLetters(t, 0, |t|)
    requires d == [] || !IsSpace(d[0])
    ensures FormatCommit(t + ": " + d) == UpperFirst(d)
  {
    var s := t + ": " + d;
    var a := |t|;
    assert s[a] == ':' && s[a + 1] == ' ';
    assert AllLetters(s, 0, a) by {
      forall i | 0 <= i < a ensures IsLetter(s[i]) {
        assert s[i] == t[i];
      }
    }
    LetterRunIs(s, a);
    assert ColonEnd(s, a) == Some(a + 1);
    assert a + 2 < |s| ==> s[a + 2] == d[0];
    SpaceRunIs(s, a + 1, 1);
    PlainPrefixEnd(s, a, a + 1);
    assert s[a + 2..] == d;
  }

  /** The scope runs to the rightmost `)` followed by `:`: `fix(a): b): c` becomes `C`. */
  lemma FormatGreedyScopeExample()
    ensures FormatCommit("fix(a): b): c") == "C"
  {
    var s := "fix(a): b): c";
    GreedyPrefixEnd(s);
    assert s[12..] == "c";
  }

  lemma GreedyPrefixEnd(s: string)
    requires s == "fix(a): b): c"
    ensures PrefixEnd(s) == Some(12)
  {
    LetterRunIs(s, 3);
    GreedyScopeClose(s);
    assert ColonEnd(s, 10) == Some(11);
    PrefixEndScoped(s, 3);
    ScopedEndAt(s, 3, 9, 11);
    SpaceRunIs(s, 11, 1);
  }

  lemma GreedyScopeClose(s: string)
    requires s == "fix(a): b): c"
    ensures LastScopeClose(s, 3, 12) == Some(9)
  {
    assert !ClosesScope(s, 3, 12) && !ClosesScope(s, 3, 11) && !ClosesScope(s, 3, 10);
    assert ColonEnd(s, 10) == Some(11);
    assert NoLineTerminator(s, 4, 9);
    assert ClosesScope(s, 3, 9);
  }
}
