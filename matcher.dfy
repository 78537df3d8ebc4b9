/** The regular-expression search the scanner does on each line: `key\S+`,
    where `key` is a literal such as "silence_end: ". `search` finds the
    leftmost position where the literal is followed by at least one
    non-whitespace character, and `\S+` then takes the longest run of
    non-whitespace characters. The scanner keeps only that run (the text after
    the one space of the match). */
module Matcher {
  import opened Wrappers
  import opened Text

  /** The literal `key` occurs at position i of the line, compared character
      by character as the regular-expression engine does. */
  predicate LiteralAt(line: string, key: string, i: nat)
    decreases |line| - i
  {
    key == [] || (i < |line| && line[i] == key[0] && LiteralAt(line, key[1..], i + 1))
  }

  /** The pattern `key\S` matches at position i of the line. */
  predicate MatchAt(line: string, key: string, i: nat) {
    i + |key| < |line| && LiteralAt(line, key, i) && !IsSpace(line[i + |key|])
  }

  /** `tok` is the token the pattern takes when it matches at position i:
      the literal, then a maximal non-empty run of non-whitespace. */
  predicate TokenAt(line: string, key: string, i: nat, tok: string) {
    var j := i + |key|;
    && j + |tok| <= |line|
    && line[i..j] == key
    && line[j..j + |tok|] == tok
    && tok != [] && NoSpace(tok)
    && (j + |tok| == |line| || IsSpace(line[j + |tok|]))
  }

  /** The end of the run of non-whitespace characters that starts at j. */
  function RunEnd(line: string, j: nat): (e: nat)
    requires j <= |line|
    ensures j <= e <= |line|
    decreases |line| - j
  {
    if j == |line| || IsSpace(line[j]) then j else RunEnd(line, j + 1)
  }

  /** The leftmost match position at or after i. */
  function SearchFrom(line: string, key: string, i: nat): (r: Option<nat>)
    requires i <= |line|
    ensures r.Some? ==> i <= r.value && r.value + |key| < |line|
    decreases |line| - i
  {
    if i == |line| then None
    else if MatchAt(line, key, i) then Some(i)
    else SearchFrom(line, key, i + 1)
  }

  /** `re.search(key + r"\S+", line)`, reduced to the non-whitespace run after the literal. */
  function FindToken(line: string, key: string): Option<string> {
    match SearchFrom(line, key, 0)
    case None => None
    case Some(i) => Some(line[i + |key|..RunEnd(line, i + |key|)])
  }

  /** RunEnd stops at the first whitespace character or at the end of the line. */
  lemma {:induction false} RunEndMaximal(line: string, j: nat)
    requires j <= |line|
    ensures forall k | j <= k < RunEnd(line, j) :: !IsSpace(line[k])
    ensures RunEnd(line, j) == |line| || IsSpace(line[RunEnd(line, j)])
    decreases |line| - j
  {
    if j < |line| && !IsSpace(line[j]) {
      RunEndMaximal(line, j + 1);
    }
  }

  /** SearchFrom finds the leftmost match at or after i, or reports there is none. */
  lemma {:induction false} SearchFromLeftmost(line: string, key: string, i: nat)
    requires i <= |line|
    ensures SearchFrom(line, key, i).None? ==> forall k: nat | i <= k :: !MatchAt(line, key, k)
    ensures SearchFrom(line, key, i).Some? ==>
      && MatchAt(line, key, SearchFrom(line, key, i).value)
      && forall k: nat | i <= k < SearchFrom(line, key, i).value :: !MatchAt(line, key, k)
    decreases |line| - i
  {
    if i < |line| && !MatchAt(line, key, i) {
      SearchFromLeftmost(line, key, i + 1);
    }
  }

  /** What `search` returns: nothing exactly when the pattern matches nowhere;
      otherwise the maximal token of the leftmost match. */
  lemma FindTokenLeftmost(line: string, key: string)
    ensures FindToken(line, key).None? <==> forall i: nat :: !MatchAt(line, key, i)
    ensures FindToken(line, key).Some? ==>
      exists i: nat :: TokenAt(line, key, i, FindToken(line, key).value) && forall k: nat | k < i :: !MatchAt(line, key, k)
  {
    SearchFromLeftmost(line, key, 0);
    if SearchFrom(line, key, 0).Some? {
      TokenOfMatch(line, key, SearchFrom(line, key, 0).value);
    }
  }

  /** Where the pattern matches, the maximal run after the literal is its token. */
  lemma TokenOfMatch(line: string, key: string, i: nat)
    requires MatchAt(line, key, i)
    ensures TokenAt(line, key, i, line[i + |key|..RunEnd(line, i + |key|)])
  {
    var j := i + |key|;
    RunEndMaximal(line, j);
    var tok := line[j..RunEnd(line, j)];
    assert forall k | 0 <= k < |tok| :: tok[k] == line[j + k];
    LiteralAtSlice(line, key, i);
  }

  /** A literal with whitespace at offset `sp` cannot match at or after `from`
      when the line holds no whitespace from `from + sp` on. */
  lemma NoMatchPastSpace(line: string, key: string, sp: nat, from: nat)
    requires sp < |key| && IsSpace(key[sp])
    requires forall k | from + sp <= k < |line| :: !IsSpace(line[k])
    ensures forall i: nat | from <= i :: !MatchAt(line, key, i)
  {
    forall i: nat | from <= i ensures !MatchAt(line, key, i) {
      if i + |key| < |line| {
        LiteralAtSlice(line, key, i);
        assert line[i..i + |key|][sp] == line[i + sp];
        assert !IsSpace(line[i + sp]);
      }
    }
  }

  /** A line that is the literal followed by a token: the token is found. */
  lemma FindTokenTagged(key: string, tok: string)
    requires tok != [] && NoSpace(tok)
    ensures FindToken(key + tok, key) == Some(tok)
  {
    var line := key + tok;
    assert line[..|key|] == key && line[|key|..] == tok;
    LiteralAtSlice(line, key, 0);
    assert MatchAt(line, key, 0);
    assert SearchFrom(line, key, 0) == Some(0);
    RunEndAllNonSpace(line, |key|);
    assert line[|key|..|line|] == tok;
  }

  lemma {:induction false} RunEndAllNonSpace(line: string, j: nat)
    requires j <= |line|
    requires forall k | j <= k < |line| :: !IsSpace(line[k])
    ensures RunEnd(line, j) == |line|
    decreases |line| - j
  {
    if j < |line| {
      RunEndAllNonSpace(line, j + 1);
    }
  }

  /** The literal occurs exactly where the slice of its length equals it. */
  lemma {:induction false} LiteralAtSlice(line: string, key: string, i: nat)
    requires i <= |line|
    ensures LiteralAt(line, key, i) <==> i + |key| <= |line| && line[i..i + |key|] == key
    decreases |key|
  {
    if key != [] && i < |line| {
      LiteralAtSlice(line, key[1..], i + 1);
      if i + |key| <= |line| {
        var w := line[i..i + |key|];
        assert w == [line[i]] + line[i + 1..i + |key|];
        assert key == [key[0]] + key[1..];
        if w == key {
          assert w[0] == key[0] && w[1..] == key[1..];
        }
      }
    }
  }
}
