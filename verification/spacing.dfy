/**
  The "spacing / punctuation variants" tier. `makeSpacingRegex(term)`
  builds the pattern `c1[^a-z0-9]*c2[^a-z0-9]*...cn[^a-z0-9]*` with each
  term character escaped by `escapeRegExp`, compiles it with the `i` flag
  and tests it, unanchored, against the leet-preserved message. Here the
  escaping is a string function and the compiled pattern is a predicate.
*/
module Spacing {
  import opened Wrappers
  import opened Ascii

  /** The characters `escapeRegExp` prefixes with a backslash. */
  predicate IsRegexSpecial(c: char) {
    c == '.' || c == '*' || c == '+' || c == '?' || c == '^' || c == '$'
    || c == '{' || c == '}' || c == '(' || c == ')' || c == '|'
    || c == '[' || c == ']' || c == '\\'
  }

  /** `escapeRegExp`. */
  function EscapeRegExp(s: string): (r: string)
    ensures |s| <= |r| <= 2 * |s|
  {
    if s == [] then []
    else (if IsRegexSpecial(s[0]) then ['\\', s[0]] else [s[0]]) + EscapeRegExp(s[1..])
  }

  /**
    Reads regex source that consists of literal atoms only (a plain
    character, or a backslash followed by a special character) and returns
    the characters they match; `None` when some atom is not a literal.
  */
  function ReadLiterals(src: string): Option<string>
    decreases |src|
  {
    if src == [] then Some([])
    else if src[0] == '\\' then
      if |src| >= 2 && IsRegexSpecial(src[1]) then
        match ReadLiterals(src[2..])
        case Some(rest) => Some([src[1]] + rest)
        case None => None
      else None
    else if IsRegexSpecial(src[0]) then None
    else
      match ReadLiterals(src[1..])
      case Some(rest) => Some([src[0]] + rest)
      case None => None
  }

  /** After escaping, every character of the term is a literal atom matching itself. */
  lemma {:induction false} EscapeIsLiteral(s: string)
    ensures ReadLiterals(EscapeRegExp(s)) == Some(s)
  {
    if s != [] {
      EscapeIsLiteral(s[1..]);
      var e := EscapeRegExp(s);
      var tail := EscapeRegExp(s[1..]);
      assert [s[0]] + s[1..] == s;
      if IsRegexSpecial(s[0]) {
        assert e == ['\\', s[0]] + tail;
        assert e[2..] == tail;
        assert ReadLiterals(e) == Some([s[0]] + s[1..]);
      } else {
        assert e == [s[0]] + tail;
        assert e[1..] == tail;
        assert ReadLiterals(e) == Some([s[0]] + s[1..]);
      }
    }
  }

  /** A pattern character matches a text character under the `i` flag. */
  predicate SameIgnoringCase(x: char, y: char) { LowerChar(x) == LowerChar(y) }

  /** `[^a-z0-9]` under the `i` flag: neither an ASCII letter of either case nor a digit. */
  predicate IsGap(c: char) { !IsAlnum(LowerChar(c)) }

  predicate AllGap(text: string, lo: nat, hi: nat)
    requires lo <= hi <= |text|
  {
    forall k :: lo <= k < hi ==> IsGap(text[k])
  }

  /** The pattern for `term` matches a prefix of `text[p..]`. */
  predicate MatchesAt(term: string, text: string, p: nat): (b: bool)
    requires p <= |text|
    ensures b ==> |term| <= |text| - p
    ensures term == [] ==> b
    decreases |term|
  {
    |term| == 0
    || (p < |text| && SameIgnoringCase(term[0], text[p])
        && exists q | p + 1 <= q <= |text| :: AllGap(text, p + 1, q) && MatchesAt(term[1..], text, q))
  }

  /** `makeSpacingRegex(term).test(text)`: a match starting anywhere. */
  predicate SpacedMatch(term: string, text: string): (b: bool)
    ensures b ==> |term| <= |text|
    ensures term == [] ==> b
  {
    assert term == [] ==> MatchesAt(term, text, 0);
    exists p | 0 <= p <= |text| :: MatchesAt(term, text, p)
  }

  /**
    `pos` places the characters of `term` in `text` in order, and only gap
    characters stand between consecutive ones.
  */
  ghost predicate IsSpacedEmbedding(term: string, text: string, pos: seq<nat>) {
    && |pos| == |term|
    && (forall k :: 0 <= k < |pos| ==> pos[k] < |text| && SameIgnoringCase(term[k], text[pos[k]]))
    && (forall k :: 0 <= k < |pos| - 1 ==> GapAfter(text, pos, k))
  }

  /** Position `k + 1` lies after position `k`, with only gap characters between them. */
  ghost predicate GapAfter(text: string, pos: seq<nat>, k: nat)
    requires k + 1 < |pos|
  {
    pos[k] < pos[k + 1] <= |text| && AllGap(text, pos[k] + 1, pos[k + 1])
  }

  ghost predicate OccursSpaced(term: string, text: string) {
    exists pos :: IsSpacedEmbedding(term, text, pos)
  }

  lemma {:induction false} MatchesAtEmbedding(term: string, text: string, p: nat) returns (pos: seq<nat>)
    requires p <= |text| && |term| > 0
    requires MatchesAt(term, text, p)
    ensures IsSpacedEmbedding(term, text, pos) && pos[0] == p
    decreases |term|
  {
    var q :| p + 1 <= q <= |text| && AllGap(text, p + 1, q) && MatchesAt(term[1..], text, q);
    if |term| == 1 {
      pos := [p];
    } else {
      var rest := MatchesAtEmbedding(term[1..], text, q);
      pos := [p] + rest;
      assert forall k :: 1 <= k < |pos| ==> pos[k] == rest[k - 1];
      forall k | 0 <= k < |pos| - 1
        ensures GapAfter(text, pos, k)
      {
        if k > 0 {
          assert GapAfter(text, rest, k - 1);
        }
      }
    }
  }

  lemma {:induction false} EmbeddingMatchesAt(term: string, text: string, pos: seq<nat>)
    requires |term| > 0 && IsSpacedEmbedding(term, text, pos)
    ensures pos[0] <= |text| && MatchesAt(term, text, pos[0])
    decreases |term|
  {
    var p := pos[0];
    if |term| == 1 {
      assert AllGap(text, p + 1, p + 1);
      assert MatchesAt(term[1..], text, p + 1);
    } else {
      var rest := pos[1..];
      forall k | 0 <= k < |rest| - 1
        ensures GapAfter(text, rest, k)
      {
        assert GapAfter(text, pos, k + 1);
      }
      assert IsSpacedEmbedding(term[1..], text, rest);
      assert GapAfter(text, pos, 0);
      EmbeddingMatchesAt(term[1..], text, rest);
      assert AllGap(text, p + 1, rest[0]) && MatchesAt(term[1..], text, rest[0]);
    }
  }

  /** The matcher holds exactly when the term occurs spaced out in the text. */
  lemma SpacedMatchIsEmbedding(term: string, text: string)
    ensures SpacedMatch(term, text) <==> OccursSpaced(term, text)
  {
    if SpacedMatch(term, text) {
      if |term| == 0 {
        assert IsSpacedEmbedding(term, text, []);
      } else {
        var p :| 0 <= p <= |text| && MatchesAt(term, text, p);
        var pos := MatchesAtEmbedding(term, text, p);
      }
    }
    if OccursSpaced(term, text) {
      if |term| == 0 {
        assert MatchesAt(term, text, 0);
      } else {
        var pos :| IsSpacedEmbedding(term, text, pos);
        EmbeddingMatchesAt(term, text, pos);
      }
    }
  }

  lemma {:induction false} SubstringMatchesAt(term: string, text: string, i: nat)
    requires i + |term| <= |text| && text[i..i + |term|] == term
    ensures MatchesAt(term, text, i)
    decreases |term|
  {
    if |term| > 0 {
      assert text[i + 1..i + 1 + |term[1..]|] == term[1..];
      SubstringMatchesAt(term[1..], text, i + 1);
      assert AllGap(text, i + 1, i + 1);
    }
  }

  /** A plain occurrence of the term is in particular a spaced one. */
  lemma SubstringIsSpaced(term: string, text: string, i: nat)
    requires i + |term| <= |text| && text[i..i + |term|] == term
    ensures SpacedMatch(term, text)
  {
    SubstringMatchesAt(term, text, i);
  }

  /** The empty term's pattern matches every text. */
  lemma EmptyTermAlwaysSpaced(text: string)
    ensures SpacedMatch([], text)
  {
    assert MatchesAt([], text, 0);
  }

  /** Every character of the term must appear somewhere in the text for the pattern to match. */
  lemma SpacedFindsEveryChar(term: string, text: string, k: nat)
    requires k < |term| && SpacedMatch(term, text)
    ensures exists m :: 0 <= m < |text| && SameIgnoringCase(term[k], text[m])
  {
    SpacedMatchIsEmbedding(term, text);
    var pos :| IsSpacedEmbedding(term, text, pos);
    assert SameIgnoringCase(term[k], text[pos[k]]);
  }
}
