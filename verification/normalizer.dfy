/**
  The two text views the automod compares against: `applyLeet` (lowercase
  and fold look-alike characters, punctuation kept) and
  `normalizeForFilter` (additionally strip everything outside `[a-z0-9]`
  and collapse runs of one character).
*/
module Normalizer {
  import opened Ascii

  /** The table that the five chained `replace` calls of `applyLeet` amount to. */
  function LeetChar(c: char): char {
    if c == '1' || c == '!' || c == 'l' then 'i'
    else if c == '3' then 'e'
    else if c == '4' || c == '@' then 'a'
    else if c == '0' then 'o'
    else if c == '5' || c == '$' then 's'
    else c
  }

  /** A character that `applyLeet` would have folded away. */
  predicate IsLeetSource(c: char) {
    c == '1' || c == '!' || c == 'l' || c == '3' || c == '4' || c == '@'
    || c == '0' || c == '5' || c == '$'
  }

  /** One character through `replace(/[chars]/g, with)`. */
  function ReplaceChar(c: char, chars: set<char>, with: char): char {
    if c in chars then with else c
  }

  /** `str.replace(/[chars]/g, with)`. */
  function Replace(s: string, chars: set<char>, with: char): (r: string)
    ensures |r| == |s|
    ensures forall i :: 0 <= i < |s| ==> r[i] == ReplaceChar(s[i], chars, with)
  {
    if s == [] then [] else [ReplaceChar(s[0], chars, with)] + Replace(s[1..], chars, with)
  }

  /** The five replacements, applied in source order to one character, amount to the table. */
  lemma LeetChain(c: char)
    ensures ReplaceChar(ReplaceChar(ReplaceChar(ReplaceChar(ReplaceChar(c,
              {'1', '!', 'l'}, 'i'), {'3'}, 'e'), {'4', '@'}, 'a'), {'0'}, 'o'), {'5', '$'}, 's')
            == LeetChar(c)
  {
  }

  /** `applyLeet`: lowercase, then five class-to-letter replacements in source order. */
  function ApplyLeet(s: string): (r: string)
    ensures |r| == |s|
    ensures forall i :: 0 <= i < |s| ==> r[i] == LeetChar(LowerChar(s[i]))
  {
    var lower := Lower(s);
    var s1 := Replace(lower, {'1', '!', 'l'}, 'i');
    var s2 := Replace(s1, {'3'}, 'e');
    var s3 := Replace(s2, {'4', '@'}, 'a');
    var s4 := Replace(s3, {'0'}, 'o');
    var r := Replace(s4, {'5', '$'}, 's');
    assert forall i | 0 <= i < |s| :: r[i] == LeetChar(LowerChar(s[i])) by {
      forall i | 0 <= i < |s|
        ensures r[i] == LeetChar(LowerChar(s[i]))
      {
        LeetChain(lower[i]);
      }
    }
    r
  }

  /** What survives leet folding: no upper-case letter and no foldable character. */
  predicate IsFolded(c: char) { !IsUpper(c) && !IsLeetSource(c) }

  lemma ApplyLeetFolds(s: string)
    ensures forall i :: 0 <= i < |s| ==> IsFolded(ApplyLeet(s)[i])
  {
  }

  /** Text with no upper-case letter and nothing to fold is left alone by `applyLeet`. */
  lemma ApplyLeetKeepsFolded(s: string)
    requires forall i :: 0 <= i < |s| ==> IsFolded(s[i])
    ensures ApplyLeet(s) == s
  {
    var r := ApplyLeet(s);
    assert forall i :: 0 <= i < |s| ==> r[i] == s[i];
  }

  /** `str.replace(/[^a-z0-9]/g, '')`. */
  function StripNonAlnum(s: string): (r: string)
    ensures forall i :: 0 <= i < |r| ==> IsAlnum(r[i])
    ensures (forall i :: 0 <= i < |s| ==> IsFolded(s[i])) ==> forall i :: 0 <= i < |r| ==> IsFolded(r[i])
    ensures |r| <= |s|
    ensures (forall i :: 0 <= i < |s| ==> IsAlnum(s[i])) ==> r == s
  {
    if s == [] then []
    else if IsAlnum(s[0]) then [s[0]] + StripNonAlnum(s[1..])
    else StripNonAlnum(s[1..])
  }

  /**
    Stripping works character by character: it distributes over
    concatenation, so it keeps exactly the `[a-z0-9]` characters, in order.
  */
  lemma {:induction false} StripDistributes(s: string, t: string)
    ensures StripNonAlnum(s + t) == StripNonAlnum(s) + StripNonAlnum(t)
    decreases |s|
  {
    if s == [] {
      assert s + t == t;
    } else {
      assert (s + t)[0] == s[0] && (s + t)[1..] == s[1..] + t;
      StripDistributes(s[1..], t);
    }
  }

  predicate NoAdjacentRepeat(s: string) {
    forall i :: 0 <= i < |s| - 1 ==> s[i] != s[i + 1]
  }

  /** `str.replace(/(.)\1+/g, '$1')`: each maximal run of one character becomes one character. */
  function Collapse(s: string): (r: string)
    ensures NoAdjacentRepeat(r)
    ensures (forall i :: 0 <= i < |s| ==> IsFilterChar(s[i])) ==> forall i :: 0 <= i < |r| ==> IsFilterChar(r[i])
    ensures |r| <= |s|
    ensures |s| > 0 ==> |r| > 0 && r[0] == s[0]
    ensures NoAdjacentRepeat(s) ==> r == s
    decreases |s|
  {
    if |s| <= 1 then s
    else if s[0] == s[1] then Collapse(s[1..])
    else [s[0]] + Collapse(s[1..])
  }

  /**
    Collapsing read left to right: a character is kept exactly when it
    differs from the character before it, so each run leaves one copy.
  */
  lemma {:induction false} CollapseAppend(s: string, c: char)
    ensures Collapse(s + [c]) == if s != [] && s[|s| - 1] == c then Collapse(s) else Collapse(s) + [c]
    decreases |s|
  {
    if |s| >= 2 {
      assert (s + [c])[1..] == s[1..] + [c];
      CollapseAppend(s[1..], c);
    }
  }

  /** The alphabet of fully normalised text: `[a-z0-9]` minus what leet folding removes. */
  predicate IsFilterChar(c: char) {
    IsAlnum(c) && c != 'l' && c != '0' && c != '1' && c != '3' && c != '4' && c != '5'
  }

  /** The shape every fully normalised text has. */
  predicate IsNormalForm(s: string) {
    (forall i :: 0 <= i < |s| ==> IsFilterChar(s[i])) && NoAdjacentRepeat(s)
  }

  /** `normalizeForFilter`. */
  function NormalizeForFilter(s: string): (r: string)
    ensures IsNormalForm(r)
    ensures forall i :: 0 <= i < |r| ==> r[i] != 'l' && r[i] != '0' && r[i] != '1'
    ensures |r| <= |s|
  {
    var leet := ApplyLeet(s);
    ApplyLeetFolds(s);
    var stripped := StripNonAlnum(leet);
    Collapse(stripped)
  }

  lemma NormalFormIsFixed(s: string)
    requires IsNormalForm(s)
    ensures ApplyLeet(s) == s
    ensures StripNonAlnum(s) == s
    ensures Collapse(s) == s
  {
    ApplyLeetKeepsFolded(s);
  }

  /** `normalizeForFilter` is idempotent. */
  lemma NormalizeIdempotent(s: string)
    ensures NormalizeForFilter(NormalizeForFilter(s)) == NormalizeForFilter(s)
  {
    NormalFormIsFixed(NormalizeForFilter(s));
  }

  /** The empty text normalises to the empty text. */
  lemma NormalizeEmpty()
    ensures NormalizeForFilter("") == ""
  {
  }

  /** Lowercasing first (as the message handler does) changes nothing. */
  lemma NormalizeIgnoresCase(s: string)
    ensures ApplyLeet(Lower(s)) == ApplyLeet(s)
    ensures NormalizeForFilter(Lower(s)) == NormalizeForFilter(s)
  {
    LowerIdempotent(s);
    assert ApplyLeet(Lower(s)) == ApplyLeet(s);
  }

  // Concrete traces of the pipeline: `l` folds to `i` before runs are
  // collapsed, so a doubled `l` ends up as a single `i`.

  lemma CollapseExample(u: string)
    requires u == "heiio"
    ensures Collapse(u) == "heio"
  {
    assert Collapse(u[3..]) == u[3..];
    assert Collapse(u[2..]) == u[3..];
    assert Collapse(u[1..]) == [u[1]] + u[3..];
  }

  lemma LeetExampleShouted(s: string)
    requires s == "H3LL0"
    ensures ApplyLeet(s) == "heiio"
  {
    assert LowerChar('H') == 'h' && LowerChar('L') == 'l';
  }

  lemma NormalizeExampleShouted(s: string)
    requires s == "H3LL0"
    ensures NormalizeForFilter(s) == "heio"
  {
    LeetExampleShouted(s);
    var t := ApplyLeet(s);
    assert StripNonAlnum(t) == t;
    CollapseExample(t);
  }

  lemma LeetExampleHello(s: string)
    requires s == "hello"
    ensures ApplyLeet(s) == "heiio"
  {
  }

  lemma NormalizeExampleHello(s: string)
    requires s == "hello"
    ensures NormalizeForFilter(s) == "heio"
  {
    LeetExampleHello(s);
    var t := ApplyLeet(s);
    assert StripNonAlnum(t) == t;
    CollapseExample(t);
  }

  lemma StripExampleDotted(t: string)
    requires t == "c.a.t"
    ensures StripNonAlnum(t) == "cat"
  {
    assert StripNonAlnum(t[3..]) == "t";
    assert StripNonAlnum(t[1..]) == "at";
  }

  lemma NormalizeExampleDotted(s: string)
    requires s == "c.a.t"
    ensures NormalizeForFilter(s) == "cat"
  {
    ApplyLeetKeepsFolded(s);
    StripExampleDotted(s);
    var t := StripNonAlnum(s);
    assert NoAdjacentRepeat(t);
  }
}
