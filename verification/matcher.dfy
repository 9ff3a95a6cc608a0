/**
  The verdict for one incoming message: the banned terms are scanned in
  list order, each is tried against the direct, spaced and fuzzy tiers in
  that order, and the first term that satisfies a tier decides the hit.
*/
module Matcher {
  import opened Wrappers
  import opened Ascii
  import opened Normalizer
  import opened Levenshtein
  import opened Spacing

  /** Which tier fired; the fuzzy tier reports the edit distance it found. */
  datatype Tier = Direct | Spaced | Fuzzy(distance: nat)

  datatype Verdict = Clean | Hit(tier: Tier, term: string)

  /** The fuzzy tier's tolerance: two edits for terms of five or more characters, else one. */
  function MaxEdits(term: string): (n: nat)
    ensures n == 1 || n == 2
    ensures n == 2 <==> |term| >= 5
  {
    if |term| >= 5 then 2 else 1
  }

  /** `term` occurs in `text` starting at index `i`. */
  predicate OccursAt(text: string, term: string, i: int) {
    0 <= i <= |text| - |term| && text[i..i + |term|] == term
  }

  /** `text.includes(term)`. */
  predicate Contains(text: string, term: string): (b: bool)
    ensures b ==> |term| <= |text|
    ensures term == [] ==> b
  {
    assert term == [] ==> OccursAt(text, term, 0);
    exists i | 0 <= i <= |text| - |term| :: OccursAt(text, term, i)
  }

  /** The three tiers for one term, in the order the handler tries them. */
  function TermTier(term: string, leet: string, normalized: string): (r: Option<Tier>)
    ensures r.None? <==>
      && !(normalized != [] && Contains(normalized, term))
      && !SpacedMatch(term, leet)
      && !(normalized != [] && EditDistance(normalized, term) <= MaxEdits(term))
    ensures r == Some(Direct) <==> normalized != [] && Contains(normalized, term)
    ensures r == Some(Spaced) <==> !(normalized != [] && Contains(normalized, term)) && SpacedMatch(term, leet)
    ensures r.Some? && r.value.Fuzzy? ==>
      normalized != [] && r.value.distance == EditDistance(normalized, term) <= MaxEdits(term)
  {
    if normalized != [] && Contains(normalized, term) then Some(Direct)
    else if SpacedMatch(term, leet) then Some(Spaced)
    else if normalized != [] && EditDistance(normalized, term) <= MaxEdits(term) then
      Some(Fuzzy(EditDistance(normalized, term)))
    else None
  }

  /** `terms[k]` is the first term some tier accepts. */
  ghost predicate IsFirstHit(terms: seq<string>, leet: string, normalized: string, k: int) {
    && 0 <= k < |terms|
    && TermTier(terms[k], leet, normalized).Some?
    && forall j :: 0 <= j < k ==> TermTier(terms[j], leet, normalized).None?
  }

  /** The labelled `outer:` loop over the banned list. */
  function Scan(terms: seq<string>, leet: string, normalized: string): (v: Verdict)
    ensures v.Clean? <==> forall k :: 0 <= k < |terms| ==> TermTier(terms[k], leet, normalized).None?
    ensures v.Hit? ==> exists k :: IsFirstHit(terms, leet, normalized, k)
                                   && terms[k] == v.term
                                   && TermTier(terms[k], leet, normalized) == Some(v.tier)
  {
    if terms == [] then Clean
    else match TermTier(terms[0], leet, normalized)
      case Some(tier) =>
        assert IsFirstHit(terms, leet, normalized, 0);
        Hit(tier, terms[0])
      case None =>
        var v := Scan(terms[1..], leet, normalized);
        FirstHitShift(terms, leet, normalized, v);
        v
  }

  /** A hit in the tail of the list, after a first term no tier accepts, is the list's first hit. */
  lemma FirstHitShift(terms: seq<string>, leet: string, normalized: string, v: Verdict)
    requires terms != [] && TermTier(terms[0], leet, normalized).None?
    requires v.Clean? <==> forall k :: 0 <= k < |terms| - 1 ==> TermTier(terms[1..][k], leet, normalized).None?
    requires v.Hit? ==> exists k :: IsFirstHit(terms[1..], leet, normalized, k)
                                    && terms[1..][k] == v.term
                                    && TermTier(terms[1..][k], leet, normalized) == Some(v.tier)
    ensures v.Clean? <==> forall k :: 0 <= k < |terms| ==> TermTier(terms[k], leet, normalized).None?
    ensures v.Hit? ==> exists k :: IsFirstHit(terms, leet, normalized, k)
                                   && terms[k] == v.term
                                   && TermTier(terms[k], leet, normalized) == Some(v.tier)
  {
    assert forall k :: 1 <= k < |terms| ==> terms[k] == terms[1..][k - 1];
    if v.Hit? {
      var k :| IsFirstHit(terms[1..], leet, normalized, k)
               && terms[1..][k] == v.term
               && TermTier(terms[1..][k], leet, normalized) == Some(v.tier);
      assert IsFirstHit(terms, leet, normalized, k + 1);
    }
  }

  /** The message handler from `const raw = message.content` to the end of the scan. */
  function Evaluate(raw: string, terms: seq<string>): (v: Verdict)
    ensures raw == [] ==> v == Clean
    ensures v.Hit? ==> v.term in terms
  {
    if raw == [] then Clean
    else
      var lower := Lower(raw);
      Scan(terms, ApplyLeet(lower), NormalizeForFilter(lower))
  }

  /** The two views the handler derives from a non-empty message. */
  function LeetView(raw: string): string { ApplyLeet(Lower(raw)) }

  function NormalView(raw: string): string { NormalizeForFilter(Lower(raw)) }

  /**
    Evaluate's verdict is Clean exactly when the message is empty or no
    banned term passes any tier, and otherwise names the first such term.
  */
  lemma EvaluateFirstHit(raw: string, terms: seq<string>)
    ensures Evaluate(raw, terms).Clean? <==>
      raw == [] || forall k :: 0 <= k < |terms| ==> TermTier(terms[k], LeetView(raw), NormalView(raw)).None?
    ensures Evaluate(raw, terms).Hit? ==>
      exists k :: IsFirstHit(terms, LeetView(raw), NormalView(raw), k) && terms[k] == Evaluate(raw, terms).term
  {
  }

  /** When nothing alphanumeric survives normalisation only the spacing tier can fire. */
  lemma NoNormalTextOnlySpaced(raw: string, terms: seq<string>)
    requires NormalView(raw) == []
    ensures Evaluate(raw, terms).Hit? ==> Evaluate(raw, terms).tier == Spaced
  {
  }

  /** A fuzzy hit reports the true edit distance, within the term's tolerance. */
  lemma FuzzyHitWithinTolerance(raw: string, terms: seq<string>)
    requires Evaluate(raw, terms).Hit? && Evaluate(raw, terms).tier.Fuzzy?
    ensures var v := Evaluate(raw, terms);
      && v.tier.distance == EditDistance(NormalView(raw), v.term)
      && v.tier.distance <= MaxEdits(v.term)
      && NormalView(raw) != []
  {
  }

  /**
    The fuzzy tier only fires on a normalised message whose length is
    within the tolerance of the term's length.
  */
  lemma FuzzyNeedsCloseLength(term: string, leet: string, normalized: string)
    requires TermTier(term, leet, normalized).Some? && TermTier(term, leet, normalized).value.Fuzzy?
    ensures |normalized| - |term| <= MaxEdits(term) && |term| - |normalized| <= MaxEdits(term)
  {
    EditDistanceBounds(normalized, term);
  }

  lemma {:induction false} SliceOfNormalForm(s: string, i: nat, n: nat)
    requires IsNormalForm(s) && i + n <= |s|
    ensures IsNormalForm(s[i..i + n])
  {
    var t := s[i..i + n];
    assert forall k :: 0 <= k < |t| ==> t[k] == s[i + k];
  }

  /**
    Terms are stored only trimmed and lowercased, but the direct tier looks
    for them in fully normalised text: a term that is not itself in normal
    form (one with `l`, `0`, `1`, `3`, `4`, `5`, punctuation, or a doubled
    character) can never be a direct hit.
  */
  lemma DirectNeedsNormalFormTerm(term: string, leet: string, normalized: string)
    requires IsNormalForm(normalized)
    requires TermTier(term, leet, normalized) == Some(Direct)
    ensures IsNormalForm(term)
  {
    var i :| 0 <= i <= |normalized| - |term| && OccursAt(normalized, term, i);
    SliceOfNormalForm(normalized, i, |term|);
  }

  /** An empty entry in the list (one only a hand-edited file can hold) matches every message. */
  lemma EmptyTermMatchesEverything(raw: string, rest: seq<string>)
    requires raw != []
    ensures Evaluate(raw, [[]] + rest).Hit?
    ensures Evaluate(raw, [[]] + rest).term == []
  {
    EmptyTermAlwaysSpaced(LeetView(raw));
    var n := NormalView(raw);
    if n != [] {
      assert OccursAt(n, [], 0);
    }
  }
}
