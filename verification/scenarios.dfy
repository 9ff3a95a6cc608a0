/**
  Worked messages run through the verdict. They pin down what the code
  does where the behaviour is easy to misread: punctuation is stripped
  before the direct tier, so dotted spellings are direct hits;
  the message "bass" is caught for the term "bass" only by the spacing
  tier, because the direct tier never sees a doubled letter; and
  `l` folds to `i`, so a term containing `l` is caught only
  by the fuzzy tier, if at all.
*/
module Scenarios {
  import opened Wrappers
  import opened Ascii
  import opened Normalizer
  import opened Levenshtein
  import opened Spacing
  import opened Matcher

  lemma ScanSingle(term: string, leet: string, normalized: string)
    ensures Scan([term], leet, normalized) ==
      match TermTier(term, leet, normalized)
      case Some(tier) => Hit(tier, term)
      case None => Clean
  {
    assert [term][1..] == [];
  }

  /** Lowercase alphanumeric text without leet characters is its own leet view. */
  lemma PlainLeetView(raw: string)
    requires forall i :: 0 <= i < |raw| ==> IsAlnum(raw[i]) && IsFolded(raw[i])
    ensures LeetView(raw) == raw
  {
    LowerOfLowercase(raw);
    ApplyLeetKeepsFolded(raw);
  }

  lemma PlainNormalView(raw: string)
    requires forall i :: 0 <= i < |raw| ==> IsAlnum(raw[i]) && IsFolded(raw[i])
    ensures NormalView(raw) == Collapse(raw)
  {
    PlainLeetView(raw);
    assert StripNonAlnum(raw) == raw;
  }

  lemma ExampleDotted(raw: string)
    requires raw == "c.a.t"
    ensures Evaluate(raw, ["cat"]) == Hit(Direct, "cat")
  {
    LowerOfLowercase(raw);
    NormalizeExampleDotted(raw);
    assert OccursAt(NormalView(raw), "cat", 0);
    ScanSingle("cat", LeetView(raw), NormalView(raw));
  }

  lemma CollapseBass(s: string)
    requires s == "bass"
    ensures Collapse(s) == "bas"
  {
    assert Collapse(s[2..]) == "s";
    assert Collapse(s[1..]) == "as";
  }

  lemma DoubledLetterTier(term: string, leet: string, normalized: string)
    requires term == "bass" && leet == "bass" && normalized == "bas"
    ensures TermTier(term, leet, normalized) == Some(Spaced)
  {
    SubstringIsSpaced(term, leet, 0);
  }

  lemma BassViews(raw: string)
    requires raw == "bass"
    ensures LeetView(raw) == "bass" && NormalView(raw) == "bas"
  {
    PlainLeetView(raw);
    PlainNormalView(raw);
    CollapseBass(raw);
  }

  lemma ExampleDoubledLetter(raw: string)
    requires raw == "bass"
    ensures Evaluate(raw, ["bass"]) == Hit(Spaced, "bass")
  {
    BassViews(raw);
    DoubledLetterTier("bass", LeetView(raw), NormalView(raw));
    ScanSingle("bass", LeetView(raw), NormalView(raw));
  }

  lemma NormalViewHelo(raw: string)
    requires raw == "helo"
    ensures LeetView(raw) == "heio" && NormalView(raw) == "heio"
  {
    LowerOfLowercase(raw);
    var t := ApplyLeet(raw);
    assert t == "heio";
    assert StripNonAlnum(t) == t;
    assert NoAdjacentRepeat(t);
  }

  /** The table rows for "hello" against "heio", filled in order. */
  lemma MisspeltRowsUpper(a: string, b: string)
    requires a == "heio" && b == "hello"
    ensures Dist(a, b, 2, 0) == 2 && Dist(a, b, 2, 1) == 1 && Dist(a, b, 2, 2) == 0
    ensures Dist(a, b, 2, 3) == 1 && Dist(a, b, 2, 4) == 2
    ensures Dist(a, b, 1, 1) == 0 && Dist(a, b, 1, 2) == 1 && Dist(a, b, 1, 3) == 2 && Dist(a, b, 1, 4) == 3
  {
    assert Dist(a, b, 1, 1) == 0;
    assert Dist(a, b, 1, 2) == 1;
    assert Dist(a, b, 1, 3) == 2;
    assert Dist(a, b, 1, 4) == 3;
    assert Dist(a, b, 2, 1) == 1;
    assert Dist(a, b, 2, 2) == 0;
    assert Dist(a, b, 2, 3) == 1;
    assert Dist(a, b, 2, 4) == 2;
  }

  lemma MisspeltRowsMiddle(a: string, b: string)
    requires a == "heio" && b == "hello"
    ensures Dist(a, b, 4, 0) == 4 && Dist(a, b, 4, 1) == 3 && Dist(a, b, 4, 2) == 2
    ensures Dist(a, b, 4, 3) == 2 && Dist(a, b, 4, 4) == 2 && Dist(a, b, 3, 4) == 2
  {
    MisspeltRowsUpper(a, b);
    assert Dist(a, b, 3, 1) == 2;
    assert Dist(a, b, 3, 2) == 1;
    assert Dist(a, b, 3, 3) == 1;
    assert Dist(a, b, 3, 4) == 2;
    assert Dist(a, b, 4, 1) == 3;
    assert Dist(a, b, 4, 2) == 2;
    assert Dist(a, b, 4, 3) == 2;
    assert Dist(a, b, 4, 4) == 2;
  }

  /** "helo" normalises to "heio", which is two edits from "hello". */
  lemma MisspeltDistance(a: string, b: string)
    requires a == "heio" && b == "hello"
    ensures EditDistance(a, b) == 2
  {
    MisspeltRowsMiddle(a, b);
    assert Dist(a, b, 5, 1) == 4;
    assert Dist(a, b, 5, 2) == 3;
    assert Dist(a, b, 5, 3) == 3;
    assert Dist(a, b, 5, 4) == 2;
  }

  lemma ExampleMisspelt(raw: string)
    requires raw == "helo"
    ensures Evaluate(raw, ["hello"]) == Hit(Fuzzy(2), "hello")
  {
    NormalViewHelo(raw);
    var n := NormalView(raw);
    assert !SpacedMatch("hello", LeetView(raw));
    MisspeltDistance(n, "hello");
    ScanSingle("hello", LeetView(raw), n);
  }

  lemma UnrelatedTier(term: string, text: string)
    requires term == "cat" && text == "banana"
    ensures TermTier(term, text, text) == None
  {
    assert !SpacedMatch(term, text);
    assert !Contains(text, term) by {
      if Contains(text, term) {
        var i :| 0 <= i <= |text| - |term| && OccursAt(text, term, i);
        SubstringIsSpaced(term, text, i);
      }
    }
    EditDistanceBounds(text, term);
  }

  lemma BananaViews(raw: string)
    requires raw == "banana"
    ensures LeetView(raw) == raw && NormalView(raw) == raw
  {
    BananaIsPlain(raw);
    PlainLeetView(raw);
    PlainNormalView(raw);
    BananaHasNoRepeat(raw);
  }

  lemma BananaIsPlain(raw: string)
    requires raw == "banana"
    ensures forall i :: 0 <= i < |raw| ==> IsAlnum(raw[i]) && IsFolded(raw[i])
  {
    forall i | 0 <= i < |raw|
      ensures IsAlnum(raw[i]) && IsFolded(raw[i])
    {
      assert raw[i] in {'a', 'b', 'n'};
    }
  }

  lemma BananaHasNoRepeat(raw: string)
    requires raw == "banana"
    ensures Collapse(raw) == raw
  {
    assert NoAdjacentRepeat(raw);
  }

  lemma ExampleUnrelated(raw: string)
    requires raw == "banana"
    ensures Evaluate(raw, ["cat"]) == Clean
  {
    BananaViews(raw);
    UnrelatedTier("cat", raw);
    ScanSingle("cat", raw, raw);
    assert Evaluate(raw, ["cat"]) == Scan(["cat"], LeetView(raw), NormalView(raw));
  }
}
