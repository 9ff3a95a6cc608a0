/**
  `parseDuration` from the `/mute` command: turns text such as "10s",
  "10 min" or "5 days" into a number of milliseconds, capped at 30 days,
  together with the human-readable text the command echoes back.
*/
module Duration {
  import opened Wrappers
  import opened Ascii

  /** `MAX_DURATION_MS`: thirty days. */
  const MaxDurationMs: nat := 30 * 24 * 60 * 60 * 1000

  /** The text reported whenever the requested duration was capped. */
  const ClampedText: string := "30 days (max duration)"

  /**
    2^1024 - 2^970: the smallest integer that `parseInt` rounds to
    `Infinity` (IEEE 754 binary64, round to nearest), which
    `Number.isFinite` then rejects.
  */
  const NumberOverflow: nat := 0xFFFF_FFFF_FFFF_FC00_0000_0000_0000_0000_0000_0000_0000_0000_0000_0000_0000_0000_0000_0000_0000_0000_0000_0000_0000_0000_0000_0000_0000_0000_0000_0000_0000_0000_0000_0000_0000_0000_0000_0000_0000_0000_0000_0000_0000_0000_0000_0000_0000_0000_0000_0000_0000_0000_0000_0000_0000_0000_0000_0000_0000_0000_0000_0000_0000_0000

  /** A unit of time: its length and the two forms of its name used in the reply. */
  datatype TimeUnit = TimeUnit(ms: nat, singular: string, plural: string)

  const Second := TimeUnit(1000, "second", "seconds")
  const Minute := TimeUnit(60 * 1000, "minute", "minutes")
  const Day := TimeUnit(24 * 60 * 60 * 1000, "day", "days")

  /** The unit names `parseDuration` accepts and the unit each one means; hours are not among them. */
  function UnitOf(name: string): (r: Option<TimeUnit>)
    ensures r.Some? ==> r.value in {Second, Minute, Day}
    ensures r == Some(Second) <==> name in {"s", "sec", "secs", "second", "seconds"}
    ensures r == Some(Minute) <==> name in {"m", "min", "mins", "minute", "minutes"}
    ensures r == Some(Day) <==> name in {"d", "day", "days"}
  {
    if name in ["s", "sec", "secs", "second", "seconds"] then Some(Second)
    else if name in ["m", "min", "mins", "minute", "minutes"] then Some(Minute)
    else if name in ["d", "day", "days"] then Some(Day)
    else None
  }

  /** What `parseDuration` returns when it succeeds. */
  datatype Parsed = Parsed(ms: nat, text: string, clamped: bool)

  predicate AllDigits(s: string) {
    forall k :: 0 <= k < |s| ==> IsDigit(s[k])
  }

  predicate AllLetters(s: string) {
    forall k :: 0 <= k < |s| ==> IsLowerLetter(s[k])
  }

  /**
    `t` is `digits`, then `gap`, then `unit`, and each part has the right
    kind of characters: the strings `/^(\d+)\s*([a-z]+)$/` matches.
  */
  predicate Fits(t: string, digits: string, gap: string, unit: string) {
    && t == digits + gap + unit
    && digits != [] && AllDigits(digits)
    && AllSpace(gap)
    && unit != [] && AllLetters(unit)
  }

  /** The two capture groups of a successful match. */
  datatype Groups = Groups(digits: string, unit: string)

  /** The index of the first non-digit of `s` at or after `i`, or `|s|`. */
  function SkipDigits(s: string, i: nat): (n: nat)
    requires i <= |s|
    ensures i <= n <= |s|
    ensures n < |s| ==> !IsDigit(s[n])
    ensures forall k :: i <= k < n ==> IsDigit(s[k])
    decreases |s| - i
  {
    if i < |s| && IsDigit(s[i]) then SkipDigits(s, i + 1) else i
  }

  /** `/^(\d+)\s*([a-z]+)$/.exec(t)`, reduced to its two groups. */
  function Match(t: string): (r: Option<Groups>)
    ensures r.Some? ==> exists gap :: Fits(t, r.value.digits, gap, r.value.unit)
  {
    var i := SkipDigits(t, 0);
    var j := SkipSpace(t, i);
    if 0 < i && j < |t| && AllLetters(t[j..]) then
      assert AllDigits(t[..i]) && AllSpace(t[i..j]);
      assert Fits(t, t[..i], t[i..j], t[j..]);
      Some(Groups(t[..i], t[j..]))
    else
      None
  }

  lemma {:induction false} SkipDigitsStops(s: string, i: nat, m: nat)
    requires i <= m <= |s|
    requires forall k :: i <= k < m ==> IsDigit(s[k])
    requires m < |s| ==> !IsDigit(s[m])
    ensures SkipDigits(s, i) == m
    decreases m - i
  {
    if i < m {
      SkipDigitsStops(s, i + 1, m);
    }
  }

  lemma {:induction false} SkipSpaceStops(s: string, i: nat, m: nat)
    requires i <= m <= |s|
    requires forall k :: i <= k < m ==> IsSpace(s[k])
    requires m < |s| ==> !IsSpace(s[m])
    ensures SkipSpace(s, i) == m
    decreases m - i
  {
    if i < m {
      SkipSpaceStops(s, i + 1, m);
    }
  }

  /** The match is unique: any way of reading `t` as digits, whitespace and letters is the one `Match` finds. */
  lemma MatchComplete(t: string, digits: string, gap: string, unit: string)
    requires Fits(t, digits, gap, unit)
    ensures Match(t) == Some(Groups(digits, unit))
  {
    var i := |digits|;
    var j := |digits| + |gap|;
    forall k | 0 <= k < i ensures IsDigit(t[k]) {
      assert t[k] == digits[k];
    }
    assert t[i] == if gap == [] then unit[0] else gap[0];
    SkipDigitsStops(t, 0, i);
    forall k | i <= k < j ensures IsSpace(t[k]) {
      assert t[k] == gap[k - i];
    }
    assert t[j] == unit[0];
    SkipSpaceStops(t, i, j);
    assert t[..i] == digits;
    assert t[j..] == unit;
  }

  function DigitValue(c: char): (d: nat)
    requires IsDigit(c)
    ensures d < 10
  {
    c as int - '0' as int
  }

  /** `parseInt(digits, 10)` on a run of decimal digits, as an exact integer. */
  function DigitsValue(s: string): (n: nat)
    requires AllDigits(s)
    ensures n == 0 <==> forall k :: 0 <= k < |s| ==> s[k] == '0'
    decreases |s|
  {
    if s == [] then 0 else 10 * DigitsValue(s[..|s| - 1]) + DigitValue(s[|s| - 1])
  }

  function DigitChar(d: nat): (c: char)
    requires d < 10
    ensures IsDigit(c) && DigitValue(c) == d
  {
    ('0' as int + d) as char
  }

  /** `${n}`: the decimal digits of `n`, without leading zeros. */
  function NatToString(n: nat): (r: string)
    ensures r != [] && AllDigits(r)
    ensures |r| > 1 ==> r[0] != '0'
    decreases n
  {
    if n < 10 then [DigitChar(n)] else NatToString(n / 10) + [DigitChar(n % 10)]
  }

  /** Printing a number and parsing it back gives the number. */
  lemma {:induction false} NatToStringRoundTrip(n: nat)
    ensures DigitsValue(NatToString(n)) == n
    decreases n
  {
    if n >= 10 {
      NatToStringRoundTrip(n / 10);
      var s := NatToString(n);
      assert s[..|s| - 1] == NatToString(n / 10);
    }
  }

  /** Leading zeros do not change the value `parseInt` reads. */
  lemma {:induction false} LeadingZero(s: string)
    requires AllDigits(s)
    ensures AllDigits(['0'] + s) && DigitsValue(['0'] + s) == DigitsValue(s)
    decreases |s|
  {
    var t := ['0'] + s;
    assert AllDigits(t) by {
      forall k | 0 <= k < |t| ensures IsDigit(t[k]) {
        if k > 0 {
          assert t[k] == s[k - 1];
        }
      }
    }
    if s != [] {
      var init := s[..|s| - 1];
      LeadingZero(init);
      assert t[..|t| - 1] == ['0'] + init;
    }
  }

  /**
    A number, a space and a word: the shape `/^(\d+)\s*([a-z]+)$/` reads
    back as those two groups, and it is already trimmed and lowercase.
  */
  lemma {:induction false} NumberAndWord(digits: string, word: string)
    requires digits != [] && AllDigits(digits)
    requires word != [] && AllLetters(word)
    ensures Fits(digits + " " + word, digits, " ", word)
    ensures TrimLower(digits + " " + word) == digits + " " + word
  {
    var t := digits + " " + word;
    assert AllSpace(" ");
    assert Fits(t, digits, " ", word);
    assert !IsSpace(t[0]) by { assert t[0] == digits[0]; }
    assert !IsSpace(t[|t| - 1]) by { assert t[|t| - 1] == word[|word| - 1]; }
    assert NoUpper(t) by {
      forall k | 0 <= k < |t| ensures !IsUpper(t[k]) {
        if k < |digits| {
          assert t[k] == digits[k];
        } else if k > |digits| {
          assert t[k] == word[k - |digits| - 1];
        }
      }
    }
    TrimLowerOfCanonical(t);
  }

  /** The regular expression reads `text` as `amount` followed by a name of `unit`. */
  predicate ReadsBack(text: string, amount: nat, unit: TimeUnit) {
    match Match(text)
    case Some(g) => AllDigits(g.digits) && DigitsValue(g.digits) == amount && UnitOf(g.unit) == Some(unit)
    case None => false
  }

  /**
    `${amount} ${label}`, with the singular label exactly when the amount
    is 1. Read back through the regular expression, the text yields the
    same amount and a unit name meaning the same unit.
  */
  function Describe(amount: nat, unit: TimeUnit): (r: string)
    requires unit in {Second, Minute, Day}
    ensures ReadsBack(r, amount, unit)
  {
    var digits := NatToString(amount);
    var word := if amount == 1 then unit.singular else unit.plural;
    assert AllLetters(word);
    NumberAndWord(digits, word);
    MatchComplete(digits + " " + word, digits, " ", word);
    NatToStringRoundTrip(amount);
    LabelIsUnitName(amount, unit);
    digits + " " + word
  }

  /** Every accepted unit is a whole number of seconds. */
  lemma WholeSeconds(amount: nat, unit: TimeUnit)
    requires unit in {Second, Minute, Day}
    ensures (amount * unit.ms) % 1000 == 0
  {
    var k := if unit == Second then 1 else if unit == Minute then 60 else 24 * 60 * 60;
    assert unit.ms == k * 1000;
    assert amount * unit.ms == (amount * k) * 1000;
  }

  /** The part of `parseDuration` after the regular expression matched. */
  function FromGroups(groups: Groups): (r: Option<Parsed>)
    requires AllDigits(groups.digits)
    ensures r.Some? ==> 0 < r.value.ms <= MaxDurationMs
    ensures r.Some? ==> r.value.ms % 1000 == 0
    ensures r.Some? && r.value.clamped ==> r.value.ms == MaxDurationMs && r.value.text == ClampedText
  {
    var amount := DigitsValue(groups.digits);
    if amount >= NumberOverflow || amount == 0 then None
    else
      match UnitOf(groups.unit)
      case None => None
      case Some(unit) =>
        var ms := amount * unit.ms;
        WholeSeconds(amount, unit);
        assert 0 < ms by { assert 0 < unit.ms; }
        if ms > MaxDurationMs then Some(Parsed(MaxDurationMs, ClampedText, true))
        else Some(Parsed(ms, Describe(amount, unit), false))
  }

  /** `parseDuration(durationStr)`; `None` models both `null` arguments and a `null` result. */
  function Parse(input: Option<string>): (r: Option<Parsed>)
    ensures input.None? || input == Some([]) ==> r.None?
    ensures r.Some? ==> 0 < r.value.ms <= MaxDurationMs
    ensures r.Some? ==> r.value.ms % 1000 == 0
    ensures r.Some? && r.value.clamped ==> r.value.ms == MaxDurationMs && r.value.text == ClampedText
  {
    if input.None? || input.value == [] then None
    else
      match Match(TrimLower(input.value))
      case None => None
      case Some(groups) =>
        assert exists gap :: Fits(TrimLower(input.value), groups.digits, gap, groups.unit);
        FromGroups(groups)
  }

  /** A successful parse means the trimmed, lowercased text is a positive number, optional whitespace and a known unit. */
  lemma ParseSound(s: string)
    requires Parse(Some(s)).Some?
    ensures exists digits, gap, name ::
      && Fits(TrimLower(s), digits, gap, name)
      && 0 < DigitsValue(digits) < NumberOverflow
      && UnitOf(name).Some?
  {
    var groups := Match(TrimLower(s)).value;
    var gap :| Fits(TrimLower(s), groups.digits, gap, groups.unit);
    assert Fits(TrimLower(s), groups.digits, gap, groups.unit);
  }

  lemma TrimLowerOfEmpty()
    ensures TrimLower([]) == []
  {
    assert Trim([]) == [];
  }

  lemma FromGroupsMeaning(digits: string, name: string)
    requires AllDigits(digits)
    ensures FromGroups(Groups(digits, name)).Some? <==> 0 < DigitsValue(digits) < NumberOverflow && UnitOf(name).Some?
    ensures FromGroups(Groups(digits, name)).Some? ==>
      var p := FromGroups(Groups(digits, name)).value;
      var amount := DigitsValue(digits);
      var unit := UnitOf(name).value;
      && (p.clamped <==> amount * unit.ms > MaxDurationMs)
      && (!p.clamped ==> p.ms == amount * unit.ms && p.text == Describe(amount, unit))
  {
  }

  /**
    Text of that shape is accepted exactly when the number is positive and
    finite and the unit is known, and then it yields the amount times the
    unit, capped at thirty days.
  */
  lemma ParseComplete(s: string, digits: string, gap: string, name: string)
    requires Fits(TrimLower(s), digits, gap, name)
    ensures Parse(Some(s)).Some? <==> 0 < DigitsValue(digits) < NumberOverflow && UnitOf(name).Some?
    ensures Parse(Some(s)).Some? ==>
      var p := Parse(Some(s)).value;
      var amount := DigitsValue(digits);
      var unit := UnitOf(name).value;
      && (p.clamped <==> amount * unit.ms > MaxDurationMs)
      && (!p.clamped ==> p.ms == amount * unit.ms && p.text == Describe(amount, unit))
  {
    TrimLowerOfEmpty();
    assert s != [];
    MatchComplete(TrimLower(s), digits, gap, name);
    assert Parse(Some(s)) == FromGroups(Groups(digits, name));
    FromGroupsMeaning(digits, name);
  }

  /** Only the trimmed, lowercased form of the argument matters. */
  lemma ParseIgnoresCaseAndPadding(s: string)
    ensures Parse(Some(s)) == Parse(Some(TrimLower(s)))
  {
    TrimLowerIdempotent(s);
    if s == [] {
      TrimLowerOfEmpty();
    }
  }

  lemma {:induction false} CanonicalDescription(amount: nat, unit: TimeUnit)
    requires unit in {Second, Minute, Day}
    ensures Fits(Describe(amount, unit), NatToString(amount), " ", if amount == 1 then unit.singular else unit.plural)
    ensures TrimLower(Describe(amount, unit)) == Describe(amount, unit)
  {
    var word := if amount == 1 then unit.singular else unit.plural;
    assert AllLetters(word);
    NumberAndWord(NatToString(amount), word);
  }

  lemma LabelIsUnitName(amount: nat, unit: TimeUnit)
    requires unit in {Second, Minute, Day}
    ensures UnitOf(if amount == 1 then unit.singular else unit.plural) == Some(unit)
  {
    if unit == Second {
      assert UnitOf("second") == Some(Second) && UnitOf("seconds") == Some(Second);
    } else if unit == Minute {
      assert UnitOf("minute") == Some(Minute) && UnitOf("minutes") == Some(Minute);
    } else {
      assert UnitOf("day") == Some(Day) && UnitOf("days") == Some(Day);
    }
  }

  lemma UncappedIsFinite(amount: nat, unit: TimeUnit)
    requires unit in {Second, Minute, Day}
    requires amount * unit.ms <= MaxDurationMs
    ensures amount < NumberOverflow
  {
    assert amount <= amount * unit.ms;
  }

  /** Parsing the echoed text runs the part after the match on the groups `Describe` promises. */
  lemma ParseDescription(amount: nat, unit: TimeUnit)
    requires unit in {Second, Minute, Day}
    ensures Match(Describe(amount, unit)).Some?
    ensures AllDigits(Match(Describe(amount, unit)).value.digits)
    ensures Parse(Some(Describe(amount, unit))) == FromGroups(Match(Describe(amount, unit)).value)
  {
    var text := Describe(amount, unit);
    CanonicalDescription(amount, unit);
    assert text != [];
  }

  /** Once the groups name an amount and a unit whose product is under the cap, the result is exactly that product. */
  lemma FromGroupsUncapped(g: Groups, amount: nat, unit: TimeUnit)
    requires AllDigits(g.digits) && DigitsValue(g.digits) == amount && UnitOf(g.unit) == Some(unit)
    requires 0 < amount && amount * unit.ms <= MaxDurationMs
    ensures FromGroups(g) == Some(Parsed(amount * unit.ms, Describe(amount, unit), false))
  {
    UncappedIsFinite(amount, unit);
  }

  /** The text `/mute` echoes back for an uncapped duration parses to that same duration. */
  lemma DescriptionRoundTrip(amount: nat, unit: TimeUnit)
    requires unit in {Second, Minute, Day}
    requires 0 < amount && amount * unit.ms <= MaxDurationMs
    ensures Parse(Some(Describe(amount, unit))) == Some(Parsed(amount * unit.ms, Describe(amount, unit), false))
  {
    ParseDescription(amount, unit);
    FromGroupsUncapped(Match(Describe(amount, unit)).value, amount, unit);
  }
}
