# Automod matching and mute durations, modelled in Dafny

This project models the two pieces of pure logic inside a Discord moderation bot.

- **The automod engine** in `commands/automod.js`. It has four parts:
  - Text normalisation: `applyLeet` and `normalizeForFilter`.
  - The Levenshtein edit distance.
  - The spacing matcher built by `escapeRegExp`/`makeSpacingRegex`.
  - The three-tier, first-hit-wins scan that decides whether a message is deleted.

  It also covers the list logic of `/automod add`, `/automod remove` and `/automod list` on the banned-word list.
- **`parseDuration`** in `commands/mute.js`. It turns "10s", "10 min" or "5 days" into milliseconds, capped at `MAX_DURATION_MS` (thirty days), plus the text the command echoes back.

Modules, one per file:

| file | module | what it holds |
|---|---|---|
| `wrappers.dfy` | `Wrappers` | `Option` |
| `ascii.dfy` | `Ascii` | character classes, `toLowerCase`, `trim` |
| `normalizer.dfy` | `Normalizer` | `applyLeet`, `normalizeForFilter` and its stages |
| `levenshtein.dfy` | `Levenshtein` | recursive edit distance and the 2-D array DP, proved equal |
| `spacing.dfy` | `Spacing` | `escapeRegExp` and the spacing matcher as a string predicate |
| `matcher.dfy` | `Matcher` | the tiers, the first-hit scan, the whole message verdict |
| `scenarios.dfy` | `Scenarios` | worked messages through the verdict |
| `termstore.dfy` | `TermStore` | add / remove / list on the word list |
| `duration.dfy` | `Duration` | `parseDuration` |
| `duration_examples.dfy` | `DurationExamples` | worked duration arguments |

Behaviour of the code that is easy to misread:

- **Terms are not normalised.** Terms loaded from the file are only lowercased (`commands/automod.js:22`), and terms added by `/automod add` are trimmed and lowercased (`commands/automod.js:188`). The direct tier looks for them in the fully normalised message. A term that is not itself in normal form can therefore never be a direct hit: one with `l`, `0`, `1`, `3`, `4`, `5`, punctuation or a doubled letter. See `Matcher.DirectNeedsNormalFormTerm` and `Scenarios.ExampleDoubledLetter`, where "bass" is only caught by the spacing tier.
- **`l` folds to `i`.** So "H3LL0" normalises to "heio", not "helo" (`Normalizer.NormalizeExampleShouted`).
- **Punctuation is stripped before the direct tier.** So "c.a.t" is a *direct* hit for "cat", not a spaced one (`Scenarios.ExampleDotted`).
- **A one-letter misspelling can cost two edits.** "helo" normalises to "heio". Its distance from "hello" is exactly 2, so the fuzzy tier still fires for that five-letter term (`Scenarios.ExampleMisspelt`). This is not the single edit the spelling suggests.
- **The spacing matcher is rebuilt for every term the scan tries** whose direct test failed (`commands/automod.js:113-119`). The model states it as a pure predicate.
- **The list is ordered and may hold anything the file held.** It is a sequence, not a set. `/automod add` keeps it free of duplicates (`TermStore.AddKeepsNoDuplicates`). A hand-edited file can still contain an empty entry, and that entry matches every message (`Matcher.EmptyTermMatchesEverything`).

## Model

| member | source | states |
|---|---|---|
| Ascii.Lower | commands/automod.js:56 | `toLowerCase` keeps the length and lowercases each character in place. |
| Ascii.LowerIdempotent | commands/automod.js:56 | Lowercased text has no capitals, and lowercasing it again changes nothing. |
| Ascii.Trim | commands/automod.js:188 | The result has no whitespace at either end. Text already without such whitespace is returned unchanged. |
| Ascii.TrimDropsOnlySpace | commands/automod.js:188 | `trim` removes only whitespace: the input is the result framed by two runs of whitespace. |
| Ascii.TrimLower | commands/automod.js:188 | `w.trim().toLowerCase()` is trimmed and has no capitals. |
| Ascii.TrimLowerIdempotent | commands/automod.js:188 | Canonicalising a word twice gives the same word as once. |
| Normalizer.Replace | commands/automod.js:57-61 | A global one-class `replace` keeps the length and rewrites each character on its own: characters in the class become the replacement, all others stay. |
| Normalizer.ApplyLeet | commands/automod.js:55-61 | `applyLeet` keeps the length. Each character becomes its lowercase form with 1 ! l → i, 3 → e, 4 @ → a, 0 → o, 5 $ → s, and every other character unchanged. |
| Normalizer.ApplyLeetFolds | commands/automod.js:55-61 | No capital and no leet source character survives `applyLeet`. |
| Normalizer.ApplyLeetKeepsFolded | commands/automod.js:55-61 | Text with no capital and no leet character is left unchanged by `applyLeet`. |
| Normalizer.StripNonAlnum | commands/automod.js:65 | Only `[a-z0-9]` survives. Folded characters stay folded, and text that is already alphanumeric is unchanged. |
| Normalizer.Collapse | commands/automod.js:66 | After collapsing no two neighbours are equal. The first character is kept, and text without repeats is unchanged. |
| Normalizer.StripDistributes | commands/automod.js:65 | Stripping distributes over concatenation. Together with the one-character case, it keeps exactly the `[a-z0-9]` characters, in order. |
| Normalizer.CollapseAppend | commands/automod.js:66 | Read left to right, a character survives collapsing exactly when it differs from the one before it, so each run of one character leaves one copy. |
| Normalizer.NormalizeForFilter | commands/automod.js:64-66 | The output has only `[a-z0-9]`, none of `l 0 1 3 4 5`, no equal neighbours, and is no longer than the input. |
| Normalizer.NormalFormIsFixed | commands/automod.js:64-66 | Text already in that normal form is its own normalisation. |
| Normalizer.NormalizeIdempotent | commands/automod.js:64-66 | Normalising twice is normalising once. |
| Normalizer.NormalizeEmpty | commands/automod.js:64-66 | The empty string normalises to the empty string. |
| Normalizer.NormalizeIgnoresCase | commands/automod.js:105-107 | Normalising the lowercased message gives the same as normalising the raw message. |
| Normalizer.CollapseExample | commands/automod.js:66 | "heiio" collapses to "heio". |
| Normalizer.LeetExampleShouted | commands/automod.js:55-61 | "H3LL0" leet-folds to "heiio". |
| Normalizer.NormalizeExampleShouted | commands/automod.js:64-66 | "H3LL0" normalises to "heio". |
| Normalizer.LeetExampleHello | commands/automod.js:55-61 | "hello" leet-folds to "heiio". |
| Normalizer.NormalizeExampleHello | commands/automod.js:64-66 | "hello" normalises to "heio". |
| Normalizer.StripExampleDotted | commands/automod.js:65 | Stripping "c.a.t" gives "cat". |
| Normalizer.NormalizeExampleDotted | commands/automod.js:64-66 | "c.a.t" normalises to "cat". |
| Levenshtein.Min3 | commands/automod.js:78-82 | The minimum of three is one of them and no larger than any. |
| Levenshtein.Levenshtein | commands/automod.js:69-86 | The array DP returns the recursive edit distance, where insertion, deletion and substitution each cost 1. |
| Levenshtein.DiagonalWhenEqual | commands/automod.js:76-77 | When the two characters are equal, the distance is the diagonal cell, so the code's shortcut is sound. |
| Levenshtein.DistDropRow | commands/automod.js:69-86 | Dropping the last character of `b`'s prefix raises the distance by at most one. |
| Levenshtein.DistDropColumn | commands/automod.js:69-86 | Dropping the last character of `a`'s prefix raises the distance by at most one. |
| Levenshtein.DistLowerBound | commands/automod.js:69-86 | The distance is at least the difference of the lengths. |
| Levenshtein.DistUpperBound | commands/automod.js:69-86 | The distance is at most the longer length. |
| Levenshtein.DistSymmetric | commands/automod.js:69-86 | Swapping the strings does not change the distance. |
| Levenshtein.DistSelf | commands/automod.js:69-86 | A string's distance from itself is 0. |
| Levenshtein.EditDistanceBounds | commands/automod.js:69-86 | The length difference ≤ lev(a, b) ≤ the maximum of the lengths. |
| Levenshtein.EditDistanceIdentity | commands/automod.js:69-86 | lev(a, a) = 0, lev(a, "") = \|a\| and lev("", b) = \|b\|. |
| Levenshtein.EditDistanceSymmetric | commands/automod.js:69-86 | lev(a, b) = lev(b, a). |
| Spacing.EscapeRegExp | commands/automod.js:88 | Escaping adds at most one backslash per character, so the source is between one and two times the term's length. |
| Spacing.EscapeIsLiteral | commands/automod.js:88 | Reading an escaped term as a regex source yields exactly the term's characters as literals. |
| Spacing.MatchesAt | commands/automod.js:90-94 | The pattern matching from a position consumes at least one text character per term character, and the empty pattern matches anywhere. |
| Spacing.SpacedMatch | commands/automod.js:119 | `makeSpacingRegex(term).test(text)` can only succeed when the text is at least as long as the term, and always succeeds for the empty term. |
| Spacing.SpacedMatchIsEmbedding | commands/automod.js:90-94 | The spacing regex matches iff the term's characters occur in order, case-insensitively, with only non-`[a-z0-9]` characters between neighbours. |
| Spacing.SubstringIsSpaced | commands/automod.js:90-94 | Any plain occurrence of the term also matches the spacing regex. |
| Spacing.EmptyTermAlwaysSpaced | commands/automod.js:90-94 | The empty term's regex matches every text. |
| Spacing.SpacedFindsEveryChar | commands/automod.js:90-94 | On a match, every character of the term appears somewhere in the text. |
| Matcher.MaxEdits | commands/automod.js:127 | The tolerance is 2 exactly when the term has at least five characters, and 1 otherwise. |
| Matcher.Contains | commands/automod.js:113 | `includes` can only succeed when the term is no longer than the text, and always succeeds for the empty term. |
| Matcher.TermTier | commands/automod.js:112-131 | A term passes no tier iff the normalised text is empty or lacks it, the spacing pattern fails, and the normalised text is empty or beyond the tolerance. Direct is reported exactly when the direct test passes, Spaced exactly when the direct test fails and the spacing test passes, and a fuzzy tier carries the true distance within the tolerance. |
| Matcher.Scan | commands/automod.js:111-133 | The scan is clean iff no term passes any tier. Otherwise it reports the first term that passes one, with the first tier that term passes. |
| Matcher.Evaluate | commands/automod.js:102-133 | An empty message is clean, and a hit always names a listed term. |
| Matcher.EvaluateFirstHit | commands/automod.js:102-135 | The verdict on a message is clean iff the message is empty or no term passes a tier on its two views. Otherwise it names the first term that does. |
| Matcher.NoNormalTextOnlySpaced | commands/automod.js:111-133 | When nothing survives normalisation, only the spacing tier can fire. |
| Matcher.FuzzyHitWithinTolerance | commands/automod.js:124-131 | A fuzzy hit carries the true edit distance from the normalised text, within the term's tolerance. |
| Matcher.FuzzyNeedsCloseLength | commands/automod.js:124-131 | A fuzzy hit requires lengths within the tolerance of each other. |
| Matcher.DirectNeedsNormalFormTerm | commands/automod.js:112-115 | Only a term that is itself in normal form can be a direct hit. |
| Matcher.EmptyTermMatchesEverything | commands/automod.js:111-122 | An empty entry at the head of the list makes every non-empty message a hit on it. |
| Scenarios.ExampleDotted | commands/automod.js:105-115 | "c.a.t" is a direct hit for "cat". |
| Scenarios.ExampleDoubledLetter | commands/automod.js:111-122 | "bass" is a spaced hit for "bass", not a direct one. |
| Scenarios.ExampleMisspelt | commands/automod.js:124-131 | "helo" is a fuzzy hit for "hello" at distance exactly 2. |
| Scenarios.MisspeltDistance | commands/automod.js:69-86 | The edit distance between "heio" and "hello" is 2. |
| Scenarios.ExampleUnrelated | commands/automod.js:111-133 | "banana" is clean against "cat". |
| TermStore.GivenWords | commands/automod.js:179-180 | A word is kept iff it is non-empty and was supplied as an option. There are no more words than options, and none iff no non-empty option was given. |
| TermStore.NonEmpty | commands/automod.js:187-189 | `.filter(w => w.length > 0)` keeps a word iff it is non-empty, and never lengthens the list. |
| TermStore.CanonicalWords | commands/automod.js:187-189 | A word is kept iff it is non-empty and is the trimmed, lowercased form of some option. Every kept word is in stored form, and there are no more words than options. |
| TermStore.NewWords | commands/automod.js:198-204 | The appended words are exactly the words given that are not in the list. Each appears once. |
| TermStore.AppendNew | commands/automod.js:198-204 | The push loop returns the old list followed by exactly the new words, in order. |
| TermStore.Add | commands/automod.js:174-208 | Add answers "nothing given" or "no valid words" exactly in those cases. Otherwise the list gets the new words appended, every given word ends up in the list, and it saves iff something was added. |
| TermStore.AddKeepsNoDuplicates | commands/automod.js:198-204 | A list without duplicates stays without duplicates, even when one command repeats a word. |
| TermStore.AddIsIdempotent | commands/automod.js:198-204 | Repeating an add appends nothing, so nothing is saved. |
| TermStore.Without | commands/automod.js:244 | A word is in the filtered list iff it was in the list and is not among the words removed. |
| TermStore.WithoutCounts | commands/automod.js:244 | Every copy of a removed word goes, and every other word keeps its number of copies. |
| TermStore.WithoutIsSubsequence | commands/automod.js:244 | The remaining words keep their original relative order. |
| TermStore.WithoutLength | commands/automod.js:243-245 | The length drops exactly when some stored word is among those removed. |
| TermStore.Remove | commands/automod.js:219-249 | Remove answers "nothing given" or "no valid words" exactly in those cases. Otherwise `removedCount` is the drop in length, positive iff some listed word was named, and it saves iff positive. |
| TermStore.RemovedWordNeverReported | commands/automod.js:243-245 | After a removal, no verdict can name a removed word. |
| TermStore.LexLeTotal | commands/automod.js:269 | The default string order is total. |
| TermStore.LexLeTransitive | commands/automod.js:269 | The default string order is transitive. |
| TermStore.LexLeAntisymmetric | commands/automod.js:269 | The default string order is antisymmetric. |
| TermStore.Insert | commands/automod.js:269 | Inserting into a sorted list keeps it sorted and adds exactly that one word. |
| TermStore.SortWords | commands/automod.js:269 | The sorted copy is sorted and has exactly the same words, counted with multiplicity. |
| TermStore.Truncate | commands/automod.js:274 | The description is at most 4000 characters: kept whole up to 4000, otherwise the first 3970 plus '…'. |
| TermStore.Join | commands/automod.js:270 | The joined text starts with the first word and has the words' total length plus two characters per separator. |
| TermStore.JoinAppend | commands/automod.js:270 | Joining one more word appends ", " and that word, so the words appear in list order. |
| TermStore.List | commands/automod.js:260-274 | List answers "empty" iff the list is empty. Otherwise it holds a sorted permutation of the list, and the description is that permutation joined and truncated, within the 4000-character limit. |
| TermStore.SortedUnique | commands/automod.js:269 | Two sorted lists with the same words are equal. |
| TermStore.ListIgnoresOrder | commands/automod.js:269-274 | The listing depends only on which words are stored, not on their order. |
| Duration.UnitOf | commands/mute.js:42-61 | Exactly s/sec/secs/second/seconds mean seconds, m/min/mins/minute/minutes mean minutes, and d/day/days mean days. Nothing else is a unit. |
| Duration.Match | commands/mute.js:29 | A match splits the text into digits, whitespace and lowercase letters, with nothing before or after. |
| Duration.MatchComplete | commands/mute.js:29-30 | Every text of that shape matches, with those same groups, so the split is unique. |
| Duration.DigitsValue | commands/mute.js:32 | `parseInt` of a digit run is 0 iff every digit is '0'. |
| Duration.LeadingZero | commands/mute.js:32 | A leading zero does not change the value read. |
| Duration.Describe | commands/mute.js:71-72 | The echoed text reads back through the regular expression as the same amount and a name of the same unit. |
| Duration.NatToString | commands/mute.js:72 | `${amount}` is a non-empty run of decimal digits with no leading zero. |
| Duration.NatToStringRoundTrip | commands/mute.js:33-72 | Printing an amount and parsing the digits back gives the amount. |
| Duration.FromGroups | commands/mute.js:33-69 | Once the regex matched, a result is positive, at most thirty days and whole seconds. A capped result is exactly thirty days with the fixed text. |
| Duration.FromGroupsMeaning | commands/mute.js:33-74 | After the match, the result exists iff the amount is positive and finite and the unit is known. It is capped iff amount × unit exceeds the maximum, and otherwise equals amount × unit with the "amount unit(s)" text. |
| Duration.Parse | commands/mute.js:23-77 | A missing or empty argument gives null. Every result is positive, at most `MAX_DURATION_MS` and whole seconds. A capped result is thirty days with text "30 days (max duration)". |
| Duration.ParseSound | commands/mute.js:24-61 | A successful parse means the trimmed, lowercased text is a positive finite number, optional whitespace and a known unit. |
| Duration.ParseComplete | commands/mute.js:24-74 | Text of that shape parses iff the amount is positive and finite and the unit is known. It is capped iff amount × unit exceeds thirty days, and otherwise gives amount × unit with the singular label exactly for 1. |
| Duration.ParseIgnoresCaseAndPadding | commands/mute.js:26 | Only the trimmed, lowercased argument matters. |
| Duration.WholeSeconds | commands/mute.js:42-63 | Every unit, and so every uncapped duration, is a whole number of seconds. |
| Duration.FromGroupsUncapped | commands/mute.js:63-74 | When amount × unit is within the cap, the result is exactly that many milliseconds, uncapped, with the "amount unit(s)" text. |
| Duration.DescriptionRoundTrip | commands/mute.js:63-74 | The text echoed for an uncapped duration parses back to that same duration and text. |
| DurationExamples.ThirtyDaysIsTheCap | commands/mute.js:63-74 | "30d" is exactly the maximum, not capped, with text "30 days". |
| DurationExamples.ThirtyOneDaysIsCapped | commands/mute.js:63-74 | "31d" is capped to thirty days with the fixed text. |
| DurationExamples.HoursAreRejected | commands/mute.js:42-61 | "10h" is rejected: hours are not a unit. |
| DurationExamples.ZeroIsRejected | commands/mute.js:35 | "0s" is rejected. |
| DurationExamples.PaddingAndCaseIgnored | commands/mute.js:26 | " 10 MIN " gives 600000 ms and "10 minutes". |

## Left out

- Discord plumbing is not modelled. This covers event handlers, message deletion, embeds, replies, the `hasModRole` and exempt-role checks, and the guild/bot guards at `commands/automod.js:99-100`. These act on external objects; the model starts at the message text and the option values.
- File persistence (`loadBannedWords`, `saveBannedWords`) is reduced to the `saved` flag of each reply. The stored list is a parameter.
- The auto-unmute timer, and everything in `commands/mute.js` after `parseDuration`, are left out because they are timing and platform behaviour.
- Concurrency is left out. The bot runs on one event loop, and each command and message is modelled as one atomic step.
- Ascii.Lower: lowercasing, and so the case-insensitive flag of the spacing regex, covers ASCII letters only. Unicode case mappings that change length or map non-ASCII letters are not modelled.
- Strings are sequences of code points, not UTF-16 code units. For text outside the Basic Multilingual Plane the model differs from JavaScript in four places:
  - length, which affects the 4000-character limit and the fuzzy tolerance;
  - the edit distance itself, which JavaScript computes over UTF-16 code units (`commands/automod.js:70-77`);
  - `split('')` in the spacing regex;
  - the order used by `sort()`.
- The verdict uses the recursive reference distance `EditDistance`, which the array method is proved to compute, so the method itself is not called from the verdict.
- Number precision: the amount is an exact integer. In JavaScript, amounts beyond 2^53 are rounded, and so is their product with the unit. Every such amount is far above the cap, so it is capped either way. Amounts of 2^1024 − 2^970 or more become `Infinity` and are rejected, and the model rejects them too (`NumberOverflow`).
- Whitespace for `trim` and `\s` is the full JavaScript set of white-space and line-terminator code points. `\d` and `[a-z]` are ASCII, as in JavaScript.
