/**
  The banned-word list behind `/automod add`, `/automod remove` and
  `/automod list`. The list is an ordered sequence of strings; persisting
  it is reduced to a `saved` flag on each reply.
*/
module TermStore {
  import opened Wrappers
  import opened Ascii
  import Matcher

  /** `[w1, w2, w3].filter(Boolean)`: the options that were supplied and are not empty. */
  function GivenWords(options: seq<Option<string>>): (r: seq<string>)
    ensures forall w :: w in r <==> w != [] && Some(w) in options
    ensures |r| <= |options|
    ensures r == [] <==> forall i :: 0 <= i < |options| ==> options[i] == None || options[i] == Some([])
  {
    if options == [] then []
    else
      (if options[0].Some? && options[0].value != [] then [options[0].value] else [])
      + GivenWords(options[1..])
  }

  /** A word as `/automod add` stores it: non-empty and already trimmed and lowercase (`w.trim().toLowerCase()`). */
  predicate IsStoredForm(w: string) { w != [] && TrimLower(w) == w }

  /** `.filter(w => w.length > 0)`. */
  function NonEmpty(ws: seq<string>): (r: seq<string>)
    ensures forall w :: w in r <==> w in ws && w != []
    ensures |r| <= |ws|
  {
    if ws == [] then []
    else (if ws[0] != [] then [ws[0]] else []) + NonEmpty(ws[1..])
  }

  /**
    `.map(w => w.trim().toLowerCase()).filter(w => w.length > 0)`: every
    word kept is in stored form and is the canonical form of some option,
    and no word that is non-empty after trimming is lost.
  */
  function CanonicalWords(raw: seq<string>): (r: seq<string>)
    ensures forall i :: 0 <= i < |r| ==> IsStoredForm(r[i])
    ensures forall w :: w in r <==> w != [] && exists i :: 0 <= i < |raw| && TrimLower(raw[i]) == w
    ensures forall i :: 0 <= i < |raw| && TrimLower(raw[i]) != [] ==> TrimLower(raw[i]) in r
    ensures |r| <= |raw|
  {
    var cs := seq(|raw|, k requires 0 <= k < |raw| => TrimLower(raw[k]));
    forall k | 0 <= k < |raw|
      ensures cs[k] == [] || IsStoredForm(cs[k])
    {
      TrimLowerIdempotent(raw[k]);
    }
    var r := NonEmpty(cs);
    forall i | 0 <= i < |r|
      ensures IsStoredForm(r[i])
    {
      assert r[i] in cs;
    }
    forall i | 0 <= i < |raw| && TrimLower(raw[i]) != []
      ensures TrimLower(raw[i]) in r
    {
      assert cs[i] in cs;
    }
    forall w | w in r
      ensures exists i :: 0 <= i < |raw| && TrimLower(raw[i]) == w
    {
      var i :| 0 <= i < |cs| && cs[i] == w;
    }
    r
  }

  predicate NoDuplicates(s: seq<string>) {
    forall i, j :: 0 <= i < j < |s| ==> s[i] != s[j]
  }

  /**
    The words `/automod add` appends to `store`: each word of `ws` that is
    neither in the store nor earlier in `ws`, in the order of `ws`.
  */
  function NewWords(store: seq<string>, ws: seq<string>): (r: seq<string>)
    ensures forall w :: w in r <==> w in ws && w !in store
    ensures NoDuplicates(r)
    decreases |ws|
  {
    if ws == [] then []
    else
      var prefix := ws[..|ws| - 1];
      var w := ws[|ws| - 1];
      assert ws == prefix + [w];
      if w in store || w in prefix then NewWords(store, prefix)
      else NewWords(store, prefix) + [w]
  }

  /** The `for (const w of toAdd)` loop: push every word not yet in the list. */
  method AppendNew(store: seq<string>, toAdd: seq<string>) returns (words: seq<string>, added: seq<string>)
    ensures added == NewWords(store, toAdd)
    ensures words == store + added
  {
    words, added := store, [];
    var k := 0;
    while k < |toAdd|
      invariant k <= |toAdd|
      invariant added == NewWords(store, toAdd[..k])
      invariant words == store + added
    {
      var w := toAdd[k];
      assert toAdd[..k + 1][..k] == toAdd[..k];
      if w !in words {
        words := words + [w];
        added := added + [w];
      }
      k := k + 1;
    }
    assert toAdd[..k] == toAdd;
  }

  datatype AddReply =
    | AddNothingGiven                                             // "You must specify at least one word"
    | AddNoValidWords                                             // "No valid words provided"
    | Added(words: seq<string>, added: seq<string>, saved: bool)  // new list, newly added words, saved?

  /** `/automod add`, from collecting the options to the save. */
  method Add(store: seq<string>, options: seq<Option<string>>) returns (reply: AddReply)
    ensures reply.AddNothingGiven? <==> GivenWords(options) == []
    ensures reply.AddNoValidWords? <==> GivenWords(options) != [] && CanonicalWords(GivenWords(options)) == []
    ensures reply.Added? ==>
      var toAdd := CanonicalWords(GivenWords(options));
      && reply.words == store + reply.added
      && reply.added == NewWords(store, toAdd)
      && (forall w :: w in toAdd ==> w in reply.words)
      && (reply.saved <==> reply.added != [])
  {
    var given := GivenWords(options);
    if given == [] {
      return AddNothingGiven;
    }
    var toAdd := CanonicalWords(given);
    if toAdd == [] {
      return AddNoValidWords;
    }
    var words, added := AppendNew(store, toAdd);
    reply := Added(words, added, |added| > 0);
  }

  /** Adding never introduces a duplicate, even among the words of one command. */
  lemma AddKeepsNoDuplicates(store: seq<string>, ws: seq<string>)
    requires NoDuplicates(store)
    ensures NoDuplicates(store + NewWords(store, ws))
  {
    var added := NewWords(store, ws);
    var r := store + added;
    forall i, j | 0 <= i < j < |r|
      ensures r[i] != r[j]
    {
      if j >= |store| && i < |store| {
        assert r[j] in added && r[i] in store;
      } else if i >= |store| {
        assert r[i] == added[i - |store|] && r[j] == added[j - |store|];
      }
    }
  }

  lemma {:induction false} NothingNewInStore(store: seq<string>, ws: seq<string>)
    requires forall i :: 0 <= i < |ws| ==> ws[i] in store
    ensures NewWords(store, ws) == []
    decreases |ws|
  {
    if ws != [] {
      NothingNewInStore(store, ws[..|ws| - 1]);
    }
  }

  /** Repeating an add is a no-op: the second time nothing is new, so nothing is saved. */
  lemma AddIsIdempotent(store: seq<string>, ws: seq<string>)
    ensures NewWords(store + NewWords(store, ws), ws) == []
  {
    var added := NewWords(store, ws);
    var after := store + added;
    forall i | 0 <= i < |ws|
      ensures ws[i] in after
    {
      if ws[i] !in store {
        assert ws[i] in added;
      }
    }
    NothingNewInStore(after, ws);
  }

  /** `bannedWords.filter(w => !toRemove.includes(w))`. */
  function Without(store: seq<string>, toRemove: seq<string>): (r: seq<string>)
    ensures forall w :: w in r <==> w in store && w !in toRemove
    ensures |r| <= |store|
  {
    if store == [] then []
    else
      var rest := Without(store[1..], toRemove);
      assert store == [store[0]] + store[1..];
      if store[0] in toRemove then rest else [store[0]] + rest
  }

  /** The filter drops every copy of a removed word and keeps every copy of any other word. */
  lemma {:induction false} WithoutCounts(store: seq<string>, toRemove: seq<string>)
    ensures forall w :: multiset(Without(store, toRemove))[w] == if w in toRemove then 0 else multiset(store)[w]
    decreases |store|
  {
    if store != [] {
      WithoutCounts(store[1..], toRemove);
      assert store == [store[0]] + store[1..];
    }
  }

  /** The words that stay keep their relative order. */
  lemma {:induction false} WithoutIsSubsequence(store: seq<string>, toRemove: seq<string>)
    ensures IsSubsequence(Without(store, toRemove), store)
    decreases |store|
  {
    if store != [] {
      var rest := Without(store[1..], toRemove);
      WithoutIsSubsequence(store[1..], toRemove);
      if store[0] in toRemove {
        SubsequenceOfTail(rest, store);
      } else {
        assert ([store[0]] + rest)[1..] == rest;
      }
    }
  }

  /** The length drops exactly when some stored word is among those removed. */
  lemma {:induction false} WithoutLength(store: seq<string>, toRemove: seq<string>)
    ensures |Without(store, toRemove)| == |store| <==> forall i :: 0 <= i < |store| ==> store[i] !in toRemove
    decreases |store|
  {
    if store != [] {
      WithoutLength(store[1..], toRemove);
      assert forall i :: 1 <= i < |store| ==> store[i] == store[1..][i - 1];
      assert |Without(store[1..], toRemove)| <= |store| - 1;
    }
  }

  /** `a` is `b` with some elements deleted, the rest in their original relative order. */
  predicate IsSubsequence(a: seq<string>, b: seq<string>)
    decreases |b|
  {
    if a == [] then true
    else if b == [] then false
    else if a[0] == b[0] then IsSubsequence(a[1..], b[1..])
    else IsSubsequence(a, b[1..])
  }

  lemma {:induction false} SubsequenceOfTail(a: seq<string>, b: seq<string>)
    requires b != [] && IsSubsequence(a, b[1..])
    ensures IsSubsequence(a, b)
    decreases |b|, 0
  {
    if a != [] && a[0] == b[0] {
      SubsequenceDropHead(a, b[1..]);
    }
  }

  lemma {:induction false} SubsequenceDropHead(a: seq<string>, c: seq<string>)
    requires a != [] && IsSubsequence(a, c)
    ensures IsSubsequence(a[1..], c)
    decreases |c|, 1
  {
    if a[0] == c[0] {
      SubsequenceOfTail(a[1..], c);
    } else {
      SubsequenceDropHead(a, c[1..]);
      SubsequenceOfTail(a[1..], c);
    }
  }

  datatype RemoveReply =
    | RemoveNothingGiven                                             // "You must specify at least one word"
    | RemoveNoValidWords                                             // "No valid words provided"
    | Removed(words: seq<string>, removedCount: nat, saved: bool)    // new list, count removed, saved?

  /** `/automod remove`, from collecting the options to the save. */
  function Remove(store: seq<string>, options: seq<Option<string>>): (r: RemoveReply)
    ensures r.RemoveNothingGiven? <==> GivenWords(options) == []
    ensures r.RemoveNoValidWords? <==> GivenWords(options) != [] && CanonicalWords(GivenWords(options)) == []
    ensures r.Removed? ==>
      var toRemove := CanonicalWords(GivenWords(options));
      && (forall w :: w in r.words <==> w in store && w !in toRemove)
      && (forall w :: w !in toRemove ==> multiset(r.words)[w] == multiset(store)[w])
      && IsSubsequence(r.words, store)
      && r.removedCount == |store| - |r.words|
      && (r.saved <==> r.removedCount > 0)
      && (r.removedCount > 0 <==> exists i :: 0 <= i < |store| && store[i] in toRemove)
  {
    var given := GivenWords(options);
    if given == [] then RemoveNothingGiven
    else
      var toRemove := CanonicalWords(given);
      if toRemove == [] then RemoveNoValidWords
      else
        var words := Without(store, toRemove);
        WithoutCounts(store, toRemove);
        WithoutIsSubsequence(store, toRemove);
        WithoutLength(store, toRemove);
        var removedCount := |store| - |words|;
        Removed(words, removedCount, removedCount > 0)
  }

  /** After a removal the verdict can no longer name any of the removed words. */
  lemma RemovedWordNeverReported(store: seq<string>, options: seq<Option<string>>, raw: string, w: string)
    requires Remove(store, options).Removed?
    requires w in CanonicalWords(GivenWords(options))
    ensures w !in Remove(store, options).words
    ensures Matcher.Evaluate(raw, Remove(store, options).words).Hit? ==>
              Matcher.Evaluate(raw, Remove(store, options).words).term != w
  {
  }

  /** JavaScript's default `sort` order on strings: lexicographic by character code. */
  predicate LexLe(a: string, b: string)
    decreases |a|
  {
    |a| == 0 || (|b| > 0 && (a[0] < b[0] || (a[0] == b[0] && LexLe(a[1..], b[1..]))))
  }

  lemma {:induction false} LexLeTotal(a: string, b: string)
    ensures LexLe(a, b) || LexLe(b, a)
    decreases |a|
  {
    if |a| > 0 && |b| > 0 && a[0] == b[0] {
      LexLeTotal(a[1..], b[1..]);
    }
  }

  lemma {:induction false} LexLeTransitive(a: string, b: string, c: string)
    requires LexLe(a, b) && LexLe(b, c)
    ensures LexLe(a, c)
    decreases |a|
  {
    if |a| > 0 && a[0] == b[0] && b[0] == c[0] {
      LexLeTransitive(a[1..], b[1..], c[1..]);
    }
  }

  lemma {:induction false} LexLeAntisymmetric(a: string, b: string)
    requires LexLe(a, b) && LexLe(b, a)
    ensures a == b
    decreases |a|
  {
    if |a| > 0 {
      LexLeAntisymmetric(a[1..], b[1..]);
      assert a == [a[0]] + a[1..] && b == [b[0]] + b[1..];
    }
  }

  predicate Sorted(s: seq<string>) {
    forall i, j :: 0 <= i < j < |s| ==> LexLe(s[i], s[j])
  }

  /** No word of `s` sorts before `x`. */
  predicate AllAbove(x: string, s: seq<string>) {
    forall k :: 0 <= k < |s| ==> LexLe(x, s[k])
  }

  lemma SortedCons(x: string, s: seq<string>)
    requires Sorted(s) && AllAbove(x, s)
    ensures Sorted([x] + s)
  {
    var r := [x] + s;
    assert forall k :: 1 <= k < |r| ==> r[k] == s[k - 1];
  }

  lemma SortedTail(s: seq<string>)
    requires Sorted(s) && s != []
    ensures Sorted(s[1..]) && AllAbove(s[0], s[1..])
  {
    assert forall k :: 0 <= k < |s| - 1 ==> s[1..][k] == s[k + 1];
  }

  /** Whether every word lies above `x` depends only on the words, not on their order. */
  lemma AllAboveSameWords(x: string, s: seq<string>, t: seq<string>)
    requires multiset(s) == multiset(t) && AllAbove(x, t)
    ensures AllAbove(x, s)
  {
    forall k | 0 <= k < |s|
      ensures LexLe(x, s[k])
    {
      assert s[k] in multiset(t);
      var m :| 0 <= m < |t| && t[m] == s[k];
    }
  }

  lemma LexLeReflexive(a: string)
    ensures LexLe(a, a)
  {
  }

  lemma AboveTransitive(x: string, y: string, s: seq<string>)
    requires LexLe(x, y) && AllAbove(y, s)
    ensures AllAbove(x, s)
  {
    forall k | 0 <= k < |s|
      ensures LexLe(x, s[k])
    {
      LexLeTransitive(x, y, s[k]);
    }
  }

  function Insert(x: string, s: seq<string>): (r: seq<string>)
    requires Sorted(s)
    ensures Sorted(r)
    ensures multiset(r) == multiset(s) + multiset{x}
  {
    if s == [] then [x]
    else
      SortedTail(s);
      assert s == [s[0]] + s[1..];
      if LexLe(x, s[0]) then
        AboveTransitive(x, s[0], s[1..]);
        SortedCons(x, s);
        [x] + s
      else
        LexLeTotal(x, s[0]);
        var rest := Insert(x, s[1..]);
        assert AllAbove(s[0], [x] + s[1..]) by {
          SortedCons(s[0], s[1..]);
        }
        assert multiset(rest) == multiset([x] + s[1..]);
        AllAboveSameWords(s[0], rest, [x] + s[1..]);
        SortedCons(s[0], rest);
        [s[0]] + rest
  }

  /** `[...bannedWords].sort()`: a sorted copy with exactly the same words. */
  function SortWords(s: seq<string>): (r: seq<string>)
    ensures Sorted(r)
    ensures multiset(r) == multiset(s)
  {
    if s == [] then []
    else
      assert s == [s[0]] + s[1..];
      Insert(s[0], SortWords(s[1..]))
  }

  /** The number of characters in all of `ws`. */
  function TotalLength(ws: seq<string>): nat {
    if ws == [] then 0 else |ws[0]| + TotalLength(ws[1..])
  }

  /** `sorted.join(', ')`: the words in order, starting with the first, with one separator between neighbours. */
  function Join(ws: seq<string>): (r: string)
    ensures ws != [] ==> ws[0] <= r
    ensures ws != [] ==> |r| == TotalLength(ws) + 2 * (|ws| - 1)
  {
    if ws == [] then []
    else if |ws| == 1 then ws[0]
    else ws[0] + ", " + Join(ws[1..])
  }

  /** Joining one more word appends a separator and that word, so the words appear in the list's order. */
  lemma {:induction false} JoinAppend(ws: seq<string>, w: string)
    requires ws != []
    ensures Join(ws + [w]) == Join(ws) + ", " + w
    decreases |ws|
  {
    if |ws| == 1 {
      assert ws + [w] == [ws[0], w];
      assert [ws[0], w][1..] == [w];
    } else {
      assert (ws + [w])[1..] == ws[1..] + [w];
      JoinAppend(ws[1..], w);
    }
  }

  const DisplayLimit: nat := 4000
  const DisplayKeep: nat := 3970

  /** The embed description: at most 4000 characters, otherwise cut to 3970 plus an ellipsis. */
  function Truncate(display: string): (r: string)
    ensures |r| <= DisplayLimit
    ensures |display| <= DisplayLimit ==> r == display
    ensures |display| > DisplayLimit ==>
      |r| == DisplayKeep + 1 && r[..DisplayKeep] == display[..DisplayKeep] && r[DisplayKeep] == '…'
  {
    if |display| > DisplayLimit then display[..DisplayKeep] + "…" else display
  }

  datatype ListReply =
    | EmptyList                                   // "The automod banned words list is currently empty."
    | Listing(sorted: seq<string>, display: string)

  /** `/automod list`: reads the list and never changes it. */
  function List(store: seq<string>): (r: ListReply)
    ensures r.EmptyList? <==> store == []
    ensures r.Listing? ==> Sorted(r.sorted) && multiset(r.sorted) == multiset(store)
    ensures r.Listing? ==> |r.display| <= DisplayLimit
    ensures r.Listing? ==> r.display == Truncate(Join(r.sorted))
  {
    if store == [] then EmptyList
    else
      var sorted := SortWords(store);
      Listing(sorted, Truncate(Join(sorted)))
  }

  /** The head of a sorted sequence sorts no later than any of its words. */
  lemma SortedHeadIsLeast(s: seq<string>, x: string)
    requires Sorted(s) && x in multiset(s)
    ensures LexLe(s[0], x)
  {
    var m :| 0 <= m < |s| && s[m] == x;
    if m == 0 {
      LexLeReflexive(x);
    }
  }

  /** A sorted sequence is determined by its contents, so the listing does not depend on the store's order. */
  lemma {:induction false} SortedUnique(a: seq<string>, b: seq<string>)
    requires Sorted(a) && Sorted(b) && multiset(a) == multiset(b)
    ensures a == b
    decreases |a|
  {
    if a != [] {
      SameHead(a, b);
      SameTail(a, b);
      SortedTail(a);
      SortedTail(b);
      SortedUnique(a[1..], b[1..]);
      assert a == [a[0]] + a[1..] && b == [b[0]] + b[1..];
    }
  }

  lemma SameHead(a: seq<string>, b: seq<string>)
    requires Sorted(a) && Sorted(b) && multiset(a) == multiset(b) && a != []
    ensures b != [] && a[0] == b[0]
  {
    assert a[0] in multiset(a);
    assert b[0] in multiset(b);
    SortedHeadIsLeast(a, b[0]);
    SortedHeadIsLeast(b, a[0]);
    LexLeAntisymmetric(a[0], b[0]);
  }

  lemma SameTail(a: seq<string>, b: seq<string>)
    requires multiset(a) == multiset(b) && a != [] && b != [] && a[0] == b[0]
    ensures multiset(a[1..]) == multiset(b[1..])
  {
    assert a == [a[0]] + a[1..] && b == [b[0]] + b[1..];
    assert multiset(a[1..]) == multiset(a) - multiset{a[0]};
    assert multiset(b[1..]) == multiset(b) - multiset{b[0]};
  }

  lemma ListIgnoresOrder(s: seq<string>, t: seq<string>)
    requires multiset(s) == multiset(t)
    ensures List(s) == List(t)
  {
    if s != [] {
      SortedUnique(SortWords(s), SortWords(t));
    }
  }
}
