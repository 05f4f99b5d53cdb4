/** `get_word_and_synonyms`: pick one of seven common words, then turn the
    lemma names of the word's WordNet synsets into at most five synonyms,
    with underscores replaced by spaces, duplicates removed, in ascending
    order. The WordNet lookup is a parameter: for a word it gives one
    sequence of lemma names per synset, in synset order. The random draw is
    the index of the chosen word. */
module Vocab {
  import opened LexOrder
  import opened Text

  const CommonWords: seq<string> := ["happy", "fast", "strong", "kind", "smart", "clear", "bright"]

  /** How many synonyms are kept after sorting. */
  const MaxSynonyms: nat := 5

  datatype WordOfTheDay = WordOfTheDay(word: string, synonyms: seq<string>)

  /** `random.choice(common_words)`, the draw given as an index. */
  function PickWord(choice: nat): (w: string)
    requires choice < |CommonWords|
    ensures w in CommonWords
    ensures |w| > 0 && '_' !in w && '\n' !in w
  {
    CommonWords[choice]
  }

  // ---------------------------------------------------------------------
  // Flattening the lemma names

  /** `[lemma.name().replace('_', ' ') for lemma in syn.lemmas()]` for one synset. */
  function ConvertNames(names: seq<string>): (r: seq<string>)
    ensures |r| == |names|
    ensures forall k :: 0 <= k < |names| ==> r[k] == ReplaceUnderscore(names[k])
  {
    if names == [] then [] else [ReplaceUnderscore(names[0])] + ConvertNames(names[1..])
  }

  /** `x` is the underscore-free form of some lemma name of some synset. */
  ghost predicate IsConvertedLemma(synsets: seq<seq<string>>, x: string)
  {
    exists i, j :: 0 <= i < |synsets| && 0 <= j < |synsets[i]| && x == ReplaceUnderscore(synsets[i][j])
  }

  /** The nested comprehension over all synsets and all their lemmas, in order. */
  function LemmaNames(synsets: seq<seq<string>>): (r: seq<string>)
    ensures forall k :: 0 <= k < |r| ==> '_' !in r[k]
  {
    if synsets == [] then [] else ConvertNames(synsets[0]) + LemmaNames(synsets[1..])
  }

  /** The flattened list holds exactly the converted lemma names. */
  lemma {:induction false} LemmaNamesMembers(synsets: seq<seq<string>>)
    ensures forall x :: x in LemmaNames(synsets) <==> IsConvertedLemma(synsets, x)
  {
    if synsets != [] {
      var tail := synsets[1..];
      LemmaNamesMembers(tail);
      forall x | x in LemmaNames(synsets)
        ensures IsConvertedLemma(synsets, x)
      {
        if x in ConvertNames(synsets[0]) {
          var j :| 0 <= j < |synsets[0]| && ConvertNames(synsets[0])[j] == x;
          assert x == ReplaceUnderscore(synsets[0][j]);
        } else {
          assert x in LemmaNames(tail);
          var i, j :| 0 <= i < |tail| && 0 <= j < |tail[i]| && x == ReplaceUnderscore(tail[i][j]);
          assert x == ReplaceUnderscore(synsets[i + 1][j]);
        }
      }
      forall x | IsConvertedLemma(synsets, x)
        ensures x in LemmaNames(synsets)
      {
        var i, j :| 0 <= i < |synsets| && 0 <= j < |synsets[i]| && x == ReplaceUnderscore(synsets[i][j]);
        if i == 0 {
          assert ConvertNames(synsets[0])[j] == x;
        } else {
          assert tail[i - 1][j] == synsets[i][j];
          assert IsConvertedLemma(tail, x);
        }
      }
    }
  }

  /** The flattened list is empty exactly when no synset has a lemma. */
  lemma {:induction false} LemmaNamesEmpty(synsets: seq<seq<string>>)
    ensures LemmaNames(synsets) == [] <==> forall i :: 0 <= i < |synsets| ==> synsets[i] == []
  {
    if synsets != [] {
      LemmaNamesEmpty(synsets[1..]);
      assert forall i :: 1 <= i < |synsets| ==> synsets[i] == synsets[1..][i - 1];
    }
  }

  // ---------------------------------------------------------------------
  // sorted(set(...))

  /** Ascending without repetition, in Python's string order. */
  predicate StrictlyAscending(s: seq<string>)
  {
    forall i, j :: 0 <= i < j < |s| ==> LexLess(s[i], s[j])
  }

  lemma AscendingDistinct(s: seq<string>)
    requires StrictlyAscending(s)
    ensures forall i, j :: 0 <= i < j < |s| ==> s[i] != s[j]
  {
    forall i, j | 0 <= i < j < |s|
      ensures s[i] != s[j]
    {
      Irreflexive(s[i]);
    }
  }

  lemma ConsBelowHead(x: string, s: seq<string>)
    requires StrictlyAscending(s) && s != [] && LexLess(x, s[0])
    ensures StrictlyAscending([x] + s) && x !in s
  {
    forall k | 0 <= k < |s|
      ensures LexLess(x, s[k])
    {
      if k > 0 {
        Transitive(x, s[0], s[k]);
      }
    }
  }

  lemma ConsAboveHead(x: string, s: seq<string>, t: seq<string>)
    requires StrictlyAscending(s) && s != [] && x != s[0] && !LexLess(x, s[0])
    requires StrictlyAscending(t)
    requires forall y :: y in t ==> y == x || y in s[1..]
    ensures StrictlyAscending([s[0]] + t)
  {
    Total(x, s[0]);
    forall k | 0 <= k < |t|
      ensures LexLess(s[0], t[k])
    {
      assert t[k] in t;
    }
  }

  /** Insert `x` into a strictly ascending list unless it is already there. */
  function Insert(x: string, s: seq<string>): (r: seq<string>)
    requires StrictlyAscending(s)
    ensures StrictlyAscending(r)
    ensures forall y :: y in r <==> y == x || y in s
    ensures x in s ==> r == s
  {
    if s == [] then [x]
    else if x == s[0] then s
    else if LexLess(x, s[0]) then ConsBelowHead(x, s); [x] + s
    else
      var t := Insert(x, s[1..]);
      ConsAboveHead(x, s, t);
      assert s == [s[0]] + s[1..];
      [s[0]] + t
  }

  /** `sorted(set(xs))`: the distinct elements of `xs` in ascending order. */
  function SortedSet(xs: seq<string>): (r: seq<string>)
    ensures StrictlyAscending(r)
    ensures forall y :: y in r <==> y in xs
  {
    if xs == [] then [] else Insert(xs[0], SortedSet(xs[1..]))
  }

  lemma AscendingTail(a: seq<string>)
    requires StrictlyAscending(a) && a != []
    ensures forall y :: y in a[1..] <==> y in a && y != a[0]
  {
    forall y | y in a[1..]
      ensures y != a[0]
    {
      var k :| 0 <= k < |a[1..]| && a[1..][k] == y;
      assert LexLess(a[0], a[k + 1]);
      Irreflexive(y);
    }
    forall y | y in a && y != a[0]
      ensures y in a[1..]
    {
      var k :| 0 <= k < |a| && a[k] == y;
      assert a[1..][k - 1] == y;
    }
  }

  lemma HeadIsMember(s: seq<string>)
    ensures s == [] || s[0] in s
  {
  }

  /** There is only one strictly ascending list with given elements. */
  lemma {:induction false} AscendingUnique(a: seq<string>, b: seq<string>)
    requires StrictlyAscending(a) && StrictlyAscending(b)
    requires forall y :: y in a <==> y in b
    ensures a == b
    decreases |a|
  {
    if a == [] {
      HeadIsMember(b);
    } else {
      assert a[0] in a;
      assert b != [];
      assert b[0] in b;
      if a[0] != b[0] {
        var k :| 0 <= k < |a| && a[k] == b[0];
        var m :| 0 <= m < |b| && b[m] == a[0];
        assert LexLess(a[0], b[0]) && LexLess(b[0], a[0]);
        Asymmetric(a[0], b[0]);
      }
      AscendingTail(a);
      AscendingTail(b);
      AscendingUnique(a[1..], b[1..]);
      assert a == [a[0]] + a[1..] && b == [b[0]] + b[1..];
    }
  }

  /** `sorted(set(xs))` is the one ascending enumeration of the elements of
      `xs`; in particular it depends only on which names occur, not on their
      order or their repetitions. */
  lemma SortedSetIsTheEnumeration(xs: seq<string>, t: seq<string>)
    requires StrictlyAscending(t)
    requires forall y :: y in t <==> y in xs
    ensures SortedSet(xs) == t
  {
    AscendingUnique(SortedSet(xs), t);
  }

  lemma SortedSetIgnoresOrder(xs: seq<string>, ys: seq<string>)
    requires forall y :: y in xs <==> y in ys
    ensures SortedSet(xs) == SortedSet(ys)
  {
    AscendingUnique(SortedSet(xs), SortedSet(ys));
  }

  /** A list without repetition is as long as its set of elements. */
  lemma {:induction false} AscendingCard(s: seq<string>)
    requires StrictlyAscending(s)
    ensures |set y | y in s| == |s|
  {
    if s != [] {
      AscendingTail(s);
      AscendingCard(s[1..]);
      assert (set y | y in s) == {s[0]} + (set y | y in s[1..]);
    }
  }

  // ---------------------------------------------------------------------
  // The synonym list and the word of the day

  /** `sorted(set(synonyms))[:5]`. */
  function Synonyms(synsets: seq<seq<string>>): (r: seq<string>)
    ensures |r| <= MaxSynonyms
    ensures StrictlyAscending(r)
    ensures forall k :: 0 <= k < |r| ==> '_' !in r[k]
    ensures forall x :: x in r ==> IsConvertedLemma(synsets, x)
  {
    LemmaNamesMembers(synsets);
    var all := SortedSet(LemmaNames(synsets));
    assert forall x :: x in all ==> '_' !in x;
    if |all| <= MaxSynonyms then all else all[..MaxSynonyms]
  }

  /** The distinct converted lemma names. */
  ghost function DistinctNames(synsets: seq<seq<string>>): set<string>
  {
    set x | x in LemmaNames(synsets)
  }

  /** Five synonyms are kept when there are at least five distinct names,
      and all of them otherwise. */
  lemma SynonymsCount(synsets: seq<seq<string>>)
    ensures |Synonyms(synsets)| == if |DistinctNames(synsets)| < MaxSynonyms then |DistinctNames(synsets)| else MaxSynonyms
  {
    var all := SortedSet(LemmaNames(synsets));
    AscendingCard(all);
    assert (set y | y in all) == DistinctNames(synsets);
  }

  /** Truncation keeps the smallest names: a converted lemma name that is
      not among the synonyms comes after every synonym, and then five were
      kept. So when fewer than five are kept, every name is kept. */
  lemma SynonymsKeepSmallest(synsets: seq<seq<string>>, y: string)
    requires IsConvertedLemma(synsets, y)
    requires y !in Synonyms(synsets)
    ensures |Synonyms(synsets)| == MaxSynonyms
    ensures forall k :: 0 <= k < MaxSynonyms ==> LexLess(Synonyms(synsets)[k], y)
  {
    LemmaNamesMembers(synsets);
    var all := SortedSet(LemmaNames(synsets));
    var m :| 0 <= m < |all| && all[m] == y;
    assert m >= MaxSynonyms;
  }

  /** The synonym list is empty exactly when the word has no lemma in any
      synset (no synsets at all, or only empty ones). */
  lemma SynonymsEmpty(synsets: seq<seq<string>>)
    ensures Synonyms(synsets) == [] <==> forall i :: 0 <= i < |synsets| ==> synsets[i] == []
  {
    LemmaNamesEmpty(synsets);
    var names := LemmaNames(synsets);
    if names != [] {
      var all := SortedSet(names);
      assert names[0] in all;
    }
  }

  /** `get_word_and_synonyms()`. */
  function GetWordAndSynonyms(choice: nat, wordnet: string -> seq<seq<string>>): (r: WordOfTheDay)
    requires choice < |CommonWords|
    ensures r.word in CommonWords
    ensures |r.synonyms| <= MaxSynonyms && StrictlyAscending(r.synonyms)
    ensures forall x :: x in r.synonyms ==> '_' !in x && IsConvertedLemma(wordnet(r.word), x)
  {
    var word := PickWord(choice);
    WordOfTheDay(word, Synonyms(wordnet(word)))
  }
}
