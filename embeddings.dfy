/** The bag-of-words embedder and cosine similarity of the backend
    (backend/utils/embeddings.js). A text's vector is the list of its words'
    counts, largest first, cut at 100 entries; which word a count belongs to
    never appears in it. Similarity is computed exactly over the integers,
    without floating point. */
module Embeddings {
  import opened Text
  import opened Sorting
  import opened Seqs

  /** At most this many entries in a vector (`slice(0, 100)`). */
  const MaxDimensions: nat := 100

  /** Words of at most this many characters are dropped (`word.length > 2`). */
  const MinWordLength: nat := 2

  // ---------------------------------------------------------------------------
  // Tokenising

  /** Keeps the words longer than `MinWordLength`. */
  function KeepLong(ws: seq<string>): (r: seq<string>)
    ensures forall i :: 0 <= i < |r| ==> |r[i]| > MinWordLength && r[i] in ws
  {
    if ws == [] then []
    else if |ws[0]| > MinWordLength then [ws[0]] + KeepLong(ws[1..])
    else KeepLong(ws[1..])
  }

  /** The words counted for `text`: lower-case it, split it on runs of
      non-word characters, keep the pieces longer than two characters. */
  function Tokens(text: string): seq<string> {
    KeepLong(SplitRuns(Lower(text), IsNonWordChar))
  }

  /** A word as the tokeniser can produce it. */
  predicate IsToken(w: string) {
    |w| > MinWordLength && AllOf(w, IsWordChar) && HasNoUpper(w)
  }

  /** Every token is longer than two characters, made of word characters
      only, and lower-case. */
  lemma {:induction false} TokensAreWords(text: string)
    ensures forall i :: 0 <= i < |Tokens(text)| ==> IsToken(Tokens(text)[i])
  {
    var pieces := SplitRuns(Lower(text), IsNonWordChar);
    LowerProperties(text);
    forall i | 0 <= i < |Tokens(text)| ensures IsToken(Tokens(text)[i]) {
      var w := Tokens(text)[i];
      var j :| 0 <= j < |pieces| && pieces[j] == w;
      assert NoneOf(w, IsNonWordChar);
      PieceHasNoUpper(Lower(text), pieces, j);
    }
  }

  /** A piece of a split of a lower-case string is lower-case. */
  lemma {:induction false} PieceHasNoUpper(s: string, pieces: seq<string>, j: nat)
    requires HasNoUpper(s) && pieces == SplitRuns(s, IsNonWordChar) && j < |pieces|
    ensures HasNoUpper(pieces[j])
  {
    // Upper-case ASCII letters are word characters and never separators, so
    // they would have to come from s; none is there.
    forall k | 0 <= k < |pieces[j]| ensures !('A' <= pieces[j][k] <= 'Z') {
      PieceCharsFromSource(s, IsNonWordChar, j, k);
    }
  }

  /** Every character of a piece of `SplitRuns(s, _)` is a character of `s`. */
  lemma {:induction false} PieceCharsFromSource(s: string, isSep: char -> bool, j: nat, k: nat)
    requires j < |SplitRuns(s, isSep)| && k < |SplitRuns(s, isSep)[j]|
    ensures SplitRuns(s, isSep)[j][k] in s
    decreases |s|
  {
    var r := SplitRuns(s, isSep);
    if s == [] {
    } else if isSep(s[0]) {
      var e := RunEnd(s, 0, isSep);
      if j > 0 {
        PieceCharsFromSource(s[e..], isSep, j - 1, k);
        InSuffix(s, e, r[j][k]);
      }
    } else {
      var rest := SplitRuns(s[1..], isSep);
      assert r[0] == [s[0]] + rest[0] && r[1..] == rest[1..];
      if j == 0 && k == 0 {
      } else if j == 0 {
        assert r[0][k] == rest[0][k - 1];
        PieceCharsFromSource(s[1..], isSep, 0, k - 1);
        InSuffix(s, 1, r[0][k]);
      } else {
        assert r[j] == rest[j];
        PieceCharsFromSource(s[1..], isSep, j, k);
        InSuffix(s, 1, r[j][k]);
      }
    }
  }

  /** Case does not matter: a text and its lower-case form have the same tokens. */
  lemma {:induction false} TokensIgnoreCase(text: string)
    ensures Tokens(Lower(text)) == Tokens(text)
  {
    LowerProperties(text);
  }

  lemma {:induction false} KeepLongAll(ws: seq<string>)
    requires forall i :: 0 <= i < |ws| ==> |ws[i]| > MinWordLength
    ensures KeepLong(ws) == ws
  {
    if ws != [] {
      KeepLongAll(ws[1..]);
    }
  }

  /** Round trip: words as the tokeniser produces them, written out with single
      spaces, tokenise back to the same words in the same order. */
  lemma {:induction false} TokensOfJoin(ws: seq<string>)
    requires forall i :: 0 <= i < |ws| ==> IsToken(ws[i])
    ensures Tokens(Join(ws, " ")) == ws
  {
    if ws == [] {
      assert Tokens(Join(ws, " ")) == KeepLong([""]) == [];
    } else {
      var s := Join(ws, " ");
      JoinHasNoUpper(ws);
      LowerOfLower(s);
      forall i | 0 <= i < |ws| ensures NoneOf(ws[i], IsNonWordChar) {
        assert AllOf(ws[i], IsWordChar);
      }
      SplitRunsJoin(ws, ' ', IsNonWordChar);
      KeepLongAll(ws);
    }
  }

  lemma {:induction false} JoinHasNoUpper(ws: seq<string>)
    requires forall i :: 0 <= i < |ws| ==> HasNoUpper(ws[i])
    ensures HasNoUpper(Join(ws, " "))
  {
    if |ws| > 1 {
      JoinHasNoUpper(ws[1..]);
      var t := Join(ws[1..], " ");
      assert Join(ws, " ") == ws[0] + " " + t;
      forall k | 0 <= k < |Join(ws, " ")| ensures !('A' <= Join(ws, " ")[k] <= 'Z') {
        if k < |ws[0]| { assert Join(ws, " ")[k] == ws[0][k]; }
        else if k > |ws[0]| { assert Join(ws, " ")[k] == t[k - |ws[0]| - 1]; }
      }
    }
  }

  /** Short and empty texts have no tokens. */
  lemma {:induction false} NoTokens()
    ensures Tokens("") == []
    ensures Tokens("a an of") == []
  {
    var e := Lower("");
    assert e == "";
    assert SplitRuns(e, IsNonWordChar) == [""];
    assert KeepLong([""]) == [];
    ShortWordsSplit();
    ShortWordsLower();
    var ws := ["a", "an", "of"];
    assert KeepLong(ws[2..]) == [];
    assert KeepLong(ws[1..]) == [];
    assert KeepLong(ws) == [];
  }

  lemma {:induction false} ShortWordsLower()
    ensures Lower("a an of") == "a an of"
  {
    assert HasNoUpper("a an of");
    LowerOfLower("a an of");
  }

  lemma {:induction false} ShortWordsSplit()
    ensures SplitRuns("a an of", IsNonWordChar) == ["a", "an", "of"]
  {
    var ws := ["a", "an", "of"];
    assert Join(ws, [' ']) == "a an of" by {
      assert Join(ws[2..], [' ']) == "of";
      assert Join(ws[1..], [' ']) == "an" + [' '] + "of";
    }
    forall i | 0 <= i < |ws| ensures NoneOf(ws[i], IsNonWordChar) {
    }
    SplitRunsJoin(ws, ' ', IsNonWordChar);
  }

  // ---------------------------------------------------------------------------
  // Counting

  function Occurrences(ws: seq<string>, w: string): nat {
    multiset(ws)[w]
  }

  /** The distinct words of `ws` in order of first appearance: the keys of the
      count dictionary in the order they were created. */
  function Distinct(ws: seq<string>): (d: seq<string>)
    ensures forall w :: w in d <==> w in ws
    ensures forall i, j :: 0 <= i < j < |d| ==> d[i] != d[j]
  {
    if ws == [] then []
    else
      var p := Distinct(ws[..|ws| - 1]);
      var w := ws[|ws| - 1];
      assert ws == ws[..|ws| - 1] + [w];
      if w in p then p else p + [w]
  }

  /** The count of each key in `ws`. */
  function CountsFor(keys: seq<string>, ws: seq<string>): (c: seq<nat>)
    ensures |c| == |keys|
    ensures forall i :: 0 <= i < |keys| ==> c[i] == Occurrences(ws, keys[i])
  {
    if keys == [] then [] else [Occurrences(ws, keys[0])] + CountsFor(keys[1..], ws)
  }

  /** The count of each distinct word: the values of the count dictionary. */
  function CountsOf(ws: seq<string>): seq<nat> {
    CountsFor(Distinct(ws), ws)
  }

  function NatKey(n: nat): real {
    n as real
  }

  /** The vector of `text`, stated on the counts alone: all the counts
      largest first, cut at `MaxDimensions`. */
  function Embedding(text: string): seq<nat> {
    Slice(SortDesc(CountsOf(Tokens(text)), NatKey), MaxDimensions)
  }

  lemma {:induction false} DistinctSnoc(ws: seq<string>, w: string)
    ensures Distinct(ws + [w]) == if w in ws then Distinct(ws) else Distinct(ws) + [w]
  {
    assert (ws + [w])[..|ws|] == ws;
  }

  /** Where `w` first occurs in `ws`. */
  function FirstIndex(ws: seq<string>, w: string): (i: nat)
    requires w in ws
    ensures i < |ws| && ws[i] == w && w !in ws[..i]
  {
    if ws[0] == w then 0
    else
      var i := 1 + FirstIndex(ws[1..], w);
      assert ws[..i] == [ws[0]] + ws[1..][..i - 1];
      i
  }

  /** A first occurrence is the only one with no earlier copy. */
  lemma {:induction false} FirstIndexIs(ws: seq<string>, w: string, i: nat)
    requires i < |ws| && ws[i] == w && w !in ws[..i]
    ensures FirstIndex(ws, w) == i
  {
  }

  /** An extended list keeps the first occurrences of the old one. */
  lemma {:induction false} FirstIndexSnoc(ws: seq<string>, w: string, v: string)
    requires v in ws
    ensures FirstIndex(ws + [w], v) == FirstIndex(ws, v)
  {
    var i := FirstIndex(ws, v);
    assert (ws + [w])[..i] == ws[..i];
    FirstIndexIs(ws + [w], v, i);
  }

  /** The keys are in order of first appearance. */
  lemma {:induction false} DistinctInFirstAppearanceOrder(ws: seq<string>)
    ensures forall i, j :: 0 <= i < j < |Distinct(ws)| ==>
      FirstIndex(ws, Distinct(ws)[i]) < FirstIndex(ws, Distinct(ws)[j])
  {
    if ws != [] {
      var init, w := ws[..|ws| - 1], ws[|ws| - 1];
      assert ws == init + [w];
      DistinctInFirstAppearanceOrder(init);
      DistinctSnoc(init, w);
      var p := Distinct(init);
      forall v | v in init ensures FirstIndex(ws, v) == FirstIndex(init, v) {
        FirstIndexSnoc(init, w, v);
      }
      if w !in init {
        assert ws[..|init|] == init;
        FirstIndexIs(ws, w, |init|);
        forall i, j | 0 <= i < j < |Distinct(ws)|
          ensures FirstIndex(ws, Distinct(ws)[i]) < FirstIndex(ws, Distinct(ws)[j])
        {
          assert Distinct(ws)[i] == p[i] && p[i] in init;
          if j < |p| {
            assert Distinct(ws)[j] == p[j];
          }
        }
      }
    }
  }

  lemma {:induction false} OccurrencesSnoc(ws: seq<string>, w: string)
    ensures forall v :: Occurrences(ws + [w], v) == Occurrences(ws, v) + (if v == w then 1 else 0)
  {
    assert multiset(ws + [w]) == multiset(ws) + multiset{w};
  }

  /** The dictionary and its key order after counting `ws`. */
  ghost predicate Counted(ws: seq<string>, wordCount: map<string, nat>, keys: seq<string>) {
    keys == Distinct(ws)
    && (forall w :: w in wordCount <==> w in ws)
    && (forall w :: w in wordCount ==> wordCount[w] == Occurrences(ws, w))
  }

  /** Counting one more word: bump its count, or create it at 1 and append
      it to the key order. */
  function Bump(wordCount: map<string, nat>, w: string): map<string, nat> {
    wordCount[w := (if w in wordCount then wordCount[w] else 0) + 1]
  }

  lemma {:induction false} CountStep(ws: seq<string>, w: string, wordCount: map<string, nat>, keys: seq<string>)
    requires Counted(ws, wordCount, keys)
    ensures Counted(ws + [w], Bump(wordCount, w), if w in wordCount then keys else keys + [w])
  {
    DistinctSnoc(ws, w);
    OccurrencesSnoc(ws, w);
  }

  /** Counts every word of `words` in a dictionary, remembering the order in
      which keys were created (the `forEach` of line 9). */
  method CountWords(words: seq<string>) returns (wordCount: map<string, nat>, keys: seq<string>)
    ensures keys == Distinct(words)
    ensures forall w :: w in wordCount <==> w in words
    ensures forall w :: w in wordCount ==> wordCount[w] == Occurrences(words, w)
  {
    wordCount, keys := map[], [];
    var i := 0;
    while i < |words|
      invariant 0 <= i <= |words|
      invariant Counted(words[..i], wordCount, keys)
    {
      var word := words[i];
      PrefixSnoc(words, i);
      CountStep(words[..i], word, wordCount, keys);
      if word !in wordCount {
        keys := keys + [word];
      }
      wordCount := Bump(wordCount, word);
      i := i + 1;
    }
    assert words[..|words|] == words;
  }

  /** `generateEmbedding`: counts the tokens, sorts the keys by count
      (largest first), keeps 100 keys and maps each to its count. */
  method GenerateEmbedding(text: string) returns (vector: seq<nat>)
    ensures vector == Embedding(text)
  {
    var words := Tokens(text);
    var wordCount, keys := CountWords(words);
    var countOf := (w: string) => if w in wordCount then wordCount[w] else 0;
    var byCount := (w: string) => NatKey(countOf(w));
    var sortedWords := Slice(SortDesc(keys, byCount), MaxDimensions);
    vector := Map(countOf, sortedWords);
    CountsByLookup(words, wordCount, keys, countOf, byCount);
  }

  /** The proof step of `GenerateEmbedding`: sorting the keys by their counts
      and reading the counts off equals sorting the counts. */
  lemma {:induction false} CountsByLookup(words: seq<string>, wordCount: map<string, nat>, keys: seq<string>,
                       countOf: string -> nat, byCount: string -> real)
    requires keys == Distinct(words)
    requires forall w :: w in wordCount ==> wordCount[w] == Occurrences(words, w)
    requires forall w :: w in wordCount <==> w in words
    requires forall w :: countOf(w) == if w in wordCount then wordCount[w] else 0
    requires forall w :: byCount(w) == NatKey(countOf(w))
    ensures Map(countOf, Slice(SortDesc(keys, byCount), MaxDimensions))
         == Slice(SortDesc(CountsOf(words), NatKey), MaxDimensions)
  {
    MapSortDesc(countOf, keys, byCount, NatKey);
    LookupIsCounts(words, wordCount, keys, countOf);
    var full := SortDesc(keys, byCount);
    assert |full| == |multiset(full)| == |multiset(keys)| == |keys|;
    MapPrefix(countOf, full, SliceEnd(|full|, MaxDimensions));
  }

  lemma {:induction false} LookupIsCounts(words: seq<string>, wordCount: map<string, nat>, keys: seq<string>,
                       countOf: string -> nat)
    requires keys == Distinct(words)
    requires forall w :: w in wordCount ==> wordCount[w] == Occurrences(words, w)
    requires forall w :: w in wordCount <==> w in words
    requires forall w :: countOf(w) == if w in wordCount then wordCount[w] else 0
    ensures Map(countOf, keys) == CountsOf(words)
  {
    forall i | 0 <= i < |keys| ensures Map(countOf, keys)[i] == CountsOf(words)[i] {
      assert keys[i] in words;
    }
  }

  // ---------------------------------------------------------------------------
  // Properties of the vector

  /** There is one entry per distinct token, up to 100. */
  lemma {:induction false} EmbeddingLength(text: string)
    ensures |Embedding(text)| == if |Distinct(Tokens(text))| < MaxDimensions then |Distinct(Tokens(text))| else MaxDimensions
  {
    var c := CountsOf(Tokens(text));
    assert |SortDesc(c, NatKey)| == |multiset(SortDesc(c, NatKey))| == |multiset(c)| == |c|;
  }

  /** Every count in the vector is at least 1: the `|| 0` fallback of line 15
      is never taken. */
  lemma {:induction false} EmbeddingPositive(text: string)
    ensures forall i :: 0 <= i < |Embedding(text)| ==> Embedding(text)[i] >= 1
  {
    CountsPositive(Tokens(text));
    SortedSlicePositive(CountsOf(Tokens(text)));
  }

  lemma {:induction false} SortedSlicePositive(c: seq<nat>)
    requires forall j :: 0 <= j < |c| ==> c[j] >= 1
    ensures forall i :: 0 <= i < |Slice(SortDesc(c, NatKey), MaxDimensions)| ==> Slice(SortDesc(c, NatKey), MaxDimensions)[i] >= 1
  {
    var sorted := SortDesc(c, NatKey);
    forall i | 0 <= i < |sorted| ensures sorted[i] >= 1 {
      var j := InMultiset(sorted[i], c);
    }
  }

  /** Every distinct word occurs at least once. */
  lemma {:induction false} CountsPositive(ws: seq<string>)
    ensures forall j :: 0 <= j < |CountsOf(ws)| ==> CountsOf(ws)[j] >= 1
  {
    var d := Distinct(ws);
    forall j | 0 <= j < |d| ensures CountsOf(ws)[j] >= 1 {
      assert d[j] in ws;
      assert d[j] in multiset(ws);
    }
  }

  /** The vector never increases. */
  lemma {:induction false} EmbeddingNonIncreasing(text: string)
    ensures SortedDesc(Embedding(text), NatKey)
  {
    var sorted := SortDesc(CountsOf(Tokens(text)), NatKey);
    SortedPrefix(sorted, SliceEnd(|sorted|, MaxDimensions), NatKey);
  }

  /** Two non-increasing lists of counts with the same elements are equal. */
  lemma {:induction false} SortedCountsUnique(a: seq<nat>, b: seq<nat>)
    requires SortedDesc(a, NatKey) && SortedDesc(b, NatKey)
    requires multiset(a) == multiset(b)
    ensures a == b
    decreases |a|
  {
    assert |a| == |multiset(a)| == |multiset(b)| == |b|;
    if a != [] {
      var top := SortedHead(a, b);
      MultisetTail(a);
      MultisetTail(b);
      SortedTail(a, NatKey);
      SortedTail(b, NatKey);
      SortedCountsUnique(a[1..], b[1..]);
      HeadTail(a);
      HeadTail(b);
    }
  }

  /** Sorted lists with the same elements start with the same element. */
  lemma {:induction false} SortedHead(a: seq<nat>, b: seq<nat>) returns (top: nat)
    requires SortedDesc(a, NatKey) && SortedDesc(b, NatKey)
    requires multiset(a) == multiset(b) && a != []
    ensures b != [] && a[0] == b[0] == top
  {
    var i := InMultiset(a[0], b);
    var j := InMultiset(b[0], a);
    if j > 0 { assert NatKey(a[0]) >= NatKey(a[j]); }
    if i > 0 { assert NatKey(b[0]) >= NatKey(b[i]); }
    top := a[0];
  }

  /** The vector depends only on the multiset of word counts, not on which
      words they are: texts whose counts agree as multisets have equal vectors. */
  lemma {:induction false} EmbeddingDependsOnlyOnCounts(t1: string, t2: string)
    requires multiset(CountsOf(Tokens(t1))) == multiset(CountsOf(Tokens(t2)))
    ensures Embedding(t1) == Embedding(t2)
  {
    SortedCountsUnique(SortDesc(CountsOf(Tokens(t1)), NatKey), SortDesc(CountsOf(Tokens(t2)), NatKey));
  }

  /** `CountIn(ws)(w)` is the number of times `w` occurs in `ws`. */
  function CountIn(ws: seq<string>): string -> nat {
    w => Occurrences(ws, w)
  }

  lemma {:induction false} CountsForPermutation(keys: seq<string>, keys': seq<string>, ws: seq<string>)
    requires multiset(keys) == multiset(keys')
    ensures multiset(CountsFor(keys, ws)) == multiset(CountsFor(keys', ws))
  {
    MapPermutation(CountIn(ws), keys, keys');
    assert CountsFor(keys, ws) == Map(CountIn(ws), keys);
    assert CountsFor(keys', ws) == Map(CountIn(ws), keys');
  }

  /** The order of tied words never shows: whatever order the dictionary's
      keys come in, and whichever way a sort by count arranges words of equal
      count, the first 100 counts are the vector. */
  lemma {:induction false} AnyKeyOrderGivesEmbedding(text: string, sortedKeys: seq<string>)
    requires multiset(sortedKeys) == multiset(Distinct(Tokens(text)))
    requires forall i, j :: 0 <= i < j < |sortedKeys| ==>
               Occurrences(Tokens(text), sortedKeys[i]) >= Occurrences(Tokens(text), sortedKeys[j])
    ensures Slice(CountsFor(sortedKeys, Tokens(text)), MaxDimensions) == Embedding(text)
  {
    var ws := Tokens(text);
    CountsForPermutation(sortedKeys, Distinct(ws), ws);
    SortedCountsUnique(CountsFor(sortedKeys, ws), SortDesc(CountsOf(ws), NatKey));
  }

  function Sum(s: seq<nat>): nat {
    if s == [] then 0 else s[0] + Sum(s[1..])
  }

  lemma {:induction false} SumAppend(a: seq<nat>, b: seq<nat>)
    ensures Sum(a + b) == Sum(a) + Sum(b)
  {
    if a == [] {
      assert a + b == b;
    } else {
      assert (a + b)[1..] == a[1..] + b;
      SumAppend(a[1..], b);
    }
  }

  lemma {:induction false} SumRemoveAt(s: seq<nat>, j: nat)
    requires j < |s|
    ensures Sum(s) == s[j] + Sum(s[..j] + s[j + 1..])
  {
    assert s == s[..j] + ([s[j]] + s[j + 1..]);
    SumAppend(s[..j], [s[j]] + s[j + 1..]);
    SumAppend(s[..j], s[j + 1..]);
  }

  lemma {:induction false} SumPermutation(a: seq<nat>, b: seq<nat>)
    requires multiset(a) == multiset(b)
    ensures Sum(a) == Sum(b)
    decreases |a|
  {
    if a != [] {
      var j := InMultiset(a[0], b);
      var rest := b[..j] + b[j + 1..];
      MultisetRemoveAt(b, j);
      MultisetTail(a);
      SumPermutation(a[1..], rest);
      SumRemoveAt(b, j);
    }
  }

  /** Counting in one more occurrence of a key present once in `keys` adds one
      to the total. */
  lemma {:induction false} CountsForBump(keys: seq<string>, ws: seq<string>, w: string)
    requires forall i, j :: 0 <= i < j < |keys| ==> keys[i] != keys[j]
    ensures Sum(CountsFor(keys, ws + [w])) == Sum(CountsFor(keys, ws)) + (if w in keys then 1 else 0)
  {
    if keys != [] {
      assert multiset(ws + [w]) == multiset(ws) + multiset{w};
      assert w in keys[1..] ==> keys[0] != w by {
        if w in keys[1..] {
          var j :| 0 <= j < |keys[1..]| && keys[1..][j] == w;
          assert keys[j + 1] == w;
        }
      }
      assert w in keys <==> (keys[0] == w || w in keys[1..]);
      CountsForBump(keys[1..], ws, w);
    }
  }

  /** Each token is counted exactly once: the counts add up to the number of tokens. */
  lemma {:induction false} CountsSum(ws: seq<string>)
    ensures Sum(CountsOf(ws)) == |ws|
    decreases |ws|
  {
    if ws != [] {
      var init, w := ws[..|ws| - 1], ws[|ws| - 1];
      InitLast(ws);
      CountsSum(init);
      CountsForBump(Distinct(init), init, w);
      if w !in Distinct(init) {
        var d := Distinct(init);
        assert Distinct(ws) == d + [w];
        assert CountsFor(d + [w], ws) == CountsFor(d, ws) + [Occurrences(ws, w)];
        SumAppend(CountsFor(d, ws), [Occurrences(ws, w)]);
        assert Occurrences(ws, w) == 1;
      }
    }
  }

  lemma {:induction false} SumPrefix(s: seq<nat>, n: nat)
    requires n <= |s|
    ensures Sum(s[..n]) <= Sum(s)
  {
    assert s == s[..n] + s[n..];
    SumAppend(s[..n], s[n..]);
  }

  /** The entries add up to at most the number of tokens, and to exactly that
      number when there are at most 100 distinct tokens. */
  lemma {:induction false} EmbeddingSum(text: string)
    ensures Sum(Embedding(text)) <= |Tokens(text)|
    ensures |Distinct(Tokens(text))| <= MaxDimensions ==> Sum(Embedding(text)) == |Tokens(text)|
  {
    var ws := Tokens(text);
    var sorted := SortDesc(CountsOf(ws), NatKey);
    CountsSum(ws);
    SumPermutation(sorted, CountsOf(ws));
    SumPrefix(sorted, SliceEnd(|sorted|, MaxDimensions));
    assert |sorted| == |multiset(sorted)| == |multiset(CountsOf(ws))| == |Distinct(ws)|;
    assert |Distinct(ws)| <= MaxDimensions ==> sorted[..SliceEnd(|sorted|, MaxDimensions)] == sorted;
  }

  /** An empty or short-word text has the empty vector. */
  lemma {:induction false} EmbeddingOfShortText()
    ensures Embedding("") == []
    ensures Embedding("a an of") == []
  {
    NoTokens();
  }

  // ---------------------------------------------------------------------------
  // Cosine similarity

  function Abs(x: int): nat {
    if x < 0 then -x else x
  }

  /** `v[i] || 0`: a missing entry reads as 0. */
  function At(v: seq<int>, i: nat): int {
    if i < |v| then v[i] else 0
  }

  /** `vecA.reduce((sum, a, i) => sum + a * (vecB[i] || 0), 0)`. */
  function Dot(a: seq<int>, b: seq<int>): int {
    if a == [] then 0 else Dot(a[..|a| - 1], b) + a[|a| - 1] * At(b, |a| - 1)
  }

  /** `v.reduce((sum, x) => sum + x * x, 0)`: the squared norm. */
  function SumSquares(a: seq<int>): (r: int)
    ensures r >= 0
  {
    if a == [] then 0 else SumSquares(a[..|a| - 1]) + a[|a| - 1] * a[|a| - 1]
  }

  /** The similarity of two vectors, kept exact: `Zero` when a norm is 0,
      otherwise `Ratio(d, p)` standing for `d / sqrt(p)` where `d` is the dot
      product and `p` the product of the squared norms. */
  datatype Similarity = Zero | Ratio(dot: int, normProduct: int)

  /** `v` is the real number a similarity stands for. */
  ghost predicate HasValue(s: Similarity, v: real) {
    match s
    case Zero => v == 0.0
    case Ratio(d, p) => p > 0 && v * v * (p as real) == (d * d) as real && (v >= 0.0 <==> d >= 0)
  }

  /** `v * |v|` of the value, a strictly increasing image of it: ranking by
      this key ranks by the similarity (see `SignedSquareOrder`). */
  function SignedSquare(s: Similarity): real {
    match s
    case Zero => 0.0
    case Ratio(d, p) => if p > 0 then (d * Abs(d)) as real / (p as real) else 0.0
  }

  /** `cosineSimilarity`: 0 when either squared norm is 0 (so there is never a
      division by zero), otherwise dot / (normA * normB). The dot product's
      square never exceeds the product of the squared norms, so the value
      lies in [-1, 1]. */
  function CosineSimilarity(a: seq<int>, b: seq<int>): (s: Similarity)
    ensures s.Zero? <==> SumSquares(a) == 0 || SumSquares(b) == 0
    ensures s.Ratio? ==> s.normProduct > 0 && s.dot * s.dot <= s.normProduct
  {
    var na, nb := SumSquares(a), SumSquares(b);
    if na == 0 || nb == 0 then Zero
    else
      CauchySchwarz(a, b);
      Ratio(Dot(a, b), na * nb)
  }

  /** The sum of `At(a, i) * At(b, i)` over `i < n`. */
  function DotN(a: seq<int>, b: seq<int>, n: nat): int {
    if n == 0 then 0 else DotN(a, b, n - 1) + At(a, n - 1) * At(b, n - 1)
  }

  lemma {:induction false} DotNAgree(a: seq<int>, b: seq<int>, a': seq<int>, b': seq<int>, n: nat)
    requires forall i :: 0 <= i < n ==> At(a, i) == At(a', i) && At(b, i) == At(b', i)
    ensures DotN(a, b, n) == DotN(a', b', n)
  {
    if n > 0 {
      DotNAgree(a, b, a', b', n - 1);
    }
  }

  lemma {:induction false} DotNSymmetric(a: seq<int>, b: seq<int>, n: nat)
    ensures DotN(a, b, n) == DotN(b, a, n)
  {
    if n > 0 {
      DotNSymmetric(a, b, n - 1);
    }
  }

  /** Past the shorter vector every term is 0. */
  lemma {:induction false} DotNTail(a: seq<int>, b: seq<int>, m: nat, n: nat)
    requires m <= n && (m >= |a| || m >= |b|)
    ensures DotN(a, b, n) == DotN(a, b, m)
    decreases n
  {
    if n > m {
      DotNTail(a, b, m, n - 1);
      assert At(a, n - 1) == 0 || At(b, n - 1) == 0;
    }
  }

  lemma {:induction false} DotIsDotN(a: seq<int>, b: seq<int>)
    ensures Dot(a, b) == DotN(a, b, |a|)
  {
    if a != [] {
      var init := a[..|a| - 1];
      DotIsDotN(init, b);
      DotNAgree(init, b, a, b, |a| - 1);
    }
  }

  /** The dot product ranges over the indices the two vectors share. */
  lemma {:induction false} DotOverCommonPrefix(a: seq<int>, b: seq<int>)
    ensures var m := if |a| < |b| then |a| else |b|;
            Dot(a, b) == Dot(a[..m], b[..m])
  {
    var m := if |a| < |b| then |a| else |b|;
    DotIsDotN(a, b);
    DotIsDotN(a[..m], b[..m]);
    DotNTail(a, b, m, |a|);
    DotNAgree(a, b, a[..m], b[..m], m);
  }

  /** The dot product is symmetric even for vectors of different lengths. */
  lemma {:induction false} DotSymmetric(a: seq<int>, b: seq<int>)
    ensures Dot(a, b) == Dot(b, a)
  {
    var n := if |a| < |b| then |b| else |a|;
    DotIsDotN(a, b);
    DotIsDotN(b, a);
    DotNTail(a, b, |a|, n);
    DotNTail(b, a, |b|, n);
    DotNSymmetric(a, b, n);
  }

  /** The sum of `At(a, i)^2` over `i < n`. */
  function SquaresN(a: seq<int>, n: nat): int {
    if n == 0 then 0 else SquaresN(a, n - 1) + At(a, n - 1) * At(a, n - 1)
  }

  lemma {:induction false} SquaresNIsSumSquares(a: seq<int>, n: nat)
    requires n >= |a|
    ensures SquaresN(a, n) == SumSquares(a)
    decreases n
  {
    if n > |a| {
      SquaresNIsSumSquares(a, n - 1);
    } else if a != [] {
      var init := a[..|a| - 1];
      SquaresNIsSumSquares(init, n - 1);
      SquaresNAgree(a, init, n - 1);
    }
  }

  lemma {:induction false} SquaresNAgree(a: seq<int>, a': seq<int>, n: nat)
    requires forall i :: 0 <= i < n ==> At(a, i) == At(a', i)
    ensures SquaresN(a, n) == SquaresN(a', n)
  {
    if n > 0 {
      SquaresNAgree(a, a', n - 1);
    }
  }

  lemma {:induction false} SquaresNNonNegative(a: seq<int>, n: nat)
    ensures SquaresN(a, n) >= 0
  {
    if n > 0 {
      SquaresNNonNegative(a, n - 1);
    }
  }

  /** `u*u <= v*v` and `v >= 0` give `u <= v`. */
  lemma {:induction false} SquareLe(u: int, v: int)
    requires v >= 0 && u * u <= v * v
    ensures u <= v
  {
  }

  /** One step of the Cauchy–Schwarz induction: from `D^2 <= A*B` to the same
      inequality after adding the terms of one more index. */
  lemma {:induction false} CauchySchwarzStep(A: int, B: int, D: int, x: int, y: int)
    requires A >= 0 && B >= 0 && D * D <= A * B
    ensures (D + x * y) * (D + x * y) <= (A + x * x) * (B + y * y)
  {
    assert (x * y) * (x * y) == (x * x) * (y * y);
    StepCore(A, B, D, x * x, y * y, x * y);
  }

  /** The step with the squares `X = x^2`, `Y = y^2` and the product `Z = xy`
      as variables: `2DZ <= AY + BX` because `(2DZ)^2 = 4D^2XY <= 4ABXY
      <= (AY + BX)^2`. */
  lemma {:induction false} StepCore(A: int, B: int, D: int, X: int, Y: int, Z: int)
    requires A >= 0 && B >= 0 && X >= 0 && Y >= 0 && D * D <= A * B && Z * Z == X * Y
    ensures (D + Z) * (D + Z) <= (A + X) * (B + Y)
  {
    var u, v := A * Y, B * X;
    MulLe(0, A, Y);
    MulLe(0, B, X);
    SquareOfSum(u, v);
    Rearrange(A, B, X, Y);
    MulLe(D * D, A * B, X * Y);
    TwiceSquare(D, Z, X * Y);
    SquareLe(2 * D * Z, u + v);
    Expand(D, Z);
    Expand2(A, B, X, Y);
  }

  lemma {:induction false} Rearrange(A: int, B: int, X: int, Y: int)
    ensures (A * Y) * (B * X) == (A * B) * (X * Y)
  {
  }

  lemma {:induction false} TwiceSquare(D: int, Z: int, Q: int)
    requires Z * Z == Q
    ensures (2 * D * Z) * (2 * D * Z) == 4 * ((D * D) * Q)
  {
  }

  lemma {:induction false} Expand(D: int, Z: int)
    ensures (D + Z) * (D + Z) == D * D + 2 * D * Z + Z * Z
  {
  }

  lemma {:induction false} Expand2(A: int, B: int, X: int, Y: int)
    ensures (A + X) * (B + Y) == A * B + (A * Y + B * X) + X * Y
  {
  }

  lemma {:induction false} SquareOfSum(u: int, v: int)
    ensures (u + v) * (u + v) == 4 * (u * v) + (u - v) * (u - v)
    ensures (u - v) * (u - v) >= 0
  {
  }

  lemma {:induction false} MulLe(a: int, b: int, c: int)
    requires a <= b && c >= 0
    ensures a * c <= b * c
  {
  }

  lemma {:induction false} CauchySchwarzN(a: seq<int>, b: seq<int>, n: nat)
    ensures DotN(a, b, n) * DotN(a, b, n) <= SquaresN(a, n) * SquaresN(b, n)
  {
    if n > 0 {
      CauchySchwarzN(a, b, n - 1);
      SquaresNNonNegative(a, n - 1);
      SquaresNNonNegative(b, n - 1);
      CauchySchwarzStep(SquaresN(a, n - 1), SquaresN(b, n - 1), DotN(a, b, n - 1), At(a, n - 1), At(b, n - 1));
    }
  }

  /** The Cauchy–Schwarz inequality for the dot product as computed. */
  lemma {:induction false} CauchySchwarz(a: seq<int>, b: seq<int>)
    ensures Dot(a, b) * Dot(a, b) <= SumSquares(a) * SumSquares(b)
  {
    var n := if |a| < |b| then |b| else |a|;
    DotIsDotN(a, b);
    DotNTail(a, b, |a|, n);
    CauchySchwarzN(a, b, n);
    SquaresNIsSumSquares(a, n);
    SquaresNIsSumSquares(b, n);
  }

  /** Similarity is symmetric. */
  lemma {:induction false} CosineSymmetric(a: seq<int>, b: seq<int>)
    ensures CosineSimilarity(a, b) == CosineSimilarity(b, a)
  {
    DotSymmetric(a, b);
  }

  /** A non-zero vector has similarity exactly 1 with itself. */
  lemma {:induction false} CosineSelf(a: seq<int>)
    requires SumSquares(a) > 0
    ensures HasValue(CosineSimilarity(a, a), 1.0)
    ensures SignedSquare(CosineSimilarity(a, a)) == 1.0
  {
    var n := SumSquares(a);
    assert Dot(a, a) == n by { DotIsSquares(a); }
    assert (n * n) as real == (n as real) * (n as real);
  }

  lemma {:induction false} DotIsSquares(a: seq<int>)
    ensures Dot(a, a) == SumSquares(a)
  {
    if a != [] {
      var init := a[..|a| - 1];
      DotIsSquares(init);
      DotIsDotN(init, a);
      DotIsDotN(init, init);
      DotNAgree(init, a, init, init, |init|);
    }
  }

  /** The guard: a vector with zero norm has similarity 0 with anything. */
  lemma {:induction false} CosineZeroNorm(a: seq<int>, b: seq<int>)
    requires SumSquares(a) == 0 || SumSquares(b) == 0
    ensures HasValue(CosineSimilarity(a, b), 0.0)
  {
  }

  /** Count vectors have non-negative entries, so their similarity is at least 0. */
  lemma {:induction false} CosineOfCountsNonNegative(a: seq<int>, b: seq<int>)
    requires forall i :: 0 <= i < |a| ==> a[i] >= 0
    requires forall i :: 0 <= i < |b| ==> b[i] >= 0
    ensures SignedSquare(CosineSimilarity(a, b)) >= 0.0
  {
    DotNonNegative(a, b);
  }

  lemma {:induction false} DotNonNegative(a: seq<int>, b: seq<int>)
    requires forall i :: 0 <= i < |a| ==> a[i] >= 0
    requires forall i :: 0 <= i < |b| ==> b[i] >= 0
    ensures Dot(a, b) >= 0
  {
    if a != [] {
      DotNonNegative(a[..|a| - 1], b);
      assert a[|a| - 1] * At(b, |a| - 1) >= 0;
    }
  }

  /** Every similarity stands for a value in [-1, 1]. */
  lemma {:induction false} CosineBounded(a: seq<int>, b: seq<int>, v: real)
    requires HasValue(CosineSimilarity(a, b), v)
    ensures -1.0 <= v <= 1.0
  {
    var s := CosineSimilarity(a, b);
    if s.Ratio? {
      RatioBounded(s.dot, s.normProduct, v);
    }
  }

  lemma {:induction false} RatioBounded(d: int, p: int, v: real)
    requires HasValue(Ratio(d, p), v) && d * d <= p
    ensures -1.0 <= v <= 1.0
  {
    var pr := p as real;
    var ddr := (d * d) as real;
    var q := v * v;
    UnitSquare(q, pr, ddr);
    UnitFromSquare(v);
  }

  lemma {:induction false} UnitSquare(q: real, p: real, x: real)
    requires p > 0.0 && q * p == x && x <= p
    ensures q <= 1.0
  {
  }

  lemma {:induction false} UnitFromSquare(v: real)
    requires v * v <= 1.0
    ensures -1.0 <= v <= 1.0
  {
  }

  /** `SignedSquare` is `v * |v|` of the value `v`. */
  lemma {:induction false} SignedSquareOfValue(s: Similarity, v: real)
    requires HasValue(s, v)
    ensures SignedSquare(s) == v * (if v < 0.0 then -v else v)
  {
    if s.Ratio? {
      var d, p := s.dot, s.normProduct;
      var pr := p as real;
      assert (d * Abs(d)) as real == (d as real) * (Abs(d) as real);
      assert (d * d) as real == (d as real) * (d as real);
      if d >= 0 {
        assert SignedSquare(s) == (d * d) as real / pr;
      } else {
        assert SignedSquare(s) == -((d * d) as real) / pr;
      }
    }
  }

  /** `x * |x|` is strictly increasing on the reals. */
  lemma {:induction false} SignedSquareMonotone(x: real, y: real)
    ensures x <= y <==> x * (if x < 0.0 then -x else x) <= y * (if y < 0.0 then -y else y)
  {
    if 0.0 <= x <= y {
      assert x * x <= x * y <= y * y;
    } else if x <= y <= 0.0 {
      assert (-y) * (-y) <= (-x) * (-y) <= (-x) * (-x);
    } else if 0.0 <= y < x {
      assert y * y <= y * x < x * x;
    } else if y < x <= 0.0 {
      assert (-x) * (-x) <= (-y) * (-x) < (-y) * (-y);
    }
  }

  /** Ranking by `SignedSquare` ranks by the similarity values themselves. */
  lemma {:induction false} SignedSquareOrder(s: Similarity, t: Similarity, v: real, w: real)
    requires HasValue(s, v) && HasValue(t, w)
    ensures v <= w <==> SignedSquare(s) <= SignedSquare(t)
  {
    SignedSquareOfValue(s, v);
    SignedSquareOfValue(t, w);
    SignedSquareMonotone(v, w);
  }
}
