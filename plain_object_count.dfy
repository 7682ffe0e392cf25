/** The word count of `generateEmbedding` as the code writes it
    (backend/utils/embeddings.js, lines 7-11): the dictionary is a plain
    object literal `{}`, so a lookup of a key it does not own falls through
    to `Object.prototype`, and an assignment to `__proto__` goes to that
    prototype's setter. Tokens are lower-case, and the only lower-case names
    `Object.prototype` answers to are `constructor` and `__proto__`; for
    every other token this count agrees with `Embeddings.CountWords`. */
module PlainObjectCount {
  import opened Text
  import opened Sorting
  import opened Seqs
  import opened Embeddings

  /** What a property read on the dictionary can produce. */
  datatype JsValue =
    | Undefined
    | Num(n: nat)
    | Str(s: string)
    | NativeFunction(source: string)
    | ObjectPrototype

  /** What `String(Object)` gives: the source text of a built-in function. */
  const ObjectSource: string := "function Object() { [native code] }"

  /** `wordCount[key]`: the own property, else what `Object.prototype`
      holds under that name. `__proto__` is an accessor on the prototype, so
      it never reads an own property. */
  function Get(own: map<string, JsValue>, key: string): JsValue {
    if key == "__proto__" then ObjectPrototype
    else if key in own then own[key]
    else if key == "constructor" then NativeFunction(ObjectSource)
    else Undefined
  }

  /** `(v || 0) + 1`: falsy values count as 0; `+` on anything that is not a
      number converts both sides to strings and concatenates. */
  function Increment(v: JsValue): (r: JsValue)
    ensures r != ObjectPrototype
  {
    match v
    case Undefined => Num(1)
    case Num(n) => Num(n + 1)
    case Str(s) => if s == "" then Num(1) else Str(s + "1")
    case NativeFunction(src) => Str(src + "1")
    case ObjectPrototype => Str("[object Object]1")
  }

  /** The dictionary with its own keys in creation order (`Object.keys`). */
  datatype Dict = Dict(own: map<string, JsValue>, keys: seq<string>)

  /** `wordCount[key] = v`. Assigning a value that is not an object to
      `__proto__` is ignored by the prototype's setter; any other key becomes
      an own property, appended to the key order when new. */
  function Put(d: Dict, key: string, v: JsValue): Dict
    requires v != ObjectPrototype
  {
    if key == "__proto__" then d
    else Dict(d.own[key := v], if key in d.own then d.keys else d.keys + [key])
  }

  /** One turn of the `forEach`: `wordCount[word] = (wordCount[word] || 0) + 1`. */
  function Step(d: Dict, word: string): Dict {
    Put(d, word, Increment(Get(d.own, word)))
  }

  /** The dictionary after the `forEach` over `words`. */
  function CountAll(words: seq<string>): Dict {
    if words == [] then Dict(map[], [])
    else Step(CountAll(words[..|words| - 1]), words[|words| - 1])
  }

  /** The `forEach` loop of the source over a plain object. */
  method CountWordsInObject(words: seq<string>) returns (wordCount: Dict)
    ensures wordCount == CountAll(words)
  {
    wordCount := Dict(map[], []);
    var i := 0;
    while i < |words|
      invariant 0 <= i <= |words|
      invariant wordCount == CountAll(words[..i])
    {
      var word := words[i];
      PrefixSnoc(words, i);
      assert words[..i + 1][..i] == words[..i];
      wordCount := Put(wordCount, word, Increment(Get(wordCount.own, word)));
      i := i + 1;
    }
    assert words[..|words|] == words;
  }

  /** Word names `Object.prototype` answers to, once lower-cased. */
  predicate Inherited(w: string) {
    w == "constructor" || w == "__proto__"
  }

  /** Without those two names, the object count is the count: the keys are
      the distinct words in order of first appearance, and each holds the
      number of times its word occurs. */
  lemma {:induction false} AgreesOnOrdinaryWords(words: seq<string>)
    requires forall i :: 0 <= i < |words| ==> !Inherited(words[i])
    ensures CountAll(words).keys == Distinct(words)
    ensures forall w :: w in CountAll(words).own <==> w in words
    ensures forall w :: w in CountAll(words).own ==> CountAll(words).own[w] == Num(Occurrences(words, w))
  {
    if words != [] {
      var init, w := words[..|words| - 1], words[|words| - 1];
      InitLast(words);
      AgreesOnOrdinaryWords(init);
      DistinctSnoc(init, w);
      OccurrencesSnoc(init, w);
    }
  }

  /** A token on its own is its only token. */
  lemma {:induction false} SingleToken(w: string)
    requires IsToken(w)
    ensures Tokens(w) == [w]
  {
    LowerOfLower(w);
    assert NoneOf(w, IsNonWordChar);
    SplitRunsPlain(w, IsNonWordChar);
    assert KeepLong([w][1..]) == [];
  }

  /** The corrected count gives a single token the vector `[1]`. */
  lemma {:induction false} SingleTokenEmbedding(w: string)
    requires IsToken(w)
    ensures Embedding(w) == [1]
  {
    SingleToken(w);
    assert Distinct([w]) == [w] by {
      assert [w][..0] == [];
    }
    assert Occurrences([w], w) == 1 by {
      assert multiset([w]) == multiset{w};
    }
    var one: seq<nat> := [1];
    assert CountsOf([w]) == one;
    assert SortDesc(one, NatKey) == one by {
      assert one[1..] == [];
    }
  }

  /** The text `constructor` (say a resume naming a C++ skill): the count
      becomes the string of the built-in function with `1` appended, so the
      vector holds a string where `Document.create` expects a number, while
      the intended vector is `[1]`. */
  lemma {:induction false} ConstructorBecomesString()
    ensures Tokens("constructor") == ["constructor"]
    ensures CountAll(Tokens("constructor"))
         == Dict(map["constructor" := Str(ObjectSource + "1")], ["constructor"])
    ensures Embedding("constructor") == [1]
  {
    assert IsToken("constructor");
    SingleToken("constructor");
    SingleTokenEmbedding("constructor");
    FirstOccurrence("constructor");
    ConstructorStep();
  }

  /** The first `constructor` read from an empty dictionary. */
  lemma {:induction false} ConstructorStep()
    ensures Step(Dict(map[], []), "constructor")
         == Dict(map["constructor" := Str(ObjectSource + "1")], ["constructor"])
  {
    var d0 := Dict(map[], []);
    assert "constructor" != "__proto__" by {
      assert "constructor"[0] != "__proto__"[0];
    }
    assert Get(d0.own, "constructor") == NativeFunction(ObjectSource);
    var v := Str(ObjectSource + "1");
    assert Increment(NativeFunction(ObjectSource)) == v;
    assert Put(d0, "constructor", v) == Dict(map["constructor" := v], ["constructor"]);
  }

  /** Counting a single word into an empty dictionary. */
  lemma {:induction false} FirstOccurrence(w: string)
    ensures CountAll([w]) == Step(Dict(map[], []), w)
  {
    assert [w][..0] == [];
  }

  /** The text `__proto__`: the assignment is swallowed by the prototype's
      setter, so the word is not counted at all, while the intended vector is
      `[1]`. */
  lemma {:induction false} ProtoDropped()
    ensures Tokens("__proto__") == ["__proto__"]
    ensures CountAll(Tokens("__proto__")) == Dict(map[], [])
    ensures Embedding("__proto__") == [1]
  {
    assert IsToken("__proto__");
    SingleToken("__proto__");
    SingleTokenEmbedding("__proto__");
    FirstOccurrence("__proto__");
  }

  /** Once a count is a string it stays one: every later occurrence appends
      another `1`. */
  lemma {:induction false} StringCountGrows(d: Dict, s: string)
    requires "constructor" in d.own && d.own["constructor"] == Str(s) && s != ""
    ensures Step(d, "constructor").own["constructor"] == Str(s + "1")
  {
  }
}
