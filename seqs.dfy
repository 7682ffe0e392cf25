/** Small facts about sequences that the proofs elsewhere use by name. */
module Seqs {
  /** A prefix one longer is the prefix and the next element. */
  lemma {:induction false} PrefixSnoc<T>(s: seq<T>, n: nat)
    requires n < |s|
    ensures s[..n + 1] == s[..n] + [s[n]]
  {
  }

  /** A prefix splits at any point inside it. */
  lemma {:induction false} PrefixSplit<T>(s: seq<T>, a: nat, b: nat)
    requires a <= b <= |s|
    ensures s[..b] == s[..a] + s[a..b]
  {
  }

  /** Dropping the first element of a concatenation whose left part is not
      empty. */
  lemma {:induction false} DropFirst<T>(a: seq<T>, b: seq<T>)
    requires a != []
    ensures (a + b)[1..] == a[1..] + b
  {
  }

  lemma {:induction false} HeadTail<T>(a: seq<T>)
    requires a != []
    ensures [a[0]] + a[1..] == a
  {
  }

  /** A non-empty sequence is its front and its last element. */
  lemma {:induction false} InitLast<T>(s: seq<T>)
    requires s != []
    ensures s == s[..|s| - 1] + [s[|s| - 1]]
  {
  }

  /** Two appends in a row append the pair. */
  lemma {:induction false} AppendPair<T>(s: seq<T>, x: T, y: T)
    ensures s + [x] + [y] == s + [x, y]
  {
  }

  /** Concatenation regrouped, for sequences known by other names. */
  lemma {:induction false} Reassociate<T>(a: seq<T>, b: seq<T>, c: seq<T>, l: seq<T>, r: seq<T>)
    requires l == a + (b + c) && r == a + b
    ensures l == r + c
  {
  }

  lemma {:induction false} EmptyLeft<T>(s: seq<T>)
    ensures [] + s == s
  {
  }

  /** What is in a suffix is in the whole sequence. */
  lemma {:induction false} InSuffix<T>(s: seq<T>, e: nat, x: T)
    requires e <= |s| && x in s[e..]
    ensures x in s
  {
    var m :| 0 <= m < |s[e..]| && s[e..][m] == x;
    assert s[e + m] == x;
  }

}
