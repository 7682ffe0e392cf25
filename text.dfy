/** The string operations of JavaScript that the backend relies on: the
    character classes `\w`, `\d` and `\s` of its regular expressions,
    `toLowerCase`, `split` (on a regular expression that matches runs, and on a
    one-character string), `Array.prototype.join`, `trim`, `indexOf`-style
    search and `parseInt` of a run of decimal digits. */
module Text {
  import opened Wrappers
  import opened Seqs

  /** `\w` of a regular expression without the `u` flag: ASCII letters, digits and `_`. */
  predicate IsWordChar(c: char) {
    ('a' <= c <= 'z') || ('A' <= c <= 'Z') || ('0' <= c <= '9') || c == '_'
  }

  /** `\W`: every character that is not a word character. */
  predicate IsNonWordChar(c: char) {
    !IsWordChar(c)
  }

  /** `\d`: the ASCII digits. */
  predicate IsDigit(c: char) {
    '0' <= c <= '9'
  }

  /** `\s`, and also the set `String.prototype.trim` strips: the ECMAScript
      WhiteSpace (tab, vertical tab, form feed, ZWNBSP and the Unicode space
      separators) and LineTerminator (LF, CR, LS, PS) code points. */
  predicate IsSpace(c: char) {
    c == '\t' || c == '\n' || c == '\U{B}' || c == '\U{C}' || c == '\r' || c == ' '
    || c == '\U{A0}' || c == '\U{1680}' || ('\U{2000}' <= c <= '\U{200A}')
    || c == '\U{2028}' || c == '\U{2029}' || c == '\U{202F}' || c == '\U{205F}'
    || c == '\U{3000}' || c == '\U{FEFF}'
  }

  /** No character of `s` satisfies `p`. */
  predicate NoneOf(s: string, p: char -> bool) {
    forall k :: 0 <= k < |s| ==> !p(s[k])
  }

  /** Every character of `s` satisfies `p`. */
  predicate AllOf(s: string, p: char -> bool) {
    forall k :: 0 <= k < |s| ==> p(s[k])
  }

  /** All characters are white space (`s.trim()` is falsy exactly for these). */
  predicate IsBlank(s: string) {
    AllOf(s, IsSpace)
  }

  // ---------------------------------------------------------------------------
  // Case mapping

  function LowerChar(c: char): char {
    if 'A' <= c <= 'Z' then (c as int + 32) as char else c
  }

  /** `toLowerCase`, restricted to the ASCII letters. */
  function Lower(s: string): string {
    seq(|s|, i requires 0 <= i < |s| => LowerChar(s[i]))
  }

  predicate HasNoUpper(s: string) {
    forall k :: 0 <= k < |s| ==> !('A' <= s[k] <= 'Z')
  }

  lemma {:induction false} LowerProperties(s: string)
    ensures |Lower(s)| == |s| && HasNoUpper(Lower(s))
    ensures Lower(Lower(s)) == Lower(s)
    ensures forall k :: 0 <= k < |s| ==> (IsWordChar(Lower(s)[k]) <==> IsWordChar(s[k]))
  {
  }

  /** Lower-casing leaves a string without upper-case letters unchanged. */
  lemma {:induction false} LowerOfLower(s: string)
    requires HasNoUpper(s)
    ensures Lower(s) == s
  {
  }

  // ---------------------------------------------------------------------------
  // Scanning

  /** The end of the run of characters satisfying `p` that starts at `i`:
      this is how a greedy `p*` consumes input. */
  function RunEnd(s: string, i: nat, p: char -> bool): (j: nat)
    requires i <= |s|
    ensures i <= j <= |s|
    ensures forall k :: i <= k < j ==> p(s[k])
    ensures j < |s| ==> !p(s[j])
    decreases |s| - i
  {
    if i < |s| && p(s[i]) then RunEnd(s, i + 1, p) else i
  }

  /** The start of the run of characters satisfying `p` that ends at `j`,
      looking no further left than `lo`. */
  function RunStart(s: string, lo: nat, j: nat, p: char -> bool): (i: nat)
    requires lo <= j <= |s|
    ensures lo <= i <= j
    ensures forall k :: i <= k < j ==> p(s[k])
    ensures i > lo ==> !p(s[i - 1])
    decreases j
  {
    if j > lo && p(s[j - 1]) then RunStart(s, lo, j - 1, p) else j
  }

  /** `pat` occurs in `s` at position `p`. */
  predicate OccursAt(s: string, pat: string, p: nat) {
    p + |pat| <= |s| && s[p..p + |pat|] == pat
  }

  /** The first position at or after `from` where `pat` occurs, as a search
      for a literal in a regular expression finds it. */
  function IndexOf(s: string, pat: string, from: nat): (r: Option<nat>)
    ensures r.Some? ==> from <= r.value && OccursAt(s, pat, r.value)
    ensures r.Some? ==> forall p :: from <= p < r.value ==> !OccursAt(s, pat, p)
    ensures r.None? ==> forall p :: from <= p ==> !OccursAt(s, pat, p)
    decreases |s| - from
  {
    if from + |pat| > |s| then None
    else if s[from..from + |pat|] == pat then Some(from)
    else IndexOf(s, pat, from + 1)
  }

  // ---------------------------------------------------------------------------
  // Joining and splitting

  /** `Array.prototype.join(sep)` on an array of strings. */
  function Join(ws: seq<string>, sep: string): string {
    if |ws| == 0 then ""
    else if |ws| == 1 then ws[0]
    else ws[0] + sep + Join(ws[1..], sep)
  }

  /** `s.split(re)` for a regular expression `re` that matches the maximal
      runs of characters satisfying `isSep` (such as `/\s+/` or `/\W+/`). The
      pieces lie between the runs; a run at the start or at the end yields an
      empty first or last piece, and the empty string yields `[""]`. */
  function SplitRuns(s: string, isSep: char -> bool): (r: seq<string>)
    ensures |r| >= 1
    ensures forall i :: 0 <= i < |r| ==> NoneOf(r[i], isSep)
    ensures forall i :: 0 < i < |r| - 1 ==> r[i] != ""
    ensures r[0] == "" <==> (s == [] || isSep(s[0]))
    ensures r[|r| - 1] == "" <==> (s == [] || isSep(s[|s| - 1]))
    ensures r == [""] <==> s == []
    decreases |s|
  {
    if s == [] then [""]
    else if isSep(s[0]) then
      var e := RunEnd(s, 0, isSep);
      var rest := SplitRuns(s[e..], isSep);
      assert e < |s| ==> s[e..][|s[e..]| - 1] == s[|s| - 1];
      [""] + rest
    else
      var rest := SplitRuns(s[1..], isSep);
      assert |s| > 1 ==> s[1..][|s[1..]| - 1] == s[|s| - 1];
      [[s[0]] + rest[0]] + rest[1..]
  }

  /** A string without separators splits into itself. */
  lemma {:induction false} SplitRunsPlain(w: string, isSep: char -> bool)
    requires NoneOf(w, isSep)
    ensures SplitRuns(w, isSep) == [w]
    decreases |w|
  {
    if w != [] {
      assert NoneOf(w[1..], isSep) by {
        forall k | 0 <= k < |w[1..]| ensures !isSep(w[1..][k]) { assert w[1..][k] == w[k + 1]; }
      }
      SplitRunsPlain(w[1..], isSep);
      assert [w[0]] + w[1..] == w;
    }
  }

  /** One separator after a separator-free piece `a` ends that piece. */
  lemma {:induction false} SplitRunsCons(a: string, c: char, t: string, isSep: char -> bool)
    requires NoneOf(a, isSep) && isSep(c)
    requires t == [] || !isSep(t[0])
    ensures SplitRuns(a + [c] + t, isSep) == [a] + SplitRuns(t, isSep)
    decreases |a|
  {
    var s := a + [c] + t;
    if a == [] {
      assert s == [c] + t;
      assert RunEnd(s, 1, isSep) == 1;
      assert RunEnd(s, 0, isSep) == 1;
      assert s[1..] == t;
    } else {
      assert NoneOf(a[1..], isSep) by {
        forall k | 0 <= k < |a[1..]| ensures !isSep(a[1..][k]) { assert a[1..][k] == a[k + 1]; }
      }
      SplitRunsCons(a[1..], c, t, isSep);
      DropFirst(a, [c]);
      DropFirst(a + [c], t);
      assert !isSep(s[0]);
      var rest := SplitRuns(s[1..], isSep);
      assert rest == [a[1..]] + SplitRuns(t, isSep);
      assert SplitRuns(s, isSep) == [[s[0]] + rest[0]] + rest[1..];
      assert rest[1..] == SplitRuns(t, isSep);
      HeadTail(a);
    }
  }

  /** Round trip: joining separator-free pieces (none empty except possibly the
      first and the last) with one separator character and splitting again
      gives the pieces back. */
  lemma {:induction false} SplitRunsJoin(ws: seq<string>, c: char, isSep: char -> bool)
    requires isSep(c) && |ws| >= 1
    requires forall i :: 0 <= i < |ws| ==> NoneOf(ws[i], isSep)
    requires forall i :: 0 < i < |ws| - 1 ==> ws[i] != ""
    ensures SplitRuns(Join(ws, [c]), isSep) == ws
    decreases |ws|
  {
    if |ws| == 1 {
      SplitRunsPlain(ws[0], isSep);
    } else {
      var t := Join(ws[1..], [c]);
      assert Join(ws, [c]) == ws[0] + [c] + t;
      if |ws| > 2 {
        assert ws[1] != "" && !isSep(ws[1][0]);
        JoinStartsWith(ws[1..], [c]);
      } else {
        assert t == ws[1];
      }
      SplitRunsCons(ws[0], c, t, isSep);
      SplitRunsJoin(ws[1..], c, isSep);
      assert [ws[0]] + ws[1..] == ws;
    }
  }

  /** A join starts with its first piece. */
  lemma {:induction false} JoinStartsWith(ws: seq<string>, sep: string)
    requires |ws| >= 1
    ensures |Join(ws, sep)| >= |ws[0]| && Join(ws, sep)[..|ws[0]|] == ws[0]
  {
    if |ws| > 1 {
      assert Join(ws, sep) == ws[0] + (sep + Join(ws[1..], sep));
    }
  }

  /** Joining two non-empty lists is joining each and putting one separator
      between the results. */
  lemma {:induction false} JoinAppend(a: seq<string>, b: seq<string>, sep: string)
    requires |a| >= 1 && |b| >= 1
    ensures Join(a + b, sep) == Join(a, sep) + sep + Join(b, sep)
    decreases |a|
  {
    if |a| == 1 {
      assert (a + b)[1..] == b;
    } else {
      assert (a + b)[1..] == a[1..] + b;
      JoinAppend(a[1..], b, sep);
    }
  }

  /** Every character of a join is a character of a piece or of the separator. */
  lemma {:induction false} JoinChars(ws: seq<string>, sep: string, k: nat)
    requires k < |Join(ws, sep)|
    ensures Join(ws, sep)[k] in sep || exists i :: 0 <= i < |ws| && Join(ws, sep)[k] in ws[i]
  {
    if |ws| == 1 {
      assert Join(ws, sep)[k] in ws[0];
    } else if |ws| > 1 {
      var t := Join(ws[1..], sep);
      assert Join(ws, sep) == ws[0] + sep + t;
      if k < |ws[0]| {
        assert Join(ws, sep)[k] == ws[0][k];
      } else if k < |ws[0]| + |sep| {
        assert Join(ws, sep)[k] == sep[k - |ws[0]|];
      } else {
        JoinChars(ws[1..], sep, k - |ws[0]| - |sep|);
        assert Join(ws, sep)[k] == t[k - |ws[0]| - |sep|];
        if Join(ws, sep)[k] !in sep {
          var i :| 0 <= i < |ws[1..]| && t[k - |ws[0]| - |sep|] in ws[1..][i];
          assert ws[1..][i] == ws[i + 1];
        }
      }
    }
  }

  /** `s.split(c)` for a one-character string `c`: the pieces between the
      occurrences of `c`. Joining them with `c` gives `s` back. */
  function SplitOn(s: string, c: char): (r: seq<string>)
    ensures |r| >= 1
    ensures forall i :: 0 <= i < |r| ==> c !in r[i]
    ensures Join(r, [c]) == s
    decreases |s|
  {
    if s == [] then [""]
    else if s[0] == c then
      var rest := SplitOn(s[1..], c);
      assert Join([""] + rest, [c]) == [c] + Join(rest, [c]);
      [""] + rest
    else
      var rest := SplitOn(s[1..], c);
      var r := [[s[0]] + rest[0]] + rest[1..];
      assert |rest| >= 2 ==> Join(rest, [c]) == rest[0] + [c] + Join(rest[1..], [c]);
      assert |rest| >= 2 ==> Join(r, [c]) == [s[0]] + rest[0] + [c] + Join(rest[1..], [c]);
      assert s == [s[0]] + s[1..];
      r
  }

  /** Round trip the other way: pieces free of `c` are recovered by splitting
      their join. */
  lemma {:induction false} SplitOnJoin(ws: seq<string>, c: char)
    requires |ws| >= 1
    requires forall i :: 0 <= i < |ws| ==> c !in ws[i]
    ensures SplitOn(Join(ws, [c]), c) == ws
    decreases |ws|, |ws[0]|
  {
    var s := Join(ws, [c]);
    if ws[0] == [] {
      if |ws| > 1 {
        JoinEmptyHead(ws, c);
        SplitOnJoin(ws[1..], c);
        assert [""] + ws[1..] == ws;
      }
    } else {
      var ws' := [ws[0][1..]] + ws[1..];
      JoinNonEmptyHead(ws, c);
      assert c !in ws'[0];
      SplitOnJoin(ws', c);
      RestoreHead(ws);
    }
  }

  /** The join of pieces whose first one is empty starts with the separator. */
  lemma {:induction false} JoinEmptyHead(ws: seq<string>, c: char)
    requires |ws| > 1 && ws[0] == []
    ensures Join(ws, [c]) != [] && Join(ws, [c])[0] == c
    ensures Join(ws, [c])[1..] == Join(ws[1..], [c])
  {
    assert Join(ws, [c]) == [c] + Join(ws[1..], [c]);
  }

  /** The join of pieces whose first one is not empty starts with that
      piece's first character, followed by the join with it removed. */
  lemma {:induction false} JoinNonEmptyHead(ws: seq<string>, c: char)
    requires |ws| >= 1 && ws[0] != []
    ensures Join(ws, [c]) != [] && Join(ws, [c])[0] == ws[0][0]
    ensures Join(ws, [c])[1..] == Join([ws[0][1..]] + ws[1..], [c])
  {
    var ws' := [ws[0][1..]] + ws[1..];
    assert ws'[1..] == ws[1..];
    if |ws| == 1 {
      assert Join(ws', [c]) == ws[0][1..];
    } else {
      assert Join(ws', [c]) == ws[0][1..] + [c] + Join(ws[1..], [c]);
    }
  }

  /** Putting the first character back on the first piece. */
  lemma {:induction false} RestoreHead(ws: seq<string>)
    requires |ws| >= 1 && ws[0] != []
    ensures var ws' := [ws[0][1..]] + ws[1..]; [[ws[0][0]] + ws'[0]] + ws'[1..] == ws
  {
    assert [ws[0][0]] + ws[0][1..] == ws[0];
  }

  // ---------------------------------------------------------------------------
  // Trimming

  /** `String.prototype.trim`: drops the leading and trailing white space. */
  function Trim(s: string): (r: string)
    ensures |r| <= |s|
    ensures r != "" ==> !IsSpace(r[0]) && !IsSpace(r[|r| - 1])
    ensures r == "" <==> IsBlank(s)
  {
    var i := RunEnd(s, 0, IsSpace);
    var j := RunStart(s, i, |s|, IsSpace);
    assert i == j ==> i == |s|;
    assert i < j ==> !IsSpace(s[i]);
    s[i..j]
  }

  /** Trim removes exactly the blank padding around a string whose first and
      last characters are not white space. */
  lemma {:induction false} TrimPadded(a: string, m: string, b: string)
    requires IsBlank(a) && IsBlank(b)
    requires m != "" ==> !IsSpace(m[0]) && !IsSpace(m[|m| - 1])
    ensures Trim(a + m + b) == m
  {
    var s := a + m + b;
    if m == "" {
      assert IsBlank(s) by {
        forall k | 0 <= k < |s| ensures IsSpace(s[k]) {
          if k < |a| { assert s[k] == a[k]; } else { assert s[k] == b[k - |a|]; }
        }
      }
    } else {
      var i := RunEnd(s, 0, IsSpace);
      assert forall k :: 0 <= k < |a| ==> s[k] == a[k];
      assert s[|a|] == m[0];
      assert i == |a|;
      var j := RunStart(s, i, |s|, IsSpace);
      assert forall k :: |a| + |m| <= k < |s| ==> s[k] == b[k - |a| - |m|];
      assert s[|a| + |m| - 1] == m[|m| - 1];
      assert j == |a| + |m|;
      assert s[i..j] == m;
    }
  }

  /** Keeps the pieces that are not blank (`filter(x => x.trim())`). */
  function NonBlank(ws: seq<string>): (r: seq<string>)
    ensures |r| <= |ws|
    ensures forall i :: 0 <= i < |r| ==> r[i] in ws && !IsBlank(r[i])
  {
    if ws == [] then []
    else if Trim(ws[0]) != "" then [ws[0]] + NonBlank(ws[1..])
    else NonBlank(ws[1..])
  }

  /** A list without blank pieces passes the filter unchanged. */
  lemma {:induction false} NonBlankKeepsAll(ws: seq<string>)
    requires forall i :: 0 <= i < |ws| ==> !IsBlank(ws[i])
    ensures NonBlank(ws) == ws
  {
    if ws != [] {
      NonBlankKeepsAll(ws[1..]);
    }
  }

  /** The non-blank pieces keep their order: the result is a subsequence. */
  lemma {:induction false} NonBlankPrefix(ws: seq<string>, n: nat)
    requires n <= |ws|
    ensures NonBlank(ws) == NonBlank(ws[..n]) + NonBlank(ws[n..])
  {
    if n > 0 {
      assert ws[..n][1..] == ws[1..][..n - 1];
      assert ws[n..] == ws[1..][n - 1..];
      NonBlankPrefix(ws[1..], n - 1);
    } else {
      assert ws[..0] == [] && ws[0..] == ws;
    }
  }

  // ---------------------------------------------------------------------------
  // Decimal numbers

  function DigitValue(c: char): nat {
    if IsDigit(c) then c as int - '0' as int else 0
  }

  function DigitChar(d: nat): char
    requires d < 10
  {
    ('0' as int + d) as char
  }

  /** `parseInt` of a string of decimal digits (exact: no float rounding). */
  function DecimalValue(d: string): nat {
    if d == [] then 0 else DecimalValue(d[..|d| - 1]) * 10 + DigitValue(d[|d| - 1])
  }

  /** The decimal numeral of `n`, as `String(n)` writes it. */
  function DecimalString(n: nat): (r: string)
    ensures r != "" && AllOf(r, IsDigit)
  {
    if n < 10 then [DigitChar(n)] else DecimalString(n / 10) + [DigitChar(n % 10)]
  }

  /** `parseInt(String(n)) == n`. */
  lemma {:induction false} DecimalRoundTrip(n: nat)
    ensures DecimalValue(DecimalString(n)) == n
  {
    var r := DecimalString(n);
    if n >= 10 {
      DecimalRoundTrip(n / 10);
      assert r[..|r| - 1] == DecimalString(n / 10);
    }
  }
}
