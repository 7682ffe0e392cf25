/** The parser the query route runs over the grading model's reply: three
    regular expressions, for the score, the feedback and the citations, each
    falling back to a default when it does not match. Nothing here can fail.

    Each pattern is modelled by what a backtracking matcher returns for it:
    the leftmost position where the pattern matches, and at that position the
    greedy or lazy choice of each quantifier. */
module ReplyParser {
  import opened Wrappers
  import opened Text
  import opened Models
  import opened Seqs

  const ScoreLabel: string := "Score:"
  const FeedbackLabel: string := "Feedback:"
  const CitationsLabel: string := "Citations:"

  // ---------------------------------------------------------------------------
  // Score: /Score:\s*(\d+)/

  /** `/Score:\s*(\d+)/` matches at `p`: the label, the longest run of white
      space, then a digit. Giving back white space cannot help, since the
      character after a shorter run is white space and not a digit. */
  predicate ScoreMatchAt(s: string, p: nat) {
    OccursAt(s, ScoreLabel, p)
    && RunEnd(s, p + |ScoreLabel|, IsSpace) < |s|
    && IsDigit(s[RunEnd(s, p + |ScoreLabel|, IsSpace)])
  }

  /** The captured group at a match: the longest run of digits after the
      white space. */
  function ScoreDigits(s: string, p: nat): (r: string)
    requires ScoreMatchAt(s, p)
    ensures r != "" && AllOf(r, IsDigit)
    ensures var q := RunEnd(s, p + |ScoreLabel|, IsSpace);
      q + |r| <= |s| && s[q..q + |r|] == r && (q + |r| == |s| || !IsDigit(s[q + |r|]))
  {
    var q := RunEnd(s, p + |ScoreLabel|, IsSpace);
    var e := RunEnd(s, q, IsDigit);
    assert forall k :: 0 <= k < e - q ==> s[q..e][k] == s[q + k];
    s[q..e]
  }

  /** The leftmost match at or after `from`. */
  function FirstScoreMatch(s: string, from: nat): (r: Option<nat>)
    ensures r.Some? ==> from <= r.value && ScoreMatchAt(s, r.value)
    ensures r.Some? ==> forall p :: from <= p < r.value ==> !ScoreMatchAt(s, p)
    ensures r.None? ==> forall p :: from <= p ==> !ScoreMatchAt(s, p)
    decreases |s| - from
  {
    if from > |s| then None
    else if ScoreMatchAt(s, from) then Some(from)
    else FirstScoreMatch(s, from + 1)
  }

  /** `scoreMatch ? parseInt(scoreMatch[1]) : null`. The value is not
      clamped to the schema's range. */
  function ScoreOf(reply: string): (r: Option<nat>)
    ensures r.None? <==> forall p :: !ScoreMatchAt(reply, p)
    ensures (forall p :: !OccursAt(reply, ScoreLabel, p)) ==> r == None
  {
    match FirstScoreMatch(reply, 0)
    case None => None
    case Some(p) => Some(DecimalValue(ScoreDigits(reply, p)))
  }

  // ---------------------------------------------------------------------------
  // Feedback: /Feedback:\s*(.+?)(?=Citations:|$)/s

  /** Where the lazy `.+?` stops: the first `Citations:` at or after `from`,
      or the end of the text. */
  function CitationsAfter(s: string, from: nat): (e: nat)
    requires from <= |s|
    ensures from <= e <= |s|
    ensures e < |s| ==> OccursAt(s, CitationsLabel, e)
    ensures forall p :: from <= p < e ==> !OccursAt(s, CitationsLabel, p)
  {
    match IndexOf(s, CitationsLabel, from)
    case None => |s|
    case Some(e) => e
  }

  /** The group the feedback pattern captures, when it matches. It is tried
      at the first `Feedback:`; white space is taken greedily and `.+?` needs
      one character, so if only white space follows, the last space is given
      back to the group. It fails only when the label ends the text, and then
      no later label exists either. */
  function FeedbackCapture(s: string): Option<string> {
    match IndexOf(s, FeedbackLabel, 0)
    case None => None
    case Some(p) =>
      var q0 := p + |FeedbackLabel|;
      if q0 == |s| then None
      else
        var q := RunEnd(s, q0, IsSpace);
        if q == |s| then Some(s[q - 1..])
        else Some(s[q..CitationsAfter(s, q + 1)])
  }

  /** `feedbackMatch ? feedbackMatch[1].trim() : aiResponse`. */
  function FeedbackOf(reply: string): (r: string)
    ensures (forall p :: !OccursAt(reply, FeedbackLabel, p)) ==> r == reply
    ensures FeedbackCapture(reply).Some? ==> r == "" || (!IsSpace(r[0]) && !IsSpace(r[|r| - 1]))
  {
    match FeedbackCapture(reply)
    case None => reply
    case Some(c) => Trim(c)
  }

  // ---------------------------------------------------------------------------
  // Citations: /Citations:\s*(.+)/s

  /** The group the citations pattern captures, when it matches: everything
      after the first `Citations:` and the white space after it (the last
      space given back if nothing else follows). */
  function CitationsCapture(s: string): Option<string> {
    match IndexOf(s, CitationsLabel, 0)
    case None => None
    case Some(p) =>
      var q0 := p + |CitationsLabel|;
      if q0 == |s| then None
      else
        var q := RunEnd(s, q0, IsSpace);
        if q == |s| then Some(s[q - 1..]) else Some(s[q..])
  }

  /** `citationsMatch ? citationsMatch[1].split('\n').filter(c => c.trim()) : []`:
      the non-blank lines of the capture, untrimmed and in order. */
  function CitationsOf(reply: string): (r: seq<string>)
    ensures forall i :: 0 <= i < |r| ==> !IsBlank(r[i]) && '\n' !in r[i]
    ensures (forall p :: !OccursAt(reply, CitationsLabel, p)) ==> r == []
  {
    match CitationsCapture(reply)
    case None => []
    case Some(c) =>
      var r := NonBlank(SplitOn(c, '\n'));
      assert forall i :: 0 <= i < |r| ==> r[i] in SplitOn(c, '\n');
      r
  }

  /** What the query route keeps of a reply. */
  datatype Grading = Grading(score: Option<nat>, feedback: string, citations: seq<string>)

  function ParseReply(reply: string): Grading {
    Grading(ScoreOf(reply), FeedbackOf(reply), CitationsOf(reply))
  }

  /** A capture that is only white space yields no citation. */
  lemma {:induction false} BlankCaptureNoCitations(c: string)
    requires IsBlank(c)
    ensures NonBlank(SplitOn(c, '\n')) == []
  {
    var ws := SplitOn(c, '\n');
    NonBlankBlank(ws, c);
  }

  lemma {:induction false} NonBlankBlank(ws: seq<string>, c: string)
    requires IsBlank(c) && Join(ws, "\n") == c
    ensures NonBlank(ws) == []
  {
    if ws != [] {
      JoinStartsWith(ws, "\n");
      assert IsBlank(ws[0]) by {
        forall k | 0 <= k < |ws[0]| ensures IsSpace(ws[0][k]) {
          assert ws[0][k] == c[k];
        }
      }
      if |ws| > 1 {
        var rest := Join(ws[1..], "\n");
        assert c == ws[0] + "\n" + rest;
        assert IsBlank(rest) by {
          forall k | 0 <= k < |rest| ensures IsSpace(rest[k]) {
            assert rest[k] == c[|ws[0]| + 1 + k];
          }
        }
        NonBlankBlank(ws[1..], rest);
      }
    }
  }

  // ---------------------------------------------------------------------------
  // The reply layout the grading prompt asks for

  /** A pattern whose first character is missing from the first `k`
      characters of `s` occurs nowhere before `k`. */
  lemma {:induction false} AbsentBefore(s: string, pat: string, k: nat)
    requires pat != [] && k <= |s| && pat[0] !in s[..k]
    ensures forall p: nat :: p < k ==> !OccursAt(s, pat, p)
  {
    forall p: nat | p < k ensures !OccursAt(s, pat, p) {
      if p + |pat| <= |s| {
        assert s[p..p + |pat|][0] == s[p] == s[..k][p];
      }
    }
  }

  /** A pattern whose first character is missing from `s` occurs nowhere. */
  lemma {:induction false} AbsentAll(s: string, pat: string)
    requires pat != [] && pat[0] !in s
    ensures forall p: nat :: !OccursAt(s, pat, p)
  {
    forall p: nat | p + |pat| <= |s| ensures !OccursAt(s, pat, p) {
      assert s[p..p + |pat|][0] == s[p];
    }
  }

  /** The first occurrence is the one at `p` when none comes before it. */
  lemma {:induction false} IndexOfIs(s: string, pat: string, from: nat, p: nat)
    requires from <= p && OccursAt(s, pat, p)
    requires forall x :: from <= x < p ==> !OccursAt(s, pat, x)
    ensures IndexOf(s, pat, from) == Some(p)
  {
  }

  /** The score line the prompt asks for, `Score: <n>/10` and a line break. */
  function ScoreLine(n: nat): string {
    "Score: " + DecimalString(n) + "/10\n"
  }

  /** `Score:`, a space, the numeral of `n` and a non-digit give `n`. */
  lemma {:induction false} ScoreOfNumeral(n: nat, t: string)
    requires t == [] || !IsDigit(t[0])
    ensures ScoreOf("Score: " + DecimalString(n) + t) == Some(n)
  {
    ScoreOfText("Score: " + DecimalString(n) + t, n, t);
  }

  /** Anywhere in a reply: after a preamble in which the pattern does not
      match, `Score:`, any white space, the numeral of `n` and a non-digit
      give `n`. */
  lemma {:induction false} ScoreAfterPreamble(reply: string, a: string, w: string, n: nat, t: string)
    requires reply == a + ScoreLabel + w + DecimalString(n) + t
    requires forall p: nat :: p < |a| ==> !ScoreMatchAt(reply, p)
    requires AllOf(w, IsSpace)
    requires t == [] || !IsDigit(t[0])
    ensures ScoreOf(reply) == Some(n)
  {
    var d := DecimalString(n);
    var P := |a|;
    var q := P + |ScoreLabel| + |w|;
    var e := q + |d|;
    assert |reply| == e + |t|;
    assert reply[P..P + |ScoreLabel|] == ScoreLabel;
    forall k | P + |ScoreLabel| <= k < q ensures IsSpace(reply[k]) {
      assert reply[k] == w[k - P - |ScoreLabel|];
    }
    forall k | q <= k < e ensures reply[k] == d[k - q] {
    }
    assert !IsSpace(reply[q]);
    assert RunEnd(reply, P + |ScoreLabel|, IsSpace) == q;
    assert ScoreMatchAt(reply, P);
    assert FirstScoreMatch(reply, 0) == Some(P);
    assert e < |reply| ==> reply[e] == t[0];
    assert reply[q..e] == d;
    assert ScoreDigits(reply, P) == d;
    DecimalRoundTrip(n);
  }

  /** `ScoreOfNumeral` for a text `s` given by its layout. */
  lemma {:induction false} ScoreOfText(s: string, n: nat, t: string)
    requires s == "Score: " + DecimalString(n) + t
    requires t == [] || !IsDigit(t[0])
    ensures ScoreOf(s) == Some(n)
  {
    var d := DecimalString(n);
    assert s[..6] == ScoreLabel;
    assert s[6] == ' ';
    assert s[7] == d[0];
    assert RunEnd(s, 6, IsSpace) == 7;
    assert forall k :: 7 <= k < 7 + |d| ==> s[k] == d[k - 7];
    assert 7 + |d| < |s| ==> s[7 + |d|] == t[0];
    assert RunEnd(s, 7, IsDigit) == 7 + |d|;
    assert s[7..7 + |d|] == d;
    assert ScoreMatchAt(s, 0);
    DecimalRoundTrip(n);
  }

  /** The worked example of the prompt's format: "Score: 7/10" gives 7. */
  lemma {:induction false} ScoreSevenOfTen()
    ensures ScoreOf("Score: 7/10") == Some(7)
  {
    assert DecimalString(7) == "7";
    ScoreOfText("Score: 7/10", 7, "/10");
  }

  /** Scores are not clamped: "Score: 0" gives 0 and "Score: 12" gives 12,
      both outside the schema's range. */
  lemma {:induction false} ScoreOutOfRange()
    ensures ScoreOf("Score: 0") == Some(0) && !ValidScore(Some(0))
    ensures ScoreOf("Score: 12") == Some(12) && !ValidScore(Some(12))
  {
    ScoreZero();
    ScoreTwelve();
  }

  lemma {:induction false} ScoreZero()
    ensures ScoreOf("Score: 0") == Some(0)
  {
    assert DecimalString(0) == "0";
    ScoreOfText("Score: 0", 0, "");
  }

  lemma {:induction false} ScoreTwelve()
    ensures ScoreOf("Score: 12") == Some(12)
  {
    assert DecimalString(1) == "1";
    assert DigitChar(2) == '2';
    assert DecimalString(12) == "12";
    ScoreOfText("Score: 12", 12, "");
  }

  /** In the layout `pre`, `Feedback: `, `f`, a line break, `Citations: `,
      `tail`, the first `Feedback:` is at the end of `pre`, one space follows
      it, and the lazy group stops at the line break after `f`. */
  lemma {:induction false} FeedbackLayout(s: string, pre: string, f: string, tail: string)
    requires s == pre + "Feedback: " + f + "\nCitations: " + tail
    requires 'F' !in pre
    requires f != "" && !IsSpace(f[0])
    requires forall j :: !OccursAt(f, CitationsLabel, j)
    ensures |s| == |pre| + 22 + |f| + |tail|
    ensures IndexOf(s, FeedbackLabel, 0) == Some(|pre|)
    ensures RunEnd(s, |pre| + 9, IsSpace) == |pre| + 10
    ensures CitationsAfter(s, |pre| + 11) == |pre| + 11 + |f|
    ensures s[|pre| + 10..|pre| + 11 + |f|] == f + "\n"
  {
    var P := |pre|;
    LayoutPieces(s, pre, f, tail);
    AbsentBefore(s, FeedbackLabel, P);
    IndexOfIs(s, FeedbackLabel, 0, P);
    AbsentInFeedback(s, f, P + 10);
    IndexOfIs(s, CitationsLabel, P + 11, P + 11 + |f|);
  }

  /** In the same layout, the first `Citations:` is the one after `f`, and
      one space and `tail` follow it. */
  lemma {:induction false} CitationsLayout(s: string, pre: string, f: string, tail: string)
    requires s == pre + "Feedback: " + f + "\nCitations: " + tail
    requires 'C' !in pre
    requires f != ""
    requires forall j :: !OccursAt(f, CitationsLabel, j)
    ensures |s| == |pre| + 22 + |f| + |tail|
    ensures IndexOf(s, CitationsLabel, 0) == Some(|pre| + 11 + |f|)
    ensures s[|pre| + 21 + |f|] == ' ' && s[|pre| + 22 + |f|..] == tail
  {
    var P := |pre|;
    LayoutPieces(s, pre, f, tail);
    AbsentBefore(s, CitationsLabel, P + 10);
    AbsentInFeedback(s, f, P + 10);
    IndexOfIs(s, CitationsLabel, 0, P + 11 + |f|);
  }

  /** The slices of the layout. */
  lemma {:induction false} LayoutPieces(s: string, pre: string, f: string, tail: string)
    requires s == pre + "Feedback: " + f + "\nCitations: " + tail
    requires f != ""
    ensures |s| == |pre| + 22 + |f| + |tail|
    ensures s[..|pre|] == pre && s[..|pre| + 10] == pre + "Feedback: "
    ensures s[|pre|..|pre| + 9] == FeedbackLabel && s[|pre| + 9] == ' '
    ensures s[|pre| + 10] == f[0]
    ensures s[|pre| + 10..|pre| + 10 + |f|] == f && s[|pre| + 10 + |f|] == '\n'
    ensures s[|pre| + 10..|pre| + 11 + |f|] == f + "\n"
    ensures s[|pre| + 11 + |f|..|pre| + 21 + |f|] == CitationsLabel
    ensures s[|pre| + 21 + |f|] == ' ' && s[|pre| + 22 + |f|..] == tail
  {
  }

  /** The feedback and citations sections, after any text `pre` without an
      `F` or a `C`: the feedback is recovered exactly when it is trimmed and
      holds no `Citations:`, and the citations when they are non-blank lines
      and the first does not start with white space. */
  lemma {:induction false} SectionsRoundTrip(pre: string, f: string, cs: seq<string>)
    requires 'F' !in pre && 'C' !in pre
    requires f != "" && !IsSpace(f[0]) && !IsSpace(f[|f| - 1])
    requires forall j :: !OccursAt(f, CitationsLabel, j)
    requires forall i :: 0 <= i < |cs| ==> !IsBlank(cs[i]) && '\n' !in cs[i]
    requires cs != [] ==> cs[0] != "" && !IsSpace(cs[0][0])
    ensures var s := pre + "Feedback: " + f + "\nCitations: " + Join(cs, "\n");
      FeedbackOf(s) == f && CitationsOf(s) == cs
  {
    FeedbackRoundTrip(pre, f, Join(cs, "\n"));
    CitationsRoundTrip(pre, f, cs);
  }

  lemma {:induction false} FeedbackRoundTrip(pre: string, f: string, tail: string)
    requires 'F' !in pre
    requires f != "" && !IsSpace(f[0]) && !IsSpace(f[|f| - 1])
    requires forall j :: !OccursAt(f, CitationsLabel, j)
    ensures FeedbackOf(pre + "Feedback: " + f + "\nCitations: " + tail) == f
  {
    FeedbackOfLayout(pre + "Feedback: " + f + "\nCitations: " + tail, pre, f, tail);
  }

  /** `FeedbackRoundTrip` for a text `s` given by its layout. */
  lemma {:induction false} FeedbackOfLayout(s: string, pre: string, f: string, tail: string)
    requires s == pre + "Feedback: " + f + "\nCitations: " + tail
    requires 'F' !in pre
    requires f != "" && !IsSpace(f[0]) && !IsSpace(f[|f| - 1])
    requires forall j :: !OccursAt(f, CitationsLabel, j)
    ensures FeedbackOf(s) == f
  {
    FeedbackLayout(s, pre, f, tail);
    FeedbackSection(s, |pre|, |pre| + 11 + |f|, f);
  }

  /** The feedback capture at `p` is `f` and its line break, and trims to
      `f`. */
  lemma {:induction false} FeedbackSection(s: string, p: nat, e: nat, f: string)
    requires f != "" && !IsSpace(f[|f| - 1]) && p + 11 <= e <= |s|
    requires IndexOf(s, FeedbackLabel, 0) == Some(p)
    requires RunEnd(s, p + 9, IsSpace) == p + 10
    requires CitationsAfter(s, p + 11) == e
    requires s[p + 10..e] == f + "\n"
    requires !IsSpace(f[0])
    ensures FeedbackOf(s) == f
  {
    FeedbackCaptureAt(s, p, e);
    TrimLine(f);
  }

  /** Where the feedback label is followed by one space and more text, the
      capture runs from that text to the next `Citations:`. */
  lemma {:induction false} FeedbackCaptureAt(s: string, p: nat, e: nat)
    requires p + 11 <= e <= |s|
    requires IndexOf(s, FeedbackLabel, 0) == Some(p)
    requires RunEnd(s, p + 9, IsSpace) == p + 10
    requires CitationsAfter(s, p + 11) == e
    ensures FeedbackCapture(s) == Some(s[p + 10..e])
  {
  }

  /** A trimmed line with its line break trims back to the line. */
  lemma {:induction false} TrimLine(f: string)
    requires f != "" && !IsSpace(f[0]) && !IsSpace(f[|f| - 1])
    ensures Trim(f + "\n") == f
  {
    TrimPadded("", f, "\n");
    EmptyLeft(f + "\n");
  }

  lemma {:induction false} CitationsRoundTrip(pre: string, f: string, cs: seq<string>)
    requires 'F' !in pre && 'C' !in pre
    requires f != "" && !IsSpace(f[0])
    requires forall j :: !OccursAt(f, CitationsLabel, j)
    requires forall i :: 0 <= i < |cs| ==> !IsBlank(cs[i]) && '\n' !in cs[i]
    requires cs != [] ==> cs[0] != "" && !IsSpace(cs[0][0])
    ensures CitationsOf(pre + "Feedback: " + f + "\nCitations: " + Join(cs, "\n")) == cs
  {
    var s := pre + "Feedback: " + f + "\nCitations: " + Join(cs, "\n");
    CitationsLayout(s, pre, f, Join(cs, "\n"));
    CitationsSection(s, |pre| + 11 + |f|, cs);
  }

  /** After the label and one space at `e`, the capture is the rest of the
      text, or the space itself when nothing follows it. */
  lemma {:induction false} CitationsSection(s: string, e: nat, cs: seq<string>)
    requires IndexOf(s, CitationsLabel, 0) == Some(e)
    requires e + 11 <= |s| && s[e + 10] == ' ' && s[e + 11..] == Join(cs, "\n")
    requires forall i :: 0 <= i < |cs| ==> !IsBlank(cs[i]) && '\n' !in cs[i]
    requires cs != [] ==> cs[0] != "" && !IsSpace(cs[0][0])
    ensures CitationsOf(s) == cs
  {
    if cs == [] {
      assert |s| == e + 11;
      assert RunEnd(s, e + 10, IsSpace) == |s|;
      assert s[|s| - 1..] == " ";
      assert IsBlank(" ");
      BlankCaptureNoCitations(" ");
    } else {
      JoinStartsWith(cs, "\n");
      assert s[e + 11] == cs[0][0];
      assert RunEnd(s, e + 10, IsSpace) == e + 11;
      SplitOnJoin(cs, '\n');
      NonBlankKeepsAll(cs);
    }
  }

  /** A label without a line break cannot start inside `f` or straddle the
      line break after it. */
  lemma {:induction false} AbsentInFeedback(s: string, f: string, q: nat)
    requires q + |f| < |s| && s[q..q + |f|] == f && s[q + |f|] == '\n'
    requires forall j :: !OccursAt(f, CitationsLabel, j)
    ensures forall p :: q <= p <= q + |f| ==> !OccursAt(s, CitationsLabel, p)
  {
    forall p | q <= p <= q + |f| ensures !OccursAt(s, CitationsLabel, p) {
      if p + 10 <= q + |f| {
        var w, g := s[p..p + 10], f[p - q..p - q + 10];
        forall i | 0 <= i < 10 ensures w[i] == g[i] {
          assert w[i] == s[p + i];
          assert g[i] == f[p - q + i] == s[q..q + |f|][p - q + i];
        }
        assert w == g;
        assert !OccursAt(f, CitationsLabel, p - q);
      } else if p + 10 <= |s| {
        assert s[p..p + 10][q + |f| - p] == '\n';
        assert '\n' !in CitationsLabel;
      }
    }
  }

  /** The score line holds neither an `F` nor a `C`. */
  lemma {:induction false} ScoreLineLetters(n: nat)
    ensures 'F' !in ScoreLine(n) && 'C' !in ScoreLine(n)
  {
    var d := DecimalString(n);
    assert forall i :: 0 <= i < |d| ==> IsDigit(d[i]);
    assert 'F' !in d && 'C' !in d;
    assert ScoreLine(n) == "Score: " + d + "/10\n";
  }

  /** Round trip: a reply laid out exactly as the grading prompt asks parses
      back to its score, its feedback and its citation lines. */
  lemma {:induction false} FormatRoundTrip(n: nat, f: string, cs: seq<string>)
    requires f != "" && !IsSpace(f[0]) && !IsSpace(f[|f| - 1])
    requires forall j :: !OccursAt(f, CitationsLabel, j)
    requires forall i :: 0 <= i < |cs| ==> !IsBlank(cs[i]) && '\n' !in cs[i]
    requires cs != [] ==> cs[0] != "" && !IsSpace(cs[0][0])
    ensures ParseReply(ScoreLine(n) + "Feedback: " + f + "\nCitations: " + Join(cs, "\n"))
         == Grading(Some(n), f, cs)
  {
    var s := ScoreLine(n) + "Feedback: " + f + "\nCitations: " + Join(cs, "\n");
    assert FeedbackOf(s) == f && CitationsOf(s) == cs by {
      ScoreLineLetters(n);
      SectionsRoundTrip(ScoreLine(n), f, cs);
    }
    assert ScoreOf(s) == Some(n) by {
      var d := DecimalString(n);
      var t := "/10\n" + "Feedback: " + f + "\nCitations: " + Join(cs, "\n");
      ScoreOfNumeral(n, t);
      Regroup("Score: " + d, "/10\n", "Feedback: ", f, "\nCitations: ", Join(cs, "\n"));
    }
  }

  lemma {:induction false} Regroup(a: string, b: string, c: string, d: string, e: string, g: string)
    ensures a + b + c + d + e + g == a + (b + c + d + e + g)
  {
  }

  /** The example reply without a score line,
      "Feedback: Good answer.\nCitations: x\ny": no score, the feedback
      sentence, and one citation per line. */
  lemma {:induction false} ExampleReply()
    ensures ParseReply("Feedback: " + "Good answer." + "\nCitations: " + "x\ny")
         == Grading(None, "Good answer.", ["x", "y"])
  {
    ExampleSections();
    ExampleNoScore();
  }

  lemma {:induction false} ExampleSections()
    ensures var s := "Feedback: " + "Good answer." + "\nCitations: " + "x\ny";
      FeedbackOf(s) == "Good answer." && CitationsOf(s) == ["x", "y"]
  {
    var f := "Good answer.";
    ExamplePieces();
    SectionsRoundTrip("", f, ["x", "y"]);
    assert "" + "Feedback: " == "Feedback: ";
  }

  lemma {:induction false} ExamplePieces()
    ensures forall j :: !OccursAt("Good answer.", CitationsLabel, j)
    ensures !IsSpace("Good answer."[0]) && !IsSpace("Good answer."[11])
    ensures Join(["x", "y"], "\n") == "x\ny"
    ensures !IsBlank("x") && !IsBlank("y")
  {
    assert 'C' !in "Good answer.";
    AbsentAll("Good answer.", CitationsLabel);
    assert !IsBlank("x") by { assert "x"[0] == 'x' && !IsSpace('x'); }
    assert !IsBlank("y") by { assert "y"[0] == 'y' && !IsSpace('y'); }
  }

  lemma {:induction false} ExampleNoScore()
    ensures ScoreOf("Feedback: " + "Good answer." + "\nCitations: " + "x\ny") == None
  {
    var s := "Feedback: " + "Good answer." + "\nCitations: " + "x\ny";
    assert 'S' !in "Feedback: " && 'S' !in "Good answer." && 'S' !in "\nCitations: " && 'S' !in "x\ny";
    AbsentAll(s, ScoreLabel);
  }
}
