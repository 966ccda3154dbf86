/** `score_re` and `parse_scores_from_output` of dockstring/utils.py: every
    `REMARK VINA RESULT:` in the docking output, followed by optional whitespace and a number,
    contributes that number, in order of position. The file's content is the input string. */
module VinaScores {
  import opened Errors
  import opened Lexical
  import opened RealNumber

  /** The literal that starts score_re; case-sensitive. */
  const Marker: string := "REMARK VINA RESULT:"

  predicate MarkerAt(s: string, p: nat) {
    p + |Marker| <= |s| && s[p..p + |Marker|] == Marker
  }

  /** One attempt of score_re at position p: the captured score and the end of the match. */
  function MatchAt(s: string, p: nat): (r: Option<(string, nat)>)
    requires p <= |s|
    ensures r.Some? ==> MarkerAt(s, p) && p + |Marker| < r.value.1 <= |s|
  {
    if MarkerAt(s, p) then
      var w := SpaceEnd(s, p + |Marker|);
      var e := RealEnd(s, w);
      if w < e then Some((s[w..e], e)) else None
    else None
  }

  /** What one attempt of score_re yields: the captured score and the end of the match. */
  type Attempt = Option<(string, nat)>

  /** Every match ends after the position it starts at, and within the content. */
  ghost predicate Advancing(a: seq<Attempt>) {
    forall q :: 0 <= q < |a| && a[q].Some? ==> q < a[q].value.1 <= |a|
  }

  /** score_re tried at every position of s. */
  function Attempts(s: string): (r: seq<Attempt>)
    ensures |r| == |s| && Advancing(r)
  {
    seq(|s|, p requires 0 <= p < |s| => MatchAt(s, p))
  }

  /** finditer over the attempts from position p: after a match the search resumes where the
      match ended, otherwise one position further on. */
  function Scan(a: seq<Attempt>, p: nat): (r: seq<string>)
    requires p <= |a| && Advancing(a)
    ensures |r| <= |a| - p
    decreases |a| - p
  {
    if p == |a| then []
    else
      match a[p]
      case Some((x, e)) => [x] + Scan(a, e)
      case None => Scan(a, p + 1)
  }

  /** Reference definition: the capture of every position from p on that holds a match, in
      order of position, with no position skipped. */
  function Collect(a: seq<Attempt>, p: nat): seq<string>
    requires p <= |a|
    decreases |a| - p
  {
    if p == |a| then []
    else
      (match a[p] case Some((x, _)) => [x] case None => [])
      + Collect(a, p + 1)
  }

  /** `score_re.finditer(content)` from position p. */
  function FindScores(s: string, p: nat): (r: seq<string>)
    requires p <= |s|
    ensures |r| <= |s| - p
  {
    Scan(Attempts(s), p)
  }

  /** `parse_scores_from_output`, with each score kept as its lexeme. */
  function ParseScoresFromOutput(content: string): (r: seq<string>)
    ensures |r| <= |content|
  {
    FindScores(content, 0)
  }

  /** The score after every position from p on where score_re matches. */
  function MarkerScores(s: string, p: nat): seq<string>
    requires p <= |s|
  {
    Collect(Attempts(s), p)
  }

  /** The attempt at p is score_re tried at p. */
  lemma AttemptAt(s: string, p: nat)
    requires p < |s|
    ensures Attempts(s)[p] == MatchAt(s, p)
  {
  }

  // ---------------------------------------------------------------------------
  // One match, stated without the recogniser.
  // ---------------------------------------------------------------------------

  /** No prefix of s[w..] longer than s[w..e] is a word of the number grammar. */
  ghost predicate LongestNumberAt(s: string, w: nat, e: nat)
    requires w <= e <= |s|
  {
    forall k :: e < k <= |s| ==> !IsReal(s[w..k])
  }

  /** A match is the marker, then whitespace, then the longest number that starts there. */
  lemma MatchAtSound(s: string, p: nat)
    requires p <= |s| && MatchAt(s, p).Some?
    ensures var (x, e) := MatchAt(s, p).value;
      && MarkerAt(s, p)
      && p + |Marker| <= e - |x|
      && AllSpace(s[p + |Marker|..e - |x|])
      && s[e - |x|..e] == x
      && IsReal(x)
      && LongestNumberAt(s, e - |x|, e)
  {
    var w := SpaceEnd(s, p + |Marker|);
    SpaceRun(s, p + |Marker|);
    RealEndSound(s, w);
    RealEndLongest(s, w);
  }

  /** Whenever the marker is followed by whitespace and a number, score_re matches there and
      captures that number or a longer one starting at the same place. */
  lemma MatchAtComplete(s: string, p: nat, w: nat, k: nat)
    requires MarkerAt(s, p)
    requires p + |Marker| <= w <= k <= |s|
    requires AllSpace(s[p + |Marker|..w]) && IsReal(s[w..k])
    ensures MatchAt(s, p).Some?
    ensures var (x, e) := MatchAt(s, p).value; e - |x| == w && e >= k
  {
    SpaceBeforeNumber(s, p + |Marker|, w, k);
    RealEndComplete(s, w, k);
  }

  // ---------------------------------------------------------------------------
  // finditer misses no marker.
  // ---------------------------------------------------------------------------

  /** The characters of the marker: 'R' is followed by 'E' and then 'M' only at its start. */
  lemma MarkerShape()
    ensures |Marker| == 19
    ensures forall k :: 0 < k < 19 && Marker[k] == 'R' ==> k == 4 || k == 12
    ensures Marker[0] == 'R' && Marker[1] == 'E' && Marker[2] == 'M'
    ensures Marker[5] == 'K' && Marker[14] == 'S'
  {
  }

  /** Where the whitespace and the score of a match at p sit, and what characters they hold. */
  lemma MatchAtPieces(s: string, p: nat) returns (w: nat, e: nat)
    requires p <= |s| && MatchAt(s, p).Some?
    ensures MarkerAt(s, p) && p + |Marker| <= w <= e <= |s| && e == MatchAt(s, p).value.1
    ensures forall q :: p + |Marker| <= q < w ==> IsSpace(s[q])
    ensures forall q :: w <= q < e ==> IsRealChar(s[q])
  {
    w := SpaceEnd(s, p + |Marker|);
    e := RealEnd(s, w);
    SpaceRun(s, p + |Marker|);
    RealEndChars(s, w);
  }

  /** No marker starts after p and before e when the marker sits at p and is followed by
      whitespace up to w and number characters up to e. */
  lemma NoMarkerInside(s: string, p: nat, q: nat, w: nat, e: nat)
    requires MarkerAt(s, p) && p < q < e && p + |Marker| <= w <= e <= |s|
    requires forall q :: p + |Marker| <= q < w ==> IsSpace(s[q])
    requires forall q :: w <= q < e ==> IsRealChar(s[q])
    ensures !MarkerAt(s, q)
  {
    MarkerShape();
    // one of the first three characters at q differs from the marker's
    if q < p + 19 {
      assert s[p..p + 19] == Marker;
      assert s[q] == Marker[q - p];
      if q - p == 4 {
        assert s[q + 1] == Marker[5] == 'K';
      } else if q - p == 12 {
        assert s[q + 2] == Marker[14] == 'S';
      } else {
        assert s[q] != 'R';
      }
    } else if q < w {
      assert IsSpace(s[q]);
    } else {
      assert IsRealChar(s[q]);
    }
    if q + 19 <= |s| {
      assert s[q..q + 19][0] == s[q] && s[q..q + 19][1] == s[q + 1] && s[q..q + 19][2] == s[q + 2];
    }
  }

  /** No match of score_re starts inside another match. */
  lemma NoMatchInsideMatch(s: string, p: nat, q: nat)
    requires p <= |s| && MatchAt(s, p).Some?
    requires p < q < MatchAt(s, p).value.1
    ensures MatchAt(s, q).None?
  {
    var w, e := MatchAtPieces(s, p);
    NoMarkerInside(s, p, q, w, e);
  }

  /** No attempt that matches starts inside another match. */
  ghost predicate Disjoint(a: seq<Attempt>) {
    forall p, q :: 0 <= p < q < |a| && a[p].Some? && q < a[p].value.1 ==> a[q].None?
  }

  /** The matches of score_re never overlap. */
  lemma AttemptsDisjoint(s: string)
    ensures Disjoint(Attempts(s))
  {
    forall p, q | 0 <= p < q < |s| && Attempts(s)[p].Some? && q < Attempts(s)[p].value.1
      ensures Attempts(s)[q].None?
    {
      AttemptAt(s, p);
      AttemptAt(s, q);
      NoMatchInsideMatch(s, p, q);
    }
  }

  /** Positions without a match contribute nothing to the reference list. */
  lemma {:induction false} SkipUnmatched(a: seq<Attempt>, i: nat, j: nat)
    requires i <= j <= |a|
    requires forall q :: i <= q < j ==> a[q].None?
    ensures Collect(a, i) == Collect(a, j)
    decreases j - i
  {
    if i < j {
      SkipUnmatched(a, i + 1, j);
    }
  }

  /** The search passes over positions without a match. */
  lemma {:induction false} ScanSkips(a: seq<Attempt>, i: nat, j: nat)
    requires i <= j <= |a| && Advancing(a)
    requires forall q :: i <= q < j ==> a[q].None?
    ensures Scan(a, i) == Scan(a, j)
    decreases j - i
  {
    if i < j {
      ScanSkips(a, i + 1, j);
    }
  }

  /** When matches do not overlap, finditer, which resumes after each match, yields exactly
      the captures of every position. */
  lemma {:induction false} ScanMissesNothing(a: seq<Attempt>, p: nat)
    requires p <= |a| && Advancing(a) && Disjoint(a)
    ensures Scan(a, p) == Collect(a, p)
    decreases |a| - p
  {
    if p < |a| {
      match a[p]
      case Some((x, e)) =>
        SkipUnmatched(a, p + 1, e);
        ScanMissesNothing(a, e);
      case None =>
        ScanMissesNothing(a, p + 1);
    }
  }

  /** finditer over the content yields the score of every position where score_re matches. */
  lemma FindScoresMissesNothing(s: string, p: nat)
    requires p <= |s|
    ensures FindScores(s, p) == MarkerScores(s, p)
  {
    AttemptsDisjoint(s);
    ScanMissesNothing(Attempts(s), p);
  }

  /** parse_scores_from_output returns one score per marker that is followed by a number,
      in order of position. */
  lemma ParseScoresInPositionOrder(content: string)
    ensures ParseScoresFromOutput(content) == MarkerScores(content, 0)
  {
    FindScoresMissesNothing(content, 0);
  }

  /** Every entry of the reference list from p is the capture of a match at some position q
      at or after p. */
  lemma {:induction false} CollectedAreCaptures(a: seq<Attempt>, p: nat, i: nat) returns (q: nat)
    requires p <= |a| && i < |Collect(a, p)|
    ensures p <= q < |a| && a[q].Some? && a[q].value.0 == Collect(a, p)[i]
    decreases |a| - p
  {
    if a[p].Some? && i == 0 {
      q := p;
    } else {
      var j := if a[p].Some? then i - 1 else i;
      assert Collect(a, p)[i] == Collect(a, p + 1)[j];
      q := CollectedAreCaptures(a, p + 1, j);
    }
  }

  /** Every parsed score is a word of the number grammar. */
  lemma ScoresAreNumbers(content: string)
    ensures forall i :: 0 <= i < |ParseScoresFromOutput(content)| ==> IsReal(ParseScoresFromOutput(content)[i])
  {
    ParseScoresInPositionOrder(content);
    forall i | 0 <= i < |ParseScoresFromOutput(content)|
      ensures IsReal(ParseScoresFromOutput(content)[i])
    {
      var q := CollectedAreCaptures(Attempts(content), 0, i);
      AttemptAt(content, q);
      MatchAtSound(content, q);
    }
  }

  /** Content without the marker yields an empty list rather than an error. */
  lemma NoMarkerNoScores(content: string)
    requires forall p :: 0 <= p <= |content| ==> !MarkerAt(content, p)
    ensures ParseScoresFromOutput(content) == []
  {
    forall q | 0 <= q < |content|
      ensures Attempts(content)[q].None?
    {
      AttemptAt(content, q);
    }
    ScanSkips(Attempts(content), 0, |content|);
  }

  // ---------------------------------------------------------------------------
  // Result lines.
  // ---------------------------------------------------------------------------

  /** t holds no 'R', the letter every marker starts with. */
  predicate NoMarkerLetter(t: string) {
    forall q :: 0 <= q < |t| ==> t[q] != 'R'
  }

  /** Text without an 'R' holds no marker, so the search passes over it without a score. */
  lemma SkipNoMarkerLetter(s: string, i: nat, j: nat)
    requires i <= j <= |s|
    requires forall q :: i <= q < j ==> s[q] != 'R'
    ensures FindScores(s, i) == FindScores(s, j)
  {
    forall q | i <= q < j
      ensures Attempts(s)[q].None?
    {
      AttemptAt(s, q);
      assert !MarkerAt(s, q) by {
        if q + |Marker| <= |s| {
          assert s[q..q + |Marker|][0] == s[q];
        }
      }
    }
    ScanSkips(Attempts(s), i, j);
  }

  /** The outcome of score_re at p once the whitespace and the number are known. */
  lemma MatchAtIs(s: string, p: nat, w: nat, e: nat)
    requires MarkerAt(s, p) && w < e
    requires SpaceEnd(s, p + |Marker|) == w && RealEnd(s, w) == e
    ensures MatchAt(s, p) == Some((s[w..e], e))
  {
  }

  /** Where the marker, the whitespace w, the number x and the rest sit when s[p..] is their
      concatenation. */
  lemma PoseSlices(s: string, p: nat, w: string, x: string, rest: string) returns (W: nat, e: nat)
    requires p <= |s| && s[p..] == Marker + (w + (x + rest))
    ensures W == p + |Marker| + |w| && e == W + |x| && e <= |s|
    ensures MarkerAt(s, p) && s[p + |Marker|..W] == w && s[W..e] == x && s[e..] == rest
    ensures rest != [] ==> s[e] == rest[0]
  {
    W := p + |Marker| + |w|;
    e := W + |x|;
    Peel(s, p, Marker, w + (x + rest));
    Peel(s, p + |Marker|, w, x + rest);
    Peel(s, W, x, rest);
    if rest != [] {
      assert s[e] == s[e..][0];
    }
  }

  /** Whitespace from the end of the marker up to W, then a number up to e that the next
      character cannot extend: the runs after the marker end exactly at W and e. */
  lemma PoseRuns(s: string, p: nat, W: nat, e: nat)
    requires p + |Marker| <= W <= e <= |s|
    requires AllSpace(s[p + |Marker|..W]) && IsReal(s[W..e]) && (e == |s| || !IsRealChar(s[e]))
    ensures W < e && SpaceEnd(s, p + |Marker|) == W && RealEnd(s, W) == e
  {
    SpaceBeforeNumber(s, p + |Marker|, W, e);
    RealEndExact(s, W, e);
  }

  /** A marker at p, then whitespace w, then a number x that the next character cannot extend:
      the search reports x and resumes right after it. */
  lemma PoseAt(s: string, p: nat, w: string, x: string, rest: string) returns (e: nat)
    requires p <= |s| && s[p..] == Marker + (w + (x + rest))
    requires AllSpace(w) && IsReal(x) && (rest == [] || !IsRealChar(rest[0]))
    ensures e == p + |Marker| + |w| + |x| && e <= |s| && s[e..] == rest
    ensures FindScores(s, p) == [x] + FindScores(s, e)
  {
    var W;
    W, e := PoseSlices(s, p, w, x, rest);
    PoseRuns(s, p, W, e);
    ReportAt(s, p, W, e, x);
  }

  /** The search at p once the whitespace and the number after the marker are known: it
      reports the number and resumes after it. */
  lemma ReportAt(s: string, p: nat, w: nat, e: nat, x: string)
    requires MarkerAt(s, p) && w < e
    requires SpaceEnd(s, p + |Marker|) == w && RealEnd(s, w) == e && s[w..e] == x
    ensures FindScores(s, p) == [x] + FindScores(s, e)
  {
    MatchAtIs(s, p, w, e);
    FindScoresAtMatch(s, p, x, e);
  }

  /** After a match at p the search reports its capture and resumes where the match ended. */
  lemma FindScoresAtMatch(s: string, p: nat, x: string, e: nat)
    requires p < |s| && MatchAt(s, p) == Some((x, e))
    ensures FindScores(s, p) == [x] + FindScores(s, e)
  {
    AttemptAt(s, p);
  }

  /** A whole result line at p: the marker, whitespace w, the score x, and the rest of the line,
      which holds no 'R'. The search reports x and goes on after the line. */
  lemma ResultLineAt(s: string, p: nat, w: string, x: string, rest: string, tail: string) returns (e: nat)
    requires p <= |s| && s[p..] == Marker + (w + (x + (rest + tail)))
    requires AllSpace(w) && IsReal(x) && rest != [] && !IsRealChar(rest[0]) && NoMarkerLetter(rest)
    ensures e == p + |Marker| + |w| + |x| + |rest| && e <= |s| && s[e..] == tail
    ensures FindScores(s, p) == [x] + FindScores(s, e)
  {
    var f := PoseAt(s, p, w, x, rest + tail);
    Peel(s, f, rest, tail);
    e := f + |rest|;
    forall q | f <= q < e
      ensures s[q] != 'R'
    {
      assert s[q] == s[f..e][q - f];
    }
    SkipNoMarkerLetter(s, f, e);
  }

  /** The text after the marker on the first result line of the example below: whitespace, a
      score and a rest without `R`. */
  lemma Line1Shape()
    ensures "    -7.2  0.000  0.000\n" == "    " + ("-7.2" + "  0.000  0.000\n")
  {
  }

  /** The same for the second result line. */
  lemma Line2Shape()
    ensures "    -6.8  1.200  1.500\n" == "    " + ("-6.8" + "  1.200  1.500\n")
  {
  }

  /** The scores of the two result lines are numbers, after whitespace. */
  lemma LineNumbers()
    ensures AllSpace("    ") && IsReal("-7.2") && IsReal("-6.8")
  {
    RealIntro("-7.2", "-", "7", ".", "2", []);
    RealIntro("-6.8", "-", "6", ".", "8", []);
  }

  /** The rests of the two result lines hold no `R`. */
  lemma LineRests()
    ensures NoMarkerLetter("  0.000  0.000\n") && NoMarkerLetter("  1.200  1.500\n")
  {
  }

  /** A line cut into marker, whitespace, score and rest, followed by any text t. */
  lemma LineThen(after: string, w: string, x: string, rest: string, t: string)
    requires after == w + (x + rest)
    ensures (Marker + after) + t == Marker + (w + (x + (rest + t)))
  {
  }

  /** Two result lines give their two scores, in order; the other numbers on each line are
      not read. */
  lemma TwoPosesExample()
    ensures ParseScoresFromOutput(
        Marker + "    -7.2  0.000  0.000\n" + Marker + "    -6.8  1.200  1.500\n")
      == ["-7.2", "-6.8"]
  {
    var line1 := Marker + "    -7.2  0.000  0.000\n";
    var line2 := Marker + "    -6.8  1.200  1.500\n";
    var s := line1 + line2;
    assert s == Marker + "    -7.2  0.000  0.000\n" + Marker + "    -6.8  1.200  1.500\n";
    LineNumbers();
    LineRests();
    Line1Shape();
    LineThen("    -7.2  0.000  0.000\n", "    ", "-7.2", "  0.000  0.000\n", line2);
    assert s[0..] == s;
    var e1 := ResultLineAt(s, 0, "    ", "-7.2", "  0.000  0.000\n", line2);
    Line2Shape();
    LineThen("    -6.8  1.200  1.500\n", "    ", "-6.8", "  1.200  1.500\n", []);
    assert line2 + [] == line2;
    var e2 := ResultLineAt(s, e1, "    ", "-6.8", "  1.200  1.500\n", []);
  }
}
