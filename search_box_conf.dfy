/** `conf_re` and `parse_search_box_conf` of dockstring/utils.py: the file's lines are matched
    one by one against `^\w+\s*=\s*<number>\s*\n$`, accepted lines are written into a dictionary
    (a later line overwrites an earlier one with the same key), and the dictionary must end with
    exactly six keys. The file's content is the input string; values are kept as lexemes. */
module SearchBoxConf {
  import opened Errors
  import opened Lexical
  import opened RealNumber

  // ---------------------------------------------------------------------------
  // readlines(): each line keeps its '\n'; the last one may lack it.
  // ---------------------------------------------------------------------------

  /** A line as readlines() returns it: non-empty, with a newline at most at its end. */
  predicate IsLine(l: string) {
    l != [] && forall q :: 0 <= q < |l| - 1 ==> l[q] != '\n'
  }

  predicate EndsWithNewline(l: string) {
    l != [] && l[|l| - 1] == '\n'
  }

  function Concat(lines: seq<string>): string {
    if lines == [] then [] else lines[0] + Concat(lines[1..])
  }

  /** Length of the first line of s, its newline included. */
  function FirstLineLength(s: string): (n: nat)
    ensures n <= |s| && (s != [] ==> n > 0)
    ensures forall q :: 0 <= q < n - 1 ==> s[q] != '\n'
    ensures n < |s| ==> s[n - 1] == '\n'
  {
    if s == [] then 0 else if s[0] == '\n' then 1 else 1 + FirstLineLength(s[1..])
  }

  /** `f.readlines()` on content s. */
  function ReadLines(s: string): (lines: seq<string>)
    ensures Concat(lines) == s
    ensures forall i :: 0 <= i < |lines| ==> IsLine(lines[i])
    ensures forall i :: 0 <= i < |lines| - 1 ==> EndsWithNewline(lines[i])
    decreases |s|
  {
    if s == [] then []
    else
      var n := FirstLineLength(s);
      assert s == s[..n] + s[n..];
      [s[..n]] + ReadLines(s[n..])
  }

  /** The first line of l + t is l when l is a line that ends the text or ends with a newline. */
  lemma {:induction false} FirstLineOf(l: string, t: string)
    requires IsLine(l) && (EndsWithNewline(l) || t == [])
    ensures FirstLineLength(l + t) == |l|
    decreases |l|
  {
    var s := l + t;
    if |l| > 1 {
      assert s[0] == l[0] != '\n';
      assert s[1..] == l[1..] + t;
      FirstLineOf(l[1..], t);
    } else if t != [] {
      assert s[0] == '\n';
    }
  }

  /** Splitting the concatenation of lines gives back those lines: ReadLines inverts Concat. */
  lemma {:induction false} ReadLinesConcat(lines: seq<string>)
    requires forall i :: 0 <= i < |lines| ==> IsLine(lines[i])
    requires forall i :: 0 <= i < |lines| - 1 ==> EndsWithNewline(lines[i])
    ensures ReadLines(Concat(lines)) == lines
  {
    if lines != [] {
      var s := Concat(lines);
      FirstLineOf(lines[0], Concat(lines[1..]));
      assert s[..|lines[0]|] == lines[0];
      assert s[|lines[0]|..] == Concat(lines[1..]);
      ReadLinesConcat(lines[1..]);
    }
  }

  // ---------------------------------------------------------------------------
  // conf_re on one line.
  // ---------------------------------------------------------------------------

  /** `conf_re.match(line)`: the key and the value lexeme of an accepted line. */
  function MatchConfLine(line: string): (r: Option<(string, string)>)
    ensures r.Some? ==> r.value.0 != [] && r.value.1 != [] && |r.value.0| + |r.value.1| < |line|
    ensures r.Some? ==> r.value.0 == line[..|r.value.0|] && line[|line| - 1] == '\n'
  {
    var k := WordEnd(line, 0);
    var a := SpaceEnd(line, k);
    if k == 0 || a == |line| || line[a] != '=' then None
    else
      var b := SpaceEnd(line, a + 1);
      var c := RealEnd(line, b);
      if b < c && c < |line| && SpaceEnd(line, c) == |line| && line[|line| - 1] == '\n' then
        Some((line[..k], line[b..c]))
      else None
  }

  /** The shape conf_re accepts: key, optional whitespace, '=', optional whitespace, a number,
      optional whitespace and the final newline. */
  ghost predicate ConfLine(line: string, key: string, value: string) {
    exists w1, w2, w3 ::
      && line == key + (w1 + (['='] + (w2 + (value + (w3 + ['\n'])))))
      && key != [] && AllWord(key) && AllSpace(w1) && AllSpace(w2) && IsReal(value) && AllSpace(w3)
  }

  /** Positions 0 < k <= a < b < c < |line| cut the line into conf_re's parts: the key [0, k),
      whitespace [k, a), '=' at a, whitespace (a, b), the number [b, c), whitespace [c, |line| - 1)
      and the final newline. */
  ghost predicate ConfSplit(line: string, k: nat, a: nat, b: nat, c: nat) {
    && 0 < k <= a < b < c < |line|
    && (forall q :: 0 <= q < k ==> IsWordChar(line[q]))
    && (forall q :: k <= q < a ==> IsSpace(line[q]))
    && line[a] == '='
    && (forall q :: a < q < b ==> IsSpace(line[q]))
    && IsReal(line[b..c])
    && (forall q :: c <= q < |line| - 1 ==> IsSpace(line[q]))
    && line[|line| - 1] == '\n'
  }

  /** Where the matcher's runs end on an accepted line, and what it captures there. */
  lemma MatchRuns(line: string) returns (k: nat, a: nat, b: nat, c: nat)
    requires MatchConfLine(line).Some?
    ensures k == WordEnd(line, 0) && a == SpaceEnd(line, k) && b == SpaceEnd(line, a + 1) && c == RealEnd(line, b)
    ensures 0 < k && a < b < c < |line| && line[a] == '='
    ensures SpaceEnd(line, c) == |line| && line[|line| - 1] == '\n'
    ensures MatchConfLine(line).value == (line[..k], line[b..c])
  {
    k := WordEnd(line, 0);
    a := SpaceEnd(line, k);
    b := SpaceEnd(line, a + 1);
    c := RealEnd(line, b);
  }

  /** Runs ending where the matcher found them cut the line into conf_re's parts. */
  lemma SplitOfRuns(line: string, k: nat, a: nat, b: nat, c: nat)
    requires k == WordEnd(line, 0) && a == SpaceEnd(line, k) && a < |line| && line[a] == '='
    requires b == SpaceEnd(line, a + 1) && c == RealEnd(line, b)
    requires 0 < k && b < c < |line| && SpaceEnd(line, c) == |line| && line[|line| - 1] == '\n'
    ensures ConfSplit(line, k, a, b, c)
  {
    WordRun(line, 0);
    SpaceRun(line, k);
    SpaceRun(line, a + 1);
    SpaceRun(line, c);
    RealEndSound(line, b);
  }

  /** An accepted line is cut into conf_re's parts at the positions the matcher found. */
  lemma SplitOfMatch(line: string) returns (k: nat, a: nat, b: nat, c: nat)
    requires MatchConfLine(line).Some?
    ensures ConfSplit(line, k, a, b, c)
    ensures MatchConfLine(line).value == (line[..k], line[b..c])
  {
    k, a, b, c := MatchRuns(line);
    SplitOfRuns(line, k, a, b, c);
  }

  /** The matcher accepts once the ends of its runs are known to fit. */
  lemma Accepts(line: string, k: nat, a: nat, b: nat, c: nat)
    requires 0 < k && a < b < c < |line|
    requires WordEnd(line, 0) == k && SpaceEnd(line, k) == a && line[a] == '='
    requires SpaceEnd(line, a + 1) == b && RealEnd(line, b) == c
    requires SpaceEnd(line, c) == |line| && line[|line| - 1] == '\n'
    ensures MatchConfLine(line).Some?
  {
  }

  /** The matcher's outcome once the ends of its runs are known to fit. */
  lemma MatchConfLineAt(line: string, k: nat, a: nat, b: nat, c: nat)
    requires 0 < k && a < b < c < |line|
    requires WordEnd(line, 0) == k && SpaceEnd(line, k) == a && line[a] == '='
    requires SpaceEnd(line, a + 1) == b && RealEnd(line, b) == c
    requires SpaceEnd(line, c) == |line| && line[|line| - 1] == '\n'
    ensures MatchConfLine(line) == Some((line[..k], line[b..c]))
  {
    Accepts(line, k, a, b, c);
    var k', a', b', c' := MatchRuns(line);
  }

  /** The whitespace and word runs of a cut line end where the cut says. */
  lemma SpaceRunsOfSplit(line: string, k: nat, a: nat, b: nat, c: nat)
    requires ConfSplit(line, k, a, b, c)
    ensures WordEnd(line, 0) == k && SpaceEnd(line, k) == a && SpaceEnd(line, a + 1) == b
    ensures SpaceEnd(line, c) == |line|
  {
    WordEndExact(line, 0, k);
    SpaceEndExact(line, k, a);
    RealChars(line[b..c]);
    assert line[b] == line[b..c][0];
    SpaceEndExact(line, a + 1, b);
    SpaceEndExact(line, c, |line|);
  }

  /** The runs of a cut line end where the cut says. */
  lemma RunsOfSplit(line: string, k: nat, a: nat, b: nat, c: nat)
    requires ConfSplit(line, k, a, b, c)
    ensures WordEnd(line, 0) == k && SpaceEnd(line, k) == a && SpaceEnd(line, a + 1) == b
    ensures RealEnd(line, b) == c && SpaceEnd(line, c) == |line|
  {
    SpaceRunsOfSplit(line, k, a, b, c);
    RealEndExact(line, b, c);
  }

  /** A line cut into conf_re's parts is accepted, with the key and number of the cut. */
  lemma MatchOfSplit(line: string, k: nat, a: nat, b: nat, c: nat)
    requires ConfSplit(line, k, a, b, c)
    ensures MatchConfLine(line) == Some((line[..k], line[b..c]))
  {
    RunsOfSplit(line, k, a, b, c);
    MatchConfLineAt(line, k, a, b, c);
  }

  /** A line is the concatenation of the pieces a cut marks. */
  lemma ConcatOfSplit(line: string, k: nat, a: nat, b: nat, c: nat)
    requires k <= a < b <= c < |line| && line[a] == '=' && line[|line| - 1] == '\n'
    ensures line == line[..k] + (line[k..a] + (['='] + (line[a + 1..b] + (line[b..c] + (line[c..|line| - 1] + ['\n'])))))
  {
    var L := |line|;
    assert line[c..] == line[c..L - 1] + ['\n'];
    assert line[b..] == line[b..c] + line[c..];
    assert line[a + 1..] == line[a + 1..b] + line[b..];
    assert line[a..] == ['='] + line[a + 1..];
    assert line[k..] == line[k..a] + line[a..];
    assert line == line[..k] + line[k..];
  }

  /** The pieces a cut marks are a key, whitespace and whitespace. */
  lemma PiecesOfSplit(line: string, k: nat, a: nat, b: nat, c: nat)
    requires ConfSplit(line, k, a, b, c)
    ensures line[..k] != [] && AllWord(line[..k]) && AllSpace(line[k..a])
    ensures AllSpace(line[a + 1..b]) && AllSpace(line[c..|line| - 1])
  {
    var L := |line|;
    var key, w1, w2, w3 := line[..k], line[k..a], line[a + 1..b], line[c..L - 1];
    forall q | 0 <= q < |key| ensures IsWordChar(key[q]) { assert key[q] == line[q]; }
    forall q | 0 <= q < |w1| ensures IsSpace(w1[q]) { assert w1[q] == line[k + q]; }
    forall q | 0 <= q < |w2| ensures IsSpace(w2[q]) { assert w2[q] == line[a + 1 + q]; }
    forall q | 0 <= q < |w3| ensures IsSpace(w3[q]) { assert w3[q] == line[c + q]; }
  }

  /** A cut line has the shape of conf_re. */
  lemma ConfLineOfSplit(line: string, k: nat, a: nat, b: nat, c: nat)
    requires ConfSplit(line, k, a, b, c)
    ensures ConfLine(line, line[..k], line[b..c])
  {
    ConcatOfSplit(line, k, a, b, c);
    PiecesOfSplit(line, k, a, b, c);
    ConfLineIntro(line, line[..k], line[k..a], line[a + 1..b], line[b..c], line[c..|line| - 1]);
  }

  lemma ConfLineIntro(line: string, key: string, w1: string, w2: string, value: string, w3: string)
    requires line == key + (w1 + (['='] + (w2 + (value + (w3 + ['\n'])))))
    requires key != [] && AllWord(key) && AllSpace(w1) && AllSpace(w2) && IsReal(value) && AllSpace(w3)
    ensures ConfLine(line, key, value)
  {
  }

  /** Where the key, the first whitespace and the '=' sit in key + w1 + '=' + rest. */
  lemma HeadSegments(line: string, key: string, w1: string, rest: string)
    requires line == key + (w1 + (['='] + rest))
    ensures |key| + |w1| < |line|
    ensures line[..|key|] == key && line[|key|..|key| + |w1|] == w1
    ensures line[|key| + |w1|] == '=' && line[|key| + |w1| + 1..] == rest
  {
    var k, a := |key|, |key| + |w1|;
    assert line[0..] == line;
    Peel(line, 0, key, w1 + (['='] + rest));
    Peel(line, k, w1, ['='] + rest);
    Peel(line, a, ['='], rest);
    assert line[a] == line[a..a + 1][0];
  }

  /** Where the second whitespace, the number, the last whitespace and the newline sit when
      line[p..] is w2 + value + w3 + '\n'. */
  lemma TailSegments(line: string, p: nat, w2: string, value: string, w3: string)
    requires p <= |line| && line[p..] == w2 + (value + (w3 + ['\n']))
    ensures |line| == p + |w2| + |value| + |w3| + 1
    ensures line[p..p + |w2|] == w2 && line[p + |w2|..p + |w2| + |value|] == value
    ensures line[p + |w2| + |value|..|line| - 1] == w3 && line[|line| - 1] == '\n'
  {
    var b, c := p + |w2|, p + |w2| + |value|;
    Peel(line, p, w2, value + (w3 + ['\n']));
    Peel(line, b, value, w3 + ['\n']);
    Peel(line, c, w3, ['\n']);
    assert line[|line| - 1] == line[c + |w3|..][0];
  }

  /** The whitespace runs of a line of the shape of conf_re. */
  lemma ConfWitnesses(line: string, key: string, value: string) returns (w1: string, w2: string, w3: string)
    requires ConfLine(line, key, value)
    ensures line == key + (w1 + (['='] + (w2 + (value + (w3 + ['\n'])))))
    ensures key != [] && AllWord(key) && AllSpace(w1) && AllSpace(w2) && IsReal(value) && AllSpace(w3)
  {
    w1, w2, w3 :|
      && line == key + (w1 + (['='] + (w2 + (value + (w3 + ['\n'])))))
      && key != [] && AllWord(key) && AllSpace(w1) && AllSpace(w2) && IsReal(value) && AllSpace(w3);
  }

  /** Where the parts of key + w1 + '=' + w2 + value + w3 + '\n' sit. */
  lemma ConfParts(line: string, key: string, w1: string, w2: string, value: string, w3: string)
    returns (k: nat, a: nat, b: nat, c: nat)
    requires line == key + (w1 + (['='] + (w2 + (value + (w3 + ['\n'])))))
    ensures k == |key| && a == k + |w1| && b == a + 1 + |w2| && c == b + |value| && |line| == c + |w3| + 1
    ensures line[..k] == key && line[k..a] == w1 && line[a] == '=' && line[a + 1..b] == w2
    ensures line[b..c] == value && line[c..|line| - 1] == w3 && line[|line| - 1] == '\n'
  {
    k := |key|;
    a := k + |w1|;
    b := a + 1 + |w2|;
    c := b + |value|;
    HeadSegments(line, key, w1, w2 + (value + (w3 + ['\n'])));
    TailSegments(line, a + 1, w2, value, w3);
  }

  /** A line whose pieces are a key, whitespace, '=', whitespace, a number, whitespace and the
      final newline is cut into those pieces. */
  lemma SplitOfParts(line: string, k: nat, a: nat, b: nat, c: nat)
    requires k <= a < b <= c < |line|
    requires line[..k] != [] && AllWord(line[..k]) && AllSpace(line[k..a]) && line[a] == '='
    requires AllSpace(line[a + 1..b]) && IsReal(line[b..c])
    requires AllSpace(line[c..|line| - 1]) && line[|line| - 1] == '\n'
    ensures ConfSplit(line, k, a, b, c)
  {
    RealChars(line[b..c]);
    AllWordAt(line, 0, k);
    AllSpaceAt(line, k, a);
    AllSpaceAt(line, a + 1, b);
    AllSpaceAt(line, c, |line| - 1);
  }

  /** What the matcher accepts has the shape of conf_re. */
  lemma MatchConfLineSound(line: string)
    requires MatchConfLine(line).Some?
    ensures ConfLine(line, MatchConfLine(line).value.0, MatchConfLine(line).value.1)
  {
    var k, a, b, c := SplitOfMatch(line);
    ConfLineOfSplit(line, k, a, b, c);
  }

  /** Every line of the shape of conf_re is accepted, with exactly its key and value. */
  lemma MatchConfLineComplete(line: string, key: string, value: string)
    requires ConfLine(line, key, value)
    ensures MatchConfLine(line) == Some((key, value))
  {
    var w1, w2, w3 := ConfWitnesses(line, key, value);
    var k, a, b, c := ConfParts(line, key, w1, w2, value, w3);
    SplitOfParts(line, k, a, b, c);
    MatchOfSplit(line, k, a, b, c);
  }

  /** conf_re accepts a line iff the line has its shape; the captures are then determined. */
  lemma MatchConfLineIff(line: string, key: string, value: string)
    ensures MatchConfLine(line) == Some((key, value)) <==> ConfLine(line, key, value)
  {
    if MatchConfLine(line) == Some((key, value)) {
      MatchConfLineSound(line);
    }
    if ConfLine(line, key, value) {
      MatchConfLineComplete(line, key, value);
    }
  }

  /** A line with leading whitespace is skipped. */
  lemma LeadingWhitespaceRejected(line: string)
    requires line != [] && IsSpace(line[0])
    ensures MatchConfLine(line).None?
  {
  }

  /** A last line without its newline is skipped. */
  lemma MissingNewlineRejected(line: string)
    requires line != [] && line[|line| - 1] != '\n'
    ensures MatchConfLine(line).None?
  {
  }

  /** A key = value line with a signed decimal is accepted. */
  lemma CenterLineExample()
    ensures MatchConfLine("center_x = -12.5\n") == Some(("center_x", "-12.5"))
  {
    RealIntro("-12.5", "-", "12", ".", "5", []);
    assert "center_x = -12.5\n" == "center_x" + (" " + (['='] + (" " + ("-12.5" + ([] + ['\n'])))));
    ConfLineIntro("center_x = -12.5\n", "center_x", " ", " ", "-12.5", []);
    MatchConfLineComplete("center_x = -12.5\n", "center_x", "-12.5");
  }

  /** An uppercase exponent is not part of the number, so the line is skipped. */
  lemma UppercaseExponentExample()
    ensures MatchConfLine("size_x = 1E5\n").None?
  {
    var line := "size_x = 1E5\n";
    WordEndExact(line, 0, 6);
    SpaceEndExact(line, 6, 7);
    SpaceEndExact(line, 8, 9);
    RealIntro(line[9..10], [], [], [], "1", []);
    RealEndExact(line, 9, 10);
    SpaceEndExact(line, 10, 10);
  }

  // ---------------------------------------------------------------------------
  // The dictionary.
  // ---------------------------------------------------------------------------

  /** What conf_re.match gave on one line: the key and value, or nothing. */
  type Outcome = Option<(string, string)>

  /** conf_re.match on each line, in order. */
  function ConfMatches(lines: seq<string>): (ms: seq<Outcome>)
    ensures |ms| == |lines|
  {
    if lines == [] then [] else [MatchConfLine(lines[0])] + ConfMatches(lines[1..])
  }

  lemma {:induction false} ConfMatchesAt(lines: seq<string>, j: nat)
    requires j < |lines|
    ensures ConfMatches(lines)[j] == MatchConfLine(lines[j])
  {
    if j > 0 {
      ConfMatchesAt(lines[1..], j - 1);
    }
  }

  /** The keys of the accepted lines. */
  function AcceptedKeys(ms: seq<Outcome>): set<string> {
    set j | 0 <= j < |ms| && ms[j].Some? :: ms[j].value.0
  }

  /** Line j is accepted with key k. */
  predicate HasKey(ms: seq<Outcome>, j: nat, k: string)
    requires j < |ms|
  {
    ms[j].Some? && ms[j].value.0 == k
  }

  /** Each key of d holds the value of the last accepted line with that key. */
  ghost predicate LastWriteWins(ms: seq<Outcome>, d: map<string, string>) {
    forall k | k in d :: exists j ::
      && 0 <= j < |ms| && ms[j] == Some((k, d[k]))
      && forall j' :: j < j' < |ms| ==> !HasKey(ms, j', k)
  }

  /** The dictionary after one line's outcome is written into it. */
  function Record(d: map<string, string>, m: Outcome): map<string, string> {
    match m
    case Some((k, v)) => d[k := v]
    case None => d
  }

  /** `parse_search_box_conf`: the dictionary of the accepted lines when it has six keys. */
  method ParseSearchBoxConf(content: string) returns (r: Result<map<string, string>>)
    ensures r.Ok? <==> |AcceptedKeys(ConfMatches(ReadLines(content)))| == 6
    ensures r.Ok? ==> r.value.Keys == AcceptedKeys(ConfMatches(ReadLines(content)))
    ensures r.Ok? ==> LastWriteWins(ConfMatches(ReadLines(content)), r.value)
    ensures r.Raised? ==> r.exc == AssertionError
  {
    var lines := ReadLines(content);
    ghost var ms := ConfMatches(lines);
    var d: map<string, string> := map[];
    for i := 0 to |lines|
      invariant d.Keys == AcceptedKeys(ms[..i])
      invariant LastWriteWins(ms[..i], d)
    {
      var m := MatchConfLine(lines[i]);
      ConfMatchesAt(lines, i);
      RecordStep(ms, i, d);
      match m {
        case Some((k, v)) =>
          d := d[k := v];
        case None =>
      }
    }
    assert ms[..|lines|] == ms;
    if |d| == 6 {
      r := Ok(d);
    } else {
      r := Raised(AssertionError);
    }
  }

  /** Writing line i's outcome keeps the dictionary equal to what the first i + 1 lines give. */
  lemma RecordStep(ms: seq<Outcome>, i: nat, d: map<string, string>)
    requires i < |ms|
    requires d.Keys == AcceptedKeys(ms[..i]) && LastWriteWins(ms[..i], d)
    ensures Record(d, ms[i]).Keys == AcceptedKeys(ms[..i + 1])
    ensures LastWriteWins(ms[..i + 1], Record(d, ms[i]))
  {
    var pre, post := ms[..i], ms[..i + 1];
    assert forall j :: 0 <= j < i ==> post[j] == pre[j];
    assert post[i] == ms[i];
    var d' := Record(d, ms[i]);
    forall k | k in d'
      ensures exists j ::
        && 0 <= j < |post| && post[j] == Some((k, d'[k]))
        && forall j' :: j < j' < |post| ==> !HasKey(post, j', k)
    {
      if ms[i].Some? && ms[i].value.0 == k {
        assert post[i] == Some((k, d'[k]));
      } else {
        var j :| && 0 <= j < |pre| && pre[j] == Some((k, d[k]))
                 && forall j' :: j < j' < |pre| ==> !HasKey(pre, j', k);
        assert post[j] == Some((k, d'[k]));
        forall j' | j < j' < |post|
          ensures !HasKey(post, j', k)
        {
          if j' < i {
            assert !HasKey(pre, j', k);
          }
        }
      }
    }
  }
}
