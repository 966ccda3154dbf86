/** The real-number lexeme `[-+]?[0-9]*\.?[0-9]+(e[-+]?[0-9]+)?` that both parsers of
    dockstring/utils.py share (`real_number_pattern`), as a grammar and as a greedy recogniser. */
module RealNumber {
  import opened Lexical

  // ---------------------------------------------------------------------------
  // The grammar, one predicate per piece of the pattern.
  // ---------------------------------------------------------------------------

  /** `[-+]?` */
  predicate OptSign(t: string) { t == [] || t == ['+'] || t == ['-'] }

  /** `\.?` */
  predicate OptPoint(t: string) { t == [] || t == ['.'] }

  /** `[0-9]+` */
  predicate Digits1(t: string) { t != [] && AllDigits(t) }

  /** `(e[-+]?[0-9]+)?`, with a lower-case `e` only. */
  ghost predicate OptExponent(t: string) {
    t == [] || exists sg, ds :: t == ['e'] + sg + ds && OptSign(sg) && Digits1(ds)
  }

  /** t is a whole word of the pattern. */
  ghost predicate IsReal(t: string) {
    exists sg, ip, pt, fp, ex ::
      && t == sg + ip + pt + fp + ex
      && OptSign(sg) && AllDigits(ip) && OptPoint(pt) && Digits1(fp) && OptExponent(ex)
  }

  /** The only characters a lexeme can hold. */
  predicate IsRealChar(c: char) {
    IsDigit(c) || c == '+' || c == '-' || c == '.' || c == 'e'
  }

  // ---------------------------------------------------------------------------
  // The recogniser.
  // ---------------------------------------------------------------------------

  function SignEnd(s: string, i: nat): (r: nat)
    requires i <= |s|
    ensures i <= r <= |s|
  {
    if i < |s| && (s[i] == '+' || s[i] == '-') then i + 1 else i
  }

  /** End of the exponent that starts at m, or m when no complete exponent starts there. */
  function ExponentEnd(s: string, m: nat): (r: nat)
    requires m <= |s|
    ensures m <= r <= |s|
  {
    if m < |s| && s[m] == 'e' then
      var e := SignEnd(s, m + 1);
      var f := DigitsEnd(s, e);
      if e < f then f else m
    else m
  }

  /** End of `[0-9]*\.?[0-9]+` read from a: the digit run, then a point and its digits when a
      digit follows the point. Equal to a when no digit is read. */
  function MantissaEnd(s: string, a: nat): (m: nat)
    requires a <= |s|
    ensures a <= m <= |s|
  {
    var b := DigitsEnd(s, a);
    if b + 1 < |s| && s[b] == '.' && IsDigit(s[b + 1]) then DigitsEnd(s, b + 1) else b
  }

  /** End of the match of the pattern at position i of s: the end of the longest number
      starting at i, or i itself when none does. */
  function RealEnd(s: string, i: nat): (r: nat)
    requires i <= |s|
    ensures i <= r <= |s|
  {
    var a := SignEnd(s, i);
    var m := MantissaEnd(s, a);
    if m == a then i else ExponentEnd(s, m)
  }

  // ---------------------------------------------------------------------------
  // The recogniser returns exactly the longest prefix in the grammar.
  // ---------------------------------------------------------------------------

  /** Introduces a word of the grammar from its five pieces. */
  lemma RealIntro(t: string, sg: string, ip: string, pt: string, fp: string, ex: string)
    requires t == sg + ip + pt + fp + ex
    requires OptSign(sg) && AllDigits(ip) && OptPoint(pt) && Digits1(fp) && OptExponent(ex)
    ensures IsReal(t)
  {
  }

  /** Introduces an exponent from the positions of its marker, sign and digits. */
  lemma ExponentIntro(s: string, m: nat, e: nat, n: nat)
    requires m < e < n <= |s| && s[m] == 'e'
    requires e == m + 1 || (e == m + 2 && (s[m + 1] == '+' || s[m + 1] == '-'))
    requires forall q :: e <= q < n ==> IsDigit(s[q])
    ensures OptExponent(s[m..n])
  {
    assert s[m..n] == ['e'] + s[m + 1..e] + s[e..n];
    assert Digits1(s[e..n]);
  }

  lemma SplitFive(s: string, i: nat, a: nat, b: nat, c: nat, m: nat, n: nat)
    requires i <= a <= b <= c <= m <= n <= |s|
    ensures s[i..n] == s[i..a] + s[a..b] + s[b..c] + s[c..m] + s[m..n]
  {
    assert s[i..b] == s[i..a] + s[a..b];
    assert s[i..c] == s[i..b] + s[b..c];
    assert s[i..m] == s[i..c] + s[c..m];
    assert s[i..n] == s[i..m] + s[m..n];
  }

  /** Splits the mantissa read from a into its digits, point and fraction digits. */
  lemma MantissaPieces(s: string, a: nat) returns (b: nat, c: nat)
    requires a <= |s| && MantissaEnd(s, a) > a
    ensures a <= b <= c < MantissaEnd(s, a)
    ensures AllDigits(s[a..b]) && OptPoint(s[b..c]) && Digits1(s[c..MantissaEnd(s, a)])
  {
    var d := DigitsEnd(s, a);
    DigitsRun(s, a);
    if d + 1 < |s| && s[d] == '.' && IsDigit(s[d + 1]) {
      DigitsRun(s, d + 1);
      b, c := d, d + 1;
      assert s[b..c] == [s[d]];
    } else {
      b, c := d - 1, d - 1;
    }
  }

  /** Whatever the recogniser accepts is a word of the grammar. */
  lemma RealEndSound(s: string, i: nat)
    requires i <= |s|
    ensures RealEnd(s, i) > i ==> IsReal(s[i..RealEnd(s, i)])
  {
    var n := RealEnd(s, i);
    if n > i {
      var a := SignEnd(s, i);
      var m := MantissaEnd(s, a);
      var b, c := MantissaPieces(s, a);
      assert OptSign(s[i..a]) by {
        if a == i + 1 { assert s[i..a] == [s[i]]; }
      }
      if n > m {
        DigitsRun(s, SignEnd(s, m + 1));
        ExponentIntro(s, m, SignEnd(s, m + 1), n);
      }
      SplitFive(s, i, a, b, c, m, n);
      RealIntro(s[i..n], s[i..a], s[a..b], s[b..c], s[c..m], s[m..n]);
    }
  }

  /** The mantissa read from A reaches F when s[A..F] spells `[0-9]*\.?[0-9]+`, and stops
      exactly there when neither a digit nor a point follows. */
  lemma MantissaReaches(s: string, A: nat, B: nat, P: nat, F: nat)
    requires A <= B <= P < F <= |s|
    requires forall q :: A <= q < B ==> IsDigit(s[q])
    requires P == B || (P == B + 1 && s[B] == '.')
    requires forall q :: P <= q < F ==> IsDigit(s[q])
    ensures MantissaEnd(s, A) >= F
    ensures F < |s| && !IsDigit(s[F]) && s[F] != '.' ==> MantissaEnd(s, A) == F
  {
    DigitsRun(s, A);
    if P == B + 1 {
      assert DigitsEnd(s, A) == B;
      DigitsRun(s, P);
    }
  }

  /** The exponent read from F reaches T when s[F..T] spells `e[-+]?[0-9]+`. */
  lemma ExponentReaches(s: string, F: nat, E: nat, T: nat)
    requires F < E < T <= |s| && s[F] == 'e'
    requires E == F + 1 || (E == F + 2 && (s[F + 1] == '+' || s[F + 1] == '-'))
    requires forall q :: E <= q < T ==> IsDigit(s[q])
    ensures ExponentEnd(s, F) >= T
  {
    assert SignEnd(s, F + 1) == E;
  }

  /** The exponent read from F reaches T when s[F..T] is a non-empty exponent. */
  lemma ExponentPiece(s: string, F: nat, T: nat)
    requires F < T <= |s| && OptExponent(s[F..T])
    ensures ExponentEnd(s, F) >= T
  {
    var ex := s[F..T];
    var sg2, ds :| ex == ['e'] + sg2 + ds && OptSign(sg2) && Digits1(ds);
    var E := F + 1 + |sg2|;
    assert s[F] == ex[0] == 'e';
    if sg2 != [] {
      assert s[F + 1] == ex[1] == sg2[0];
    }
    assert forall q :: E <= q < T ==> s[q] == ex[q - F] == ds[q - E];
    ExponentReaches(s, F, E, T);
  }

  /** Where the five pieces of t == sg + ip + pt + fp + ex sit in t. */
  lemma PiecePositions(t: string, sg: string, ip: string, pt: string, fp: string, ex: string)
    returns (A: nat, B: nat, P: nat, F: nat)
    requires t == sg + ip + pt + fp + ex
    ensures A == |sg| && B == A + |ip| && P == B + |pt| && F == P + |fp| && F <= |t|
    ensures forall q :: A <= q < B ==> t[q] == ip[q - A]
    ensures forall q :: P <= q < F ==> t[q] == fp[q - P]
    ensures P == B + 1 ==> t[B] == pt[0]
    ensures A == 1 ==> t[0] == sg[0]
    ensures t[F..] == ex && (F < |t| ==> t[F] == ex[0])
  {
    A, B := |sg|, |sg| + |ip|;
    P := B + |pt|;
    F := P + |fp|;
    var mant := sg + ip + pt + fp;
    assert t == mant + ex;
    assert forall q :: 0 <= q < |mant| ==> t[q] == mant[q];
    assert forall q :: A <= q < B ==> mant[q] == ip[q - A];
    assert forall q :: P <= q < F ==> mant[q] == fp[q - P];
    assert P == B + 1 ==> mant[B] == pt[0];
  }

  /** A non-empty exponent starts with `e`. */
  lemma ExponentHead(ex: string)
    requires OptExponent(ex) && ex != []
    ensures ex[0] == 'e'
  {
    var sg2, ds :| ex == ['e'] + sg2 + ds && OptSign(sg2) && Digits1(ds);
  }

  /** The positional facts RealPieces states, from the five pieces themselves. */
  lemma PieceFacts(t: string, sg: string, ip: string, pt: string, fp: string, ex: string)
    returns (A: nat, B: nat, P: nat, F: nat)
    requires t == sg + ip + pt + fp + ex
    requires OptSign(sg) && AllDigits(ip) && OptPoint(pt) && Digits1(fp) && OptExponent(ex)
    ensures A <= B <= P < F <= |t|
    ensures A == 0 || (A == 1 && (t[0] == '+' || t[0] == '-'))
    ensures forall q :: A <= q < B ==> IsDigit(t[q])
    ensures P == B || (P == B + 1 && t[B] == '.')
    ensures forall q :: P <= q < F ==> IsDigit(t[q])
    ensures OptExponent(t[F..]) && (F < |t| ==> t[F] == 'e')
  {
    A, B, P, F := PiecePositions(t, sg, ip, pt, fp, ex);
    if F < |t| {
      ExponentHead(ex);
    }
  }

  /** Where the sign, the integer digits, the point and the fraction digits of a word of the
      grammar end; the exponent fills the rest. */
  lemma RealPieces(t: string) returns (A: nat, B: nat, P: nat, F: nat)
    requires IsReal(t)
    ensures A <= B <= P < F <= |t|
    ensures A == 0 || (A == 1 && (t[0] == '+' || t[0] == '-'))
    ensures forall q :: A <= q < B ==> IsDigit(t[q])
    ensures P == B || (P == B + 1 && t[B] == '.')
    ensures forall q :: P <= q < F ==> IsDigit(t[q])
    ensures OptExponent(t[F..]) && (F < |t| ==> t[F] == 'e')
  {
    var sg, ip, pt, fp, ex :|
      && t == sg + ip + pt + fp + ex
      && OptSign(sg) && AllDigits(ip) && OptPoint(pt) && Digits1(fp) && OptExponent(ex);
    A, B, P, F := PieceFacts(t, sg, ip, pt, fp, ex);
  }

  /** RealPieces, for a word of the grammar found at s[i..j]. */
  lemma RealPiecesAt(s: string, i: nat, j: nat) returns (A: nat, B: nat, P: nat, F: nat)
    requires i <= j <= |s| && IsReal(s[i..j])
    ensures i <= A <= B <= P < F <= j
    ensures A == i || (A == i + 1 && (s[i] == '+' || s[i] == '-'))
    ensures forall q :: A <= q < B ==> IsDigit(s[q])
    ensures P == B || (P == B + 1 && s[B] == '.')
    ensures forall q :: P <= q < F ==> IsDigit(s[q])
    ensures F < j ==> s[F] == 'e' && OptExponent(s[F..j])
  {
    var t := s[i..j];
    var a, b, p, f := RealPieces(t);
    A, B, P, F := i + a, i + b, i + p, i + f;
    assert forall q :: i <= q < j ==> s[q] == t[q - i];
    assert s[F..j] == t[f..];
  }

  /** Every word of the grammar at position i is read in full, whatever follows it. */
  lemma RealEndComplete(s: string, i: nat, j: nat)
    requires i <= j <= |s| && IsReal(s[i..j])
    ensures RealEnd(s, i) >= j
  {
    var A, B, P, F := RealPiecesAt(s, i, j);
    assert SignEnd(s, i) == A;
    MantissaReaches(s, A, B, P, F);
    if F < j {
      assert MantissaEnd(s, A) == F;
      ExponentPiece(s, F, j);
    }
  }

  /** The number from i ends exactly at j when s[i..j] is a number and s[j] cannot continue one. */
  lemma RealEndExact(s: string, i: nat, j: nat)
    requires i <= j <= |s| && IsReal(s[i..j])
    requires j == |s| || !IsRealChar(s[j])
    ensures RealEnd(s, i) == j
  {
    RealEndComplete(s, i, j);
    RealEndChars(s, i);
  }

  /** Whitespace from i up to w, then a number: the whitespace run from i ends at w. */
  lemma SpaceBeforeNumber(s: string, i: nat, w: nat, e: nat)
    requires i <= w <= e <= |s| && AllSpace(s[i..w]) && IsReal(s[w..e])
    ensures w < e && SpaceEnd(s, i) == w
  {
    AllSpaceAt(s, i, w);
    RealChars(s[w..e]);
    assert s[w] == s[w..e][0];
    SpaceEndExact(s, i, w);
  }

  /** No longer prefix of s[i..] than the recogniser's is in the grammar. */
  lemma RealEndLongest(s: string, i: nat)
    requires i <= |s|
    ensures forall k :: RealEnd(s, i) < k <= |s| ==> !IsReal(s[i..k])
  {
    forall k | RealEnd(s, i) < k <= |s|
      ensures !IsReal(s[i..k])
    {
      if IsReal(s[i..k]) {
        RealEndComplete(s, i, k);
      }
    }
  }

  /** The mantissa read from a holds digits and at most a point. */
  lemma MantissaChars(s: string, a: nat)
    requires a <= |s|
    ensures forall q :: a <= q < MantissaEnd(s, a) ==> IsDigit(s[q]) || s[q] == '.'
  {
    var b := DigitsEnd(s, a);
    DigitsRun(s, a);
    if b + 1 < |s| {
      DigitsRun(s, b + 1);
    }
  }

  /** The exponent read from m holds `e`, at most a sign and digits. */
  lemma ExponentChars(s: string, m: nat)
    requires m <= |s|
    ensures forall q :: m <= q < ExponentEnd(s, m) ==> IsRealChar(s[q])
  {
    if m < |s| && s[m] == 'e' {
      DigitsRun(s, SignEnd(s, m + 1));
    }
  }

  /** The recognised lexeme uses digits, signs, a point and a lower-case e only; in particular
      it never holds an upper-case `E` or whitespace. */
  lemma RealEndChars(s: string, i: nat)
    requires i <= |s|
    ensures forall q :: i <= q < RealEnd(s, i) ==> IsRealChar(s[q])
  {
    var a := SignEnd(s, i);
    var m := MantissaEnd(s, a);
    MantissaChars(s, a);
    ExponentChars(s, m);
  }

  /** A word of the grammar uses lexeme characters only. */
  lemma RealChars(t: string)
    requires IsReal(t)
    ensures t != [] && forall i :: 0 <= i < |t| ==> IsRealChar(t[i])
  {
    RealEndComplete(t, 0, |t|);
    assert t[0..|t|] == t;
    RealEndChars(t, 0);
  }

  // ---------------------------------------------------------------------------
  // Consequences of greediness.
  // ---------------------------------------------------------------------------

  /** `7.` yields `7`: a point is consumed only when a digit follows it. */
  lemma TrailingPointNotConsumed(d: string, rest: string)
    requires Digits1(d)
    requires rest == [] || !IsDigit(rest[0])
    ensures RealEnd(d + ['.'] + rest, 0) == |d|
  {
    var s := d + ['.'] + rest;
    assert forall q :: 0 <= q < |d| ==> s[q] == d[q];
    assert s[|d|] == '.';
    assert SignEnd(s, 0) == 0;
    DigitsRun(s, 0);
    assert DigitsEnd(s, 0) == |d|;
    if |d| + 1 < |s| {
      assert s[|d| + 1] == rest[0];
    }
  }

  /** `1e` yields `1`: an exponent marker without digits after it is not consumed. */
  lemma BareExponentNotConsumed(d: string, rest: string)
    requires Digits1(d)
    requires rest == [] || (!IsDigit(rest[0]) && (rest[0] in "+-" ==> |rest| == 1 || !IsDigit(rest[1])))
    ensures RealEnd(d + ['e'] + rest, 0) == |d|
  {
    var s := d + ['e'] + rest;
    assert forall q :: 0 <= q < |d| ==> s[q] == d[q];
    assert s[|d|] == 'e';
    assert SignEnd(s, 0) == 0;
    DigitsRun(s, 0);
    assert DigitsEnd(s, 0) == |d|;
    if |d| + 1 < |s| {
      assert s[|d| + 1] == rest[0];
      if |d| + 2 < |s| {
        assert s[|d| + 2] == rest[1];
      }
    }
  }

  /** An upper-case `E` ends the lexeme: `1E5` yields `1`. */
  lemma UpperExponentNotConsumed(d: string, rest: string)
    requires Digits1(d)
    ensures RealEnd(d + ['E'] + rest, 0) == |d|
  {
    var s := d + ['E'] + rest;
    assert forall q :: 0 <= q < |d| ==> s[q] == d[q];
    assert s[|d|] == 'E';
    assert SignEnd(s, 0) == 0;
    DigitsRun(s, 0);
    assert DigitsEnd(s, 0) == |d|;
  }
}
