/**
 * The text filters applied to OCR output (`StringFilter` in
 * StringFiltering.cs): whitespace normalisation, word removal and the
 * collapsing of repeated line breaks.
 */
module StringFilter {
  import opened Text

  /** Whitespace survives only as single spaces. */
  predicate SingleSpaced(s: string) {
    && (forall i :: 0 <= i < |s| && IsWhite(s[i]) ==> s[i] == ' ')
    && (forall i :: 0 <= i < |s| - 1 ==> !(s[i] == ' ' && s[i + 1] == ' '))
  }

  /** The normal form `ReduceWhitespace` produces. */
  predicate Normalised(s: string) {
    Trimmed(s) && SingleSpaced(s)
  }

  lemma SingleSpacedSlice(s: string, i: int, j: int)
    requires SingleSpaced(s) && 0 <= i <= j <= |s|
    ensures SingleSpaced(s[i..j])
  {
    var t := s[i..j];
    forall k | 0 <= k < |t| - 1
      ensures !(t[k] == ' ' && t[k + 1] == ' ')
    {
      assert t[k] == s[i + k] && t[k + 1] == s[i + k + 1];
    }
  }

  // ---------------------------------------------------------------------
  // ReduceWhitespace
  // ---------------------------------------------------------------------

  /** `Regex.Replace(s, @"\s+", " ")`: scanning left to right, every maximal
      run of whitespace is one greedy match and becomes a single space. */
  function CollapseWhite(s: string): (r: string)
    decreases |s|
  {
    if |s| == 0 then []
    else if IsWhite(s[0]) then " " + CollapseWhite(s[LeadingWhite(s)..])
    else [s[0]] + CollapseWhite(s[1..])
  }

  /** A non-empty input gives a non-empty result that starts with
      whitespace exactly when the input does. */
  lemma CollapseWhiteHead(s: string)
    requires |s| > 0
    ensures |CollapseWhite(s)| > 0 && (IsWhite(CollapseWhite(s)[0]) <==> IsWhite(s[0]))
  {
  }

  /** Prepending a character keeps a string single-spaced when it is not
      whitespace, or is a space before something other than a space. */
  lemma SingleSpacedCons(x: char, t: string)
    requires SingleSpaced(t)
    requires IsWhite(x) ==> x == ' ' && (|t| == 0 || !IsWhite(t[0]))
    ensures SingleSpaced([x] + t)
  {
    var r := [x] + t;
    forall i | 0 <= i < |r| - 1
      ensures !(r[i] == ' ' && r[i + 1] == ' ')
    {
      if i > 0 {
        assert r[i] == t[i - 1] && r[i + 1] == t[i];
      } else {
        assert r[1] == t[0];
      }
    }
  }

  /** After `\s+` → " " the only whitespace is single spaces. */
  lemma {:induction false} CollapseWhiteSingleSpaced(s: string)
    ensures SingleSpaced(CollapseWhite(s))
    decreases |s|
  {
    if |s| > 0 {
      if IsWhite(s[0]) {
        var n := LeadingWhite(s);
        CollapseWhiteSingleSpaced(s[n..]);
        SingleSpacedCons(' ', CollapseWhite(s[n..]));
      } else {
        CollapseWhiteSingleSpaced(s[1..]);
        SingleSpacedCons(s[0], CollapseWhite(s[1..]));
      }
    }
  }

  /** Collapsing whitespace runs keeps every other character, in order. */
  lemma {:induction false} CollapseWhiteKeepsContent(s: string)
    ensures RemoveWhite(CollapseWhite(s)) == RemoveWhite(s)
    decreases |s|
  {
    if |s| > 0 {
      if IsWhite(s[0]) {
        var n := LeadingWhite(s);
        CollapseWhiteKeepsContent(s[n..]);
        RemoveWhiteAppend(" ", CollapseWhite(s[n..]));
        assert s == s[..n] + s[n..];
        RemoveWhiteAppend(s[..n], s[n..]);
        RemoveWhiteOfWhite(s[..n]);
      } else {
        CollapseWhiteKeepsContent(s[1..]);
        RemoveWhiteAppend([s[0]], CollapseWhite(s[1..]));
        assert s == [s[0]] + s[1..];
        RemoveWhiteAppend([s[0]], s[1..]);
      }
    }
  }

  /** A string already single-spaced is left as it is. */
  lemma {:induction false} CollapseWhiteOfSingleSpaced(s: string)
    requires SingleSpaced(s)
    ensures CollapseWhite(s) == s
    decreases |s|
  {
    if |s| > 0 {
      if IsWhite(s[0]) {
        assert s[0] == ' ';
        assert LeadingWhite(s) == 1 by {
          if |s| > 1 {
            assert !IsWhite(s[1]);
          }
        }
        SingleSpacedSlice(s, 1, |s|);
        CollapseWhiteOfSingleSpaced(s[1..]);
        assert s == " " + s[1..];
      } else {
        SingleSpacedSlice(s, 1, |s|);
        CollapseWhiteOfSingleSpaced(s[1..]);
        assert s == [s[0]] + s[1..];
      }
    }
  }

  /** The three literal line-break replacements that open
      `ReduceWhitespace`: CR LF, then LF, then CR each become a space. */
  function LineBreaksToSpaces(s: string): string {
    ReplaceAll(ReplaceAll(ReplaceAll(s, "\r\n", " "), "\n", " "), "\r", " ")
  }

  /** `StringFilter.ReduceWhitespace`. */
  function ReduceWhitespace(s: string): string {
    Trim(CollapseWhite(LineBreaksToSpaces(s)))
  }

  lemma LineBreaksToSpacesKeepsContent(s: string)
    ensures RemoveWhite(LineBreaksToSpaces(s)) == RemoveWhite(s)
  {
    ReplaceKeepsContent(s, "\r\n", " ");
    var s1 := ReplaceAll(s, "\r\n", " ");
    ReplaceKeepsContent(s1, "\n", " ");
    var s2 := ReplaceAll(s1, "\n", " ");
    ReplaceKeepsContent(s2, "\r", " ");
  }

  /** The result of `ReduceWhitespace` has no whitespace at either end,
      its only whitespace is single spaces, and deleting every whitespace
      character from it and from the input gives the same string. */
  lemma ReduceWhitespaceNormalises(s: string)
    ensures Normalised(ReduceWhitespace(s))
    ensures RemoveWhite(ReduceWhitespace(s)) == RemoveWhite(s)
  {
    CollapseWhiteSingleSpaced(LineBreaksToSpaces(s));
    TrimOfSingleSpaced(CollapseWhite(LineBreaksToSpaces(s)));
    ReduceWhitespaceKeepsContent(s);
  }

  /** Trimming a single-spaced string gives a normalised one. */
  lemma TrimOfSingleSpaced(c: string)
    requires SingleSpaced(c)
    ensures Normalised(Trim(c))
  {
    var a, b := TrimShape(c);
    SingleSpacedSlice(c, a, |c| - b);
  }

  lemma ReduceWhitespaceKeepsContent(s: string)
    ensures RemoveWhite(ReduceWhitespace(s)) == RemoveWhite(s)
  {
    var c := CollapseWhite(LineBreaksToSpaces(s));
    LineBreaksToSpacesKeepsContent(s);
    CollapseWhiteKeepsContent(LineBreaksToSpaces(s));
    TrimKeepsContent(c);
  }

  /** A normalised string is a fixed point of `ReduceWhitespace`. */
  lemma ReduceWhitespaceOfNormalised(s: string)
    requires Normalised(s)
    ensures ReduceWhitespace(s) == s
  {
    assert '\r' !in s && '\n' !in s by {
      forall i | 0 <= i < |s|
        ensures s[i] != '\r' && s[i] != '\n'
      {
        if IsWhite(s[i]) {
          assert s[i] == ' ';
        }
      }
    }
    MissingCharNoOccurrence(s, "\r\n", 0);
    ReplaceAbsent(s, "\r\n", " ");
    MissingCharNoOccurrence(s, "\n", 0);
    ReplaceAbsent(s, "\n", " ");
    MissingCharNoOccurrence(s, "\r", 0);
    ReplaceAbsent(s, "\r", " ");
    CollapseWhiteOfSingleSpaced(s);
    TrimOfTrimmed(s);
  }

  /** `ReduceWhitespace` is idempotent. */
  lemma ReduceWhitespaceIdempotent(s: string)
    ensures ReduceWhitespace(ReduceWhitespace(s)) == ReduceWhitespace(s)
  {
    ReduceWhitespaceNormalises(s);
    ReduceWhitespaceOfNormalised(ReduceWhitespace(s));
  }

  lemma CollapseWhiteOfWordHead(s: string)
    requires |s| > 0 && !IsWhite(s[0])
    ensures CollapseWhite(s) == [s[0]] + CollapseWhite(s[1..])
  {
  }

  lemma CollapseWhiteOfWhiteHead(s: string)
    requires |s| > 0 && IsWhite(s[0])
    ensures CollapseWhite(s) == " " + CollapseWhite(s[LeadingWhite(s)..])
  {
  }

  /** Collapsing `p + t` past a non-whitespace first character. */
  lemma CollapseWhiteAppendWord(p: string, t: string)
    requires |p| > 0 && !IsWhite(p[0])
    ensures CollapseWhite(p + t) == [p[0]] + CollapseWhite(p[1..] + t)
  {
    assert (p + t)[0] == p[0] && (p + t)[1..] == p[1..] + t;
    CollapseWhiteOfWordHead(p + t);
  }

  /** Collapsing `p + t` past a whitespace run that ends inside `p`. */
  lemma CollapseWhiteAppendRun(p: string, t: string)
    requires |p| > 0 && IsWhite(p[0]) && LeadingWhite(p) < |p|
    ensures CollapseWhite(p + t) == " " + CollapseWhite(p[LeadingWhite(p)..] + t)
  {
    var n := LeadingWhite(p);
    LeadingWhiteAppend(p, t);
    assert (p + t)[0] == p[0] && (p + t)[n..] == p[n..] + t;
    CollapseWhiteOfWhiteHead(p + t);
  }

  /** One step of `CollapseWhiteSplit` past a non-whitespace character. */
  lemma CollapseWhiteSplitWord(p: string, t: string)
    requires |p| > 0 && !IsWhite(p[0])
    requires CollapseWhite(p[1..] + t) == CollapseWhite(p[1..]) + CollapseWhite(t)
    ensures CollapseWhite(p + t) == CollapseWhite(p) + CollapseWhite(t)
  {
    CollapseWhiteAppendWord(p, t);
    CollapseWhiteOfWordHead(p);
    Regroup(CollapseWhite(p + t), CollapseWhite(p), [p[0]],
            CollapseWhite(p[1..]), CollapseWhite(t), CollapseWhite(p[1..] + t));
  }

  /** One step of `CollapseWhiteSplit` past a whitespace run that ends
      inside `p`. */
  lemma CollapseWhiteSplitRun(p: string, t: string)
    requires |p| > 0 && IsWhite(p[0]) && LeadingWhite(p) < |p|
    requires CollapseWhite(p[LeadingWhite(p)..] + t)
          == CollapseWhite(p[LeadingWhite(p)..]) + CollapseWhite(t)
    ensures CollapseWhite(p + t) == CollapseWhite(p) + CollapseWhite(t)
  {
    var r := p[LeadingWhite(p)..];
    CollapseWhiteAppendRun(p, t);
    CollapseWhiteOfWhiteHead(p);
    Regroup(CollapseWhite(p + t), CollapseWhite(p), " ",
            CollapseWhite(r), CollapseWhite(t), CollapseWhite(r + t));
  }

  /** Text that ends in a non-whitespace character is collapsed apart
      from what follows it. */
  lemma {:induction false} CollapseWhiteSplit(p: string, t: string)
    requires |p| == 0 || !IsWhite(p[|p| - 1])
    ensures CollapseWhite(p + t) == CollapseWhite(p) + CollapseWhite(t)
    decreases |p|
  {
    if |p| == 0 {
      assert p + t == t;
    } else if !IsWhite(p[0]) {
      CollapseWhiteSplit(p[1..], t);
      CollapseWhiteSplitWord(p, t);
    } else {
      var n := LeadingWhite(p);
      assert n < |p|;
      assert p[n..][|p| - n - 1] == p[|p| - 1];
      CollapseWhiteSplit(p[n..], t);
      CollapseWhiteSplitRun(p, t);
    }
  }

  /** A whitespace run at the front becomes one space. */
  lemma CollapseWhiteOfRun(w: string, q: string)
    requires |w| > 0 && AllWhite(w)
    requires |q| == 0 || !IsWhite(q[0])
    ensures CollapseWhite(w + q) == " " + CollapseWhite(q)
  {
    var s := w + q;
    assert s[0] == w[0];
    LeadingWhiteOfRun(w, q);
    assert s[|w|..] == q;
  }

  /** A whitespace run between two non-whitespace characters becomes
      exactly one space: the text on either side is collapsed on its
      own. */
  lemma CollapseWhiteAround(p: string, w: string, q: string)
    requires |w| > 0 && AllWhite(w)
    requires |p| == 0 || !IsWhite(p[|p| - 1])
    requires |q| == 0 || !IsWhite(q[0])
    ensures CollapseWhite(p + (w + q)) == CollapseWhite(p) + (" " + CollapseWhite(q))
  {
    CollapseWhiteSplit(p, w + q);
    CollapseWhiteOfRun(w, q);
  }

  /** Text without whitespace is single-spaced and left by the collapse. */
  lemma CollapseWhiteOfToken(p: string)
    requires NoWhite(p)
    ensures CollapseWhite(p) == p
  {
    assert SingleSpaced(p) by {
      forall i | 0 <= i < |p| - 1
        ensures !(p[i] == ' ' && p[i + 1] == ' ')
      {
        assert !IsWhite(p[i]);
      }
    }
    CollapseWhiteOfSingleSpaced(p);
  }

  /** The line-break replacements only touch the whitespace between two
      texts without whitespace, and leave it whitespace. */
  lemma LineBreaksToSpacesAround(p: string, w: string, q: string) returns (w': string)
    requires |w| > 0 && AllWhite(w) && NoWhite(p) && NoWhite(q)
    ensures |w'| > 0 && AllWhite(w')
    ensures LineBreaksToSpaces(p + w + q) == p + w' + q
  {
    assert AllWhite("\r\n") && AllWhite("\n") && AllWhite("\r") && AllWhite(" ") by {
      assert IsWhite('\r') && IsWhite('\n') && IsWhite(' ');
    }
    var w1 := ReplaceAll(w, "\r\n", " ");
    ReplaceAroundWhite(p, w, q, "\r\n", " ");
    ReplaceInWhite(w, "\r\n", " ");
    var w2 := ReplaceAll(w1, "\n", " ");
    ReplaceAroundWhite(p, w1, q, "\n", " ");
    ReplaceInWhite(w1, "\n", " ");
    w' := ReplaceAll(w2, "\r", " ");
    ReplaceAroundWhite(p, w2, q, "\r", " ");
    ReplaceInWhite(w2, "\r", " ");
  }

  /** Two words separated by any non-empty whitespace come out separated
      by exactly one space. */
  lemma ReduceWhitespaceSeparates(p: string, w: string, q: string)
    requires |p| > 0 && |q| > 0 && NoWhite(p) && NoWhite(q)
    requires |w| > 0 && AllWhite(w)
    ensures ReduceWhitespace(p + w + q) == p + " " + q
  {
    var w' := LineBreaksToSpacesAround(p, w, q);
    CollapseWhiteSeparates(p, w', q);
    TrimOfWordPair(p, q);
  }

  /** The collapse turns the whitespace between two texts without
      whitespace into one space. */
  lemma CollapseWhiteSeparates(p: string, w: string, q: string)
    requires |p| > 0 && |q| > 0 && NoWhite(p) && NoWhite(q)
    requires |w| > 0 && AllWhite(w)
    ensures CollapseWhite(p + w + q) == p + " " + q
  {
    assert p + w + q == p + (w + q);
    CollapseWhiteAround(p, w, q);
    CollapseWhiteOfToken(p);
    CollapseWhiteOfToken(q);
    assert p + (" " + q) == p + " " + q;
  }

  /** Two texts without whitespace joined by one space are already
      trimmed. */
  lemma TrimOfWordPair(p: string, q: string)
    requires |p| > 0 && |q| > 0 && NoWhite(p) && NoWhite(q)
    ensures Trim(p + " " + q) == p + " " + q
  {
    var r := p + " " + q;
    assert r[0] == p[0] && r[|r| - 1] == q[|q| - 1];
    TrimOfTrimmed(r);
  }

  // ---------------------------------------------------------------------
  // RemoveWords
  // ---------------------------------------------------------------------

  /** Why a filter call fails: `String.Replace` throws when the text to
      replace is empty. */
  datatype Error = ZeroLengthWord

  datatype Result<T> = Ok(value: T) | Err(error: Error)

  /** `StringFilter.RemoveWords`: removes each listed word in turn, every
      removal working on the output of the previous one. */
  function RemoveWords(input: string, words: seq<string>): (r: Result<string>)
    ensures r.Err? <==> exists i :: 0 <= i < |words| && |words[i]| == 0
    ensures r.Ok? ==> |r.value| <= |input|
    decreases |words|
  {
    if |words| == 0 then Ok(input)
    else if |words[0]| == 0 then Err(ZeroLengthWord)
    else
      var r := RemoveWords(ReplaceAll(input, words[0], ""), words[1..]);
      assert forall i :: 0 <= i < |words[1..]| ==> words[1..][i] == words[i + 1];
      r
  }

  /** Removing no words, or only words that do not occur, returns the input
      unchanged. */
  lemma {:induction false} RemoveWordsAbsent(input: string, words: seq<string>)
    requires forall i :: 0 <= i < |words| ==> |words[i]| > 0 && !Occurs(input, words[i])
    ensures RemoveWords(input, words) == Ok(input)
    decreases |words|
  {
    if |words| > 0 {
      ReplaceAbsent(input, words[0], "");
      RemoveWordsAbsent(input, words[1..]);
    }
  }

  /** Removing `a + b` is removing `a` and then removing `b` from what is
      left. */
  lemma {:induction false} RemoveWordsSequential(input: string, a: seq<string>, b: seq<string>)
    ensures RemoveWords(input, a + b)
         == match RemoveWords(input, a)
            case Err(e) => Err(e)
            case Ok(t) => RemoveWords(t, b)
    decreases |a|
  {
    if |a| == 0 {
      assert a + b == b;
    } else {
      assert (a + b)[0] == a[0];
      assert (a + b)[0] == a[0] && (a + b)[1..] == a[1..] + b;
      if |a[0]| > 0 {
        RemoveWordsSequential(ReplaceAll(input, a[0], ""), a[1..], b);
      }
    }
  }

  /** Occurrences are removed leftmost first without overlap, and the text
      that closes up around a removed word is not searched again. */
  lemma RemoveWordsExamples()
    ensures RemoveWords("aaa", ["aa"]) == Ok("a")
    ensures RemoveWords("aabb", ["ab"]) == Ok("ab")
    ensures RemoveWords("aabb", ["ab", "ab"]) == Ok("")
  {
    ReplaceIsNonOverlapping();
    ReplaceIsSinglePass();
    assert ReplaceAll("ab", "ab", "") == "" by {
      assert "ab"[..2] == "ab";
    }
    assert ["ab", "ab"][1..] == ["ab"];
  }

  // ---------------------------------------------------------------------
  // RemoveRepeatingNewLines
  // ---------------------------------------------------------------------

  predicate StartsWith(s: string, p: string) {
    |p| <= |s| && s[..|p|] == p
  }

  /** Drops every whole copy of `u` that `s` starts with. */
  function DropUnits(s: string, u: string): (r: string)
    requires |u| > 0
    ensures |r| <= |s| && r == s[|s| - |r|..]
    ensures StartsWith(s, u) ==> |r| <= |s| - |u|
    ensures !StartsWith(r, u)
    decreases |s|
  {
    if StartsWith(s, u) then DropUnits(s[|u|..], u) else s
  }

  /** `Regex.Replace(s, "(u){2,}", u)` for a literal unit `u`: scanning left
      to right, a place where `u` repeats at least twice starts a greedy
      match of all its repetitions, which becomes one `u`. */
  function CollapseRuns(s: string, u: string): string
    requires |u| > 0
    decreases |s|
  {
    if StartsWith(s, u + u) then
      assert StartsWith(s, u) by { assert (u + u)[..|u|] == u; assert s[..|u|] == s[..|u + u|][..|u|]; }
      u + CollapseRuns(DropUnits(s, u), u)
    else if |s| == 0 then []
    else [s[0]] + CollapseRuns(s[1..], u)
  }

  const CrLf := "\r\n"

  /** `StringFilter.RemoveRepeatingNewLines`. Only the first replacement is
      a regular expression; the other two are `String.Replace` calls whose
      search text is the literal five characters `\n{2,}` and `\r{2,}`. */
  function RemoveRepeatingNewLines(s: string): string {
    ReplaceAll(ReplaceAll(CollapseRuns(s, CrLf), "\n{2,}", "\n"), "\r{2,}", "\r")
  }

  /** No CR LF pair is directly followed by another. */
  predicate NoDoubleCrLf(s: string) {
    forall i :: 0 <= i < |s| - 3 ==> !DoubleCrLfAt(s, i)
  }

  /** Two CR LF pairs start at position `i`. */
  predicate DoubleCrLfAt(s: string, i: nat)
    requires i + 3 < |s|
  {
    s[i] == '\r' && s[i + 1] == '\n' && s[i + 2] == '\r' && s[i + 3] == '\n'
  }

  lemma StartsWithDoubleCrLf(s: string)
    ensures StartsWith(s, CrLf + CrLf)
        <==> |s| >= 4 && s[0] == '\r' && s[1] == '\n' && s[2] == '\r' && s[3] == '\n'
  {
    if |s| >= 4 && s[0] == '\r' && s[1] == '\n' && s[2] == '\r' && s[3] == '\n' {
      assert s[..4] == CrLf + CrLf;
    }
  }

  lemma StartsWithCrLf(s: string)
    ensures StartsWith(s, CrLf) <==> |s| >= 2 && s[0] == '\r' && s[1] == '\n'
  {
    if |s| >= 2 && s[0] == '\r' && s[1] == '\n' {
      assert s[..2] == CrLf;
    }
  }

  /** Collapsing CR LF runs leaves the first two characters in place. */
  lemma CollapseCrLfHead(s: string)
    ensures |s| >= 1 ==> |CollapseRuns(s, CrLf)| >= 1 && CollapseRuns(s, CrLf)[0] == s[0]
    ensures |s| >= 2 ==> |CollapseRuns(s, CrLf)| >= 2 && CollapseRuns(s, CrLf)[1] == s[1]
  {
    StartsWithDoubleCrLf(s);
    if |s| >= 2 && !StartsWith(s, CrLf + CrLf) {
      StartsWithDoubleCrLf(s[1..]);
    }
  }

  /** Prepending one character keeps `NoDoubleCrLf` unless it completes a
      double pair at the front. */
  lemma NoDoubleCrLfCons(c: char, t: string)
    requires NoDoubleCrLf(t)
    requires !(c == '\r' && |t| >= 3 && t[0] == '\n' && t[1] == '\r' && t[2] == '\n')
    ensures NoDoubleCrLf([c] + t)
  {
    var r := [c] + t;
    forall i | 0 <= i < |r| - 3
      ensures !DoubleCrLfAt(r, i)
    {
      if i >= 1 {
        assert !DoubleCrLfAt(t, i - 1);
        assert r[i] == t[i - 1] && r[i + 1] == t[i] && r[i + 2] == t[i + 1] && r[i + 3] == t[i + 2];
      } else {
        assert r[0] == c && r[1] == t[0] && r[2] == t[1] && r[3] == t[2];
      }
    }
  }

  /** After collapsing, no CR LF pair follows another. */
  lemma {:induction false} CollapseCrLfNoDouble(s: string)
    ensures NoDoubleCrLf(CollapseRuns(s, CrLf))
    decreases |s|
  {
    StartsWithDoubleCrLf(s);
    if StartsWith(s, CrLf + CrLf) {
      var rest := DropUnits(s, CrLf);
      var t := CollapseRuns(rest, CrLf);
      CollapseCrLfNoDouble(rest);
      CollapseCrLfHead(rest);
      StartsWithCrLf(rest);
      NoDoubleCrLfCons('\n', t);
      NoDoubleCrLfCons('\r', "\n" + t);
      assert CollapseRuns(s, CrLf) == ['\r'] + ("\n" + t);
    } else if |s| > 0 {
      var t := CollapseRuns(s[1..], CrLf);
      CollapseCrLfNoDouble(s[1..]);
      CollapseCrLfHead(s[1..]);
      if |s| >= 3 && s[1] == '\n' {
        StartsWithDoubleCrLf(s[1..]);
        CollapseCrLfHead(s[2..]);
        assert t == "\n" + CollapseRuns(s[2..], CrLf);
        if |s| == 3 {
          StartsWithDoubleCrLf(s[2..]);
          assert CollapseRuns(s[2..], CrLf) == [s[2]] + CollapseRuns(s[3..], CrLf);
        } else {
          assert t[2] == s[3];
        }
      }
      NoDoubleCrLfCons(s[0], t);
    }
  }

  /** A string without consecutive CR LF pairs is left as it is. */
  lemma {:induction false} CollapseCrLfOfNoDouble(s: string)
    requires NoDoubleCrLf(s)
    ensures CollapseRuns(s, CrLf) == s
    decreases |s|
  {
    StartsWithDoubleCrLf(s);
    if |s| >= 4 {
      assert !DoubleCrLfAt(s, 0);
    }
    if |s| > 0 {
      assert NoDoubleCrLf(s[1..]) by {
        forall i | 0 <= i < |s[1..]| - 3
          ensures !DoubleCrLfAt(s[1..], i)
        {
          assert !DoubleCrLfAt(s, i + 1);
          assert s[1..][i] == s[i + 1] && s[1..][i + 1] == s[i + 2];
          assert s[1..][i + 2] == s[i + 3] && s[1..][i + 3] == s[i + 4];
        }
      }
      CollapseCrLfOfNoDouble(s[1..]);
      assert s == [s[0]] + s[1..];
    }
  }

  /** Replacing CR LF pairs in a string that starts with one replaces it. */
  lemma ReplaceCrLfFront(r: string, v: string)
    requires |r| >= 2 && r[0] == '\r' && r[1] == '\n'
    ensures ReplaceAll(r, CrLf, v) == v + ReplaceAll(r[2..], CrLf, v)
  {
    assert CrLf <= r;
  }

  /** A string that does not start with CR LF keeps its first character. */
  lemma ReplaceCrLfSkip(r: string, v: string)
    requires |r| >= 1 && !(|r| >= 2 && r[0] == '\r' && r[1] == '\n')
    ensures ReplaceAll(r, CrLf, v) == [r[0]] + ReplaceAll(r[1..], CrLf, v)
  {
    if |r| >= 2 {
      assert !(CrLf <= r) by { assert r[..2][0] == r[0] && r[..2][1] == r[1]; }
    } else {
      assert r == [r[0]] + r[1..];
    }
  }

  /** Deleting every CR LF pair from the input, or from the collapsed
      output, gives the same text: collapsing removes surplus pairs and
      nothing else. */
  lemma {:induction false} CollapseCrLfKeepsText(s: string)
    ensures ReplaceAll(CollapseRuns(s, CrLf), CrLf, "") == ReplaceAll(s, CrLf, "")
    decreases |s|
  {
    StartsWithDoubleCrLf(s);
    if StartsWith(s, CrLf + CrLf) {
      var rest := DropUnits(s, CrLf);
      var t := CollapseRuns(rest, CrLf);
      CollapseCrLfKeepsText(rest);
      StripLeadingCrLfs(s);
      ReplaceCrLfFront(CrLf + t, "");
      assert (CrLf + t)[2..] == t;
    } else if |s| > 0 {
      CollapseCrLfFirst(s);
      var t := CollapseRuns(s[1..], CrLf);
      if |s| >= 2 && s[0] == '\r' && s[1] == '\n' {
        CollapseCrLfAfterCr(s);
        var t2 := CollapseRuns(s[2..], CrLf);
        CollapseCrLfKeepsText(s[2..]);
        ReplaceCrLfFront(s, "");
        ReplaceCrLfFront([s[0]] + t, "");
        assert ([s[0]] + t)[2..] == t2;
      } else {
        CollapseCrLfKeepsText(s[1..]);
        CollapseCrLfHead(s[1..]);
        ReplaceCrLfSkip(s, "");
        ReplaceCrLfSkip([s[0]] + t, "");
        assert ([s[0]] + t)[1..] == t;
      }
    }
  }

  /** Without a double pair at the front, collapsing keeps the first
      character and moves on. */
  lemma CollapseCrLfFirst(s: string)
    requires |s| > 0 && !StartsWith(s, CrLf + CrLf)
    ensures CollapseRuns(s, CrLf) == [s[0]] + CollapseRuns(s[1..], CrLf)
  {
  }

  /** After a CR that starts a single pair, the LF is kept and collapsing
      continues after it. */
  lemma CollapseCrLfAfterCr(s: string)
    requires |s| >= 2 && s[0] == '\r' && s[1] == '\n'
    ensures CollapseRuns(s[1..], CrLf) == "\n" + CollapseRuns(s[2..], CrLf)
  {
    StartsWithDoubleCrLf(s[1..]);
    assert s[1..][1..] == s[2..];
  }

  /** Deleting CR LF pairs from a string that starts with whole pairs skips
      them all. */
  lemma {:induction false} StripLeadingCrLfs(s: string)
    ensures ReplaceAll(s, CrLf, "") == ReplaceAll(DropUnits(s, CrLf), CrLf, "")
    decreases |s|
  {
    StartsWithCrLf(s);
    if StartsWith(s, CrLf) {
      StripLeadingCrLfs(s[2..]);
      ReplaceCrLfFront(s, "");
    }
  }

  /** Collapsing introduces no character the input lacks. */
  lemma {:induction false} CollapseRunsChars(s: string, u: string)
    requires |u| > 0
    ensures forall c :: c in CollapseRuns(s, u) ==> c in s
    decreases |s|
  {
    if StartsWith(s, u + u) {
      var rest := DropUnits(s, u);
      CollapseRunsChars(rest, u);
      assert forall c :: c in u ==> c in s by {
        assert s[..|u + u|][..|u|] == u;
      }
      assert forall c :: c in rest ==> c in s;
    } else if |s| > 0 {
      CollapseRunsChars(s[1..], u);
    }
  }

  /** For text without `{`, the two literal replacements never fire and
      `RemoveRepeatingNewLines` only collapses CR LF runs. */
  lemma RemoveRepeatingNewLinesWithoutBrace(s: string)
    requires '{' !in s
    ensures RemoveRepeatingNewLines(s) == CollapseRuns(s, CrLf)
  {
    var c := CollapseRuns(s, CrLf);
    CollapseRunsChars(s, CrLf);
    MissingCharNoOccurrence(c, "\n{2,}", 1);
    ReplaceAbsent(c, "\n{2,}", "\n");
    MissingCharNoOccurrence(c, "\r{2,}", 1);
    ReplaceAbsent(c, "\r{2,}", "\r");
  }

  /** The result of `RemoveRepeatingNewLines` on text without `{` has no
      CR LF pair directly followed by another, differs from the input only
      in CR LF pairs, and is a fixed point. */
  lemma RemoveRepeatingNewLinesCollapsesCrLf(s: string)
    requires '{' !in s
    ensures NoDoubleCrLf(RemoveRepeatingNewLines(s))
    ensures ReplaceAll(RemoveRepeatingNewLines(s), CrLf, "") == ReplaceAll(s, CrLf, "")
    ensures RemoveRepeatingNewLines(RemoveRepeatingNewLines(s)) == RemoveRepeatingNewLines(s)
  {
    var c := CollapseRuns(s, CrLf);
    RemoveRepeatingNewLinesWithoutBrace(s);
    CollapseCrLfNoDouble(s);
    CollapseCrLfKeepsText(s);
    CollapseRunsChars(s, CrLf);
    RemoveRepeatingNewLinesWithoutBrace(c);
    CollapseCrLfOfNoDouble(c);
  }

  /** Runs of bare line feeds are not collapsed. */
  lemma RemoveRepeatingNewLinesKeepsLfRuns()
    ensures RemoveRepeatingNewLines("a\n\n\nb") == "a\n\n\nb"
  {
    var s := "a\n\n\nb";
    RemoveRepeatingNewLinesWithoutBrace(s);
    CollapseCrLfOfNoDouble(s);
  }

  /** The literal five characters `\n{2,}` are what gets rewritten. */
  lemma RemoveRepeatingNewLinesRewritesLiteral()
    ensures RemoveRepeatingNewLines("a\n{2,}b") == "a\nb"
  {
    LiteralExampleNoDouble();
    CollapseCrLfOfNoDouble("a\n{2,}b");
    LiteralLfStep();
    LiteralExampleNoCr();
  }

  lemma LiteralExampleNoDouble()
    ensures NoDoubleCrLf("a\n{2,}b")
  {
    var s := "a\n{2,}b";
    assert s[0] == 'a' && s[2] == '{' && s[4] == ',' && s[6] == 'b';
  }

  lemma LiteralExampleNoCr()
    ensures ReplaceAll("a\nb", "\r{2,}", "\r") == "a\nb"
  {
    MissingCharNoOccurrence("a\nb", "\r{2,}", 1);
    ReplaceAbsent("a\nb", "\r{2,}", "\r");
  }

  lemma LiteralLfStep()
    ensures ReplaceAll("a\n{2,}b", "\n{2,}", "\n") == "a\nb"
  {
    var t := "a\n{2,}b";
    assert t[..5][0] == 'a';
    assert t[1..][..5] == "\n{2,}";
    assert t[1..][5..] == "b";
    assert ReplaceAll("b", "\n{2,}", "\n") == "b";
  }

  /** With a `{` in the text, the literal CR replacement can create a
      double CR LF pair after the CR LF runs have been collapsed, so a
      second call changes the text again. */
  lemma RemoveRepeatingNewLinesNotIdempotent()
    ensures RemoveRepeatingNewLines("\r\n\r{2,}\n") == "\r\n\r\n"
    ensures RemoveRepeatingNewLines("\r\n\r\n") == "\r\n"
  {
    BraceExampleFirstCall();
    CollapseDoubleCrLf();
    RemoveRepeatingNewLinesWithoutBrace("\r\n\r\n");
  }

  lemma BraceExampleFirstCall()
    ensures RemoveRepeatingNewLines("\r\n\r{2,}\n") == "\r\n\r\n"
  {
    BraceExampleNoDouble();
    CollapseCrLfOfNoDouble("\r\n\r{2,}\n");
    BraceExampleNoLiteralLf();
    LiteralCrStep();
  }

  lemma BraceExampleNoDouble()
    ensures NoDoubleCrLf("\r\n\r{2,}\n")
  {
    var s := "\r\n\r{2,}\n";
    assert s[3] == '{' && s[5] == ',' && s[7] == '\n';
  }

  /** The example holds no literal `\n{2,}`: the scan steps over every
      position. */
  lemma BraceExampleNoLiteralLf()
    ensures ReplaceAll("\r\n\r{2,}\n", "\n{2,}", "\n") == "\r\n\r{2,}\n"
  {
    var s := "\r\n\r{2,}\n";
    var w := "\n{2,}";
    assert s[..5][0] == '\r';
    assert s[1..][..5][1] == '\r';
    assert s[2..][..5][0] == '\r';
    assert s[3..][..5][0] == '{';
    assert |s[4..]| < 5;
    assert ReplaceAll(s[3..], w, "\n") == [s[3]] + s[4..];
    assert ReplaceAll(s[2..], w, "\n") == [s[2]] + s[3..];
    assert ReplaceAll(s[1..], w, "\n") == [s[1]] + s[2..];
  }

  lemma LiteralCrStep()
    ensures ReplaceAll("\r\n\r{2,}\n", "\r{2,}", "\r") == "\r\n\r\n"
  {
    var s := "\r\n\r{2,}\n";
    assert s[..5][1] == '\n';
    assert s[1..][..5][0] == '\n';
    assert s[2..][..5] == "\r{2,}";
    assert s[2..][5..] == "\n";
    assert ReplaceAll("\n", "\r{2,}", "\r") == "\n";
  }

  lemma CollapseDoubleCrLf()
    ensures CollapseRuns("\r\n\r\n", CrLf) == CrLf
  {
    var d := "\r\n\r\n";
    StartsWithDoubleCrLf(d);
    StartsWithCrLf(d);
    StartsWithCrLf(d[2..]);
    StartsWithCrLf(d[2..][2..]);
    assert d[2..][2..] == [];
    assert DropUnits(d, CrLf) == [];
    assert CollapseRuns([], CrLf) == [];
  }

  /** Dropping leading units skips a unit put in front. */
  lemma DropUnitsCons(u: string, x: string)
    requires |u| > 0
    ensures DropUnits(u + x, u) == DropUnits(x, u)
  {
    assert StartsWith(u + x, u) by { assert (u + x)[..|u|] == u; }
    assert (u + x)[|u|..] == x;
  }

  /** A doubled unit at the front becomes one unit, and every unit after it
      is dropped. */
  lemma CollapseRunsDoubleFront(u: string, x: string)
    requires |u| > 0
    ensures CollapseRuns(u + u + x, u) == u + CollapseRuns(DropUnits(x, u), u)
  {
    var s := u + u + x;
    assert StartsWith(s, u + u) by { assert s[..|u + u|] == u + u; }
    assert s == u + (u + x);
    DropUnitsCons(u, u + x);
    DropUnitsCons(u, x);
  }

  /** A single CR LF pair at the front is kept as it is. */
  lemma CollapseCrLfSingle(x: string)
    requires !StartsWith(x, CrLf)
    ensures CollapseRuns(CrLf + x, CrLf) == CrLf + CollapseRuns(x, CrLf)
  {
    var t := CrLf + x;
    StartsWithCrLf(x);
    StartsWithDoubleCrLf(t);
    CollapseCrLfFirst(t);
    CollapseCrLfAfterCr(t);
    assert t[2..] == x;
  }

  /** A single `c` at the front is kept as it is. */
  lemma CollapseCharSingle(c: char, x: string)
    requires !(|x| > 0 && x[0] == c)
    ensures CollapseRuns([c] + x, [c]) == [c] + CollapseRuns(x, [c])
  {
    CollapseCharStep([c] + x, c);
    assert ([c] + x)[1..] == x;
  }

  /** A doubled CR LF pair at the front collapses like a single one. */
  lemma CrLfDup(x: string)
    ensures CollapseRuns(CrLf + CrLf + x, CrLf) == CollapseRuns(CrLf + x, CrLf)
  {
    var u := CrLf;
    if StartsWith(x, u) {
      var y := x[2..];
      assert x == u + y && u + x == u + u + y by { assert x[..2] == u; }
      calc {
        CollapseRuns(u + u + x, u);
        { CollapseRunsDoubleFront(u, x); }
        u + CollapseRuns(DropUnits(x, u), u);
        { DropUnitsCons(u, y); }
        u + CollapseRuns(DropUnits(y, u), u);
        { CollapseRunsDoubleFront(u, y); }
        CollapseRuns(u + x, u);
      }
    } else {
      calc {
        CollapseRuns(u + u + x, u);
        { CollapseRunsDoubleFront(u, x); }
        u + CollapseRuns(x, u);
        { CollapseCrLfSingle(x); }
        CollapseRuns(u + x, u);
      }
    }
  }

  /** A doubled `c` at the front collapses like a single one. */
  lemma MarkerDup(c: char, x: string)
    ensures CollapseRuns([c] + [c] + x, [c]) == CollapseRuns([c] + x, [c])
  {
    var u := [c];
    if |x| > 0 && x[0] == c {
      var y := x[1..];
      assert x == u + y && u + x == u + u + y;
      calc {
        CollapseRuns(u + u + x, u);
        { CollapseRunsDoubleFront(u, x); }
        u + CollapseRuns(DropUnits(x, u), u);
        { DropUnitsCons(u, y); }
        u + CollapseRuns(DropUnits(y, u), u);
        { CollapseRunsDoubleFront(u, y); }
        CollapseRuns(u + x, u);
      }
    } else {
      assert !StartsWith(x, u) by {
        if |x| > 0 {
          assert x[..1][0] == x[0];
        }
      }
      calc {
        CollapseRuns(u + u + x, u);
        { CollapseRunsDoubleFront(u, x); }
        u + CollapseRuns(x, u);
        { CollapseCharSingle(c, x); }
        CollapseRuns(u + x, u);
      }
    }
  }

  /** Marking every CR LF pair with a character `m` the text lacks turns
      the collapse of CR LF runs into the collapse of runs of `m`: each run
      of pairs keeps exactly one pair, and every other character is kept in
      order. */
  lemma {:induction false} CollapseCrLfMarker(s: string, m: char)
    requires m !in s
    ensures ReplaceAll(CollapseRuns(s, CrLf), CrLf, [m])
         == CollapseRuns(ReplaceAll(s, CrLf, [m]), [m])
    decreases |s|
  {
    StartsWithDoubleCrLf(s);
    if StartsWith(s, CrLf + CrLf) {
      CrLfMarkerDouble(s, m);
    } else if |s| >= 2 && s[0] == '\r' && s[1] == '\n' {
      CollapseCrLfMarker(s[2..], m);
      CrLfMarkerSingle(s, m);
    } else if |s| > 0 {
      CollapseCrLfMarker(s[1..], m);
      CrLfMarkerOther(s, m);
    }
  }

  /** The step of `CollapseCrLfMarker` for a doubled pair at the front. */
  lemma {:induction false} CrLfMarkerDouble(s: string, m: char)
    requires m !in s
    requires |s| >= 4 && s[0] == '\r' && s[1] == '\n' && s[2] == '\r' && s[3] == '\n'
    ensures ReplaceAll(CollapseRuns(s, CrLf), CrLf, [m])
         == CollapseRuns(ReplaceAll(s, CrLf, [m]), [m])
    decreases |s|, 1
  {
    var s2, x := s[2..], s[4..];
    var z := ReplaceAll(x, CrLf, [m]);
    assert s == CrLf + CrLf + x && s2 == CrLf + x && s2[2..] == x;
    calc {
      ReplaceAll(CollapseRuns(s, CrLf), CrLf, [m]);
      { CrLfDup(x); }
      ReplaceAll(CollapseRuns(s2, CrLf), CrLf, [m]);
      { CollapseCrLfMarker(s2, m); }
      CollapseRuns(ReplaceAll(s2, CrLf, [m]), [m]);
      { ReplaceCrLfFront(s2, [m]); }
      CollapseRuns([m] + z, [m]);
      { MarkerDup(m, z); }
      CollapseRuns([m] + [m] + z, [m]);
      { ReplaceCrLfFront(s, [m]); ReplaceCrLfFront(s2, [m]);
        assert [m] + ([m] + z) == [m] + [m] + z; }
      CollapseRuns(ReplaceAll(s, CrLf, [m]), [m]);
    }
  }

  /** A string that starts with CR LF is that pair and the rest. */
  lemma CrLfPrefix(s: string)
    requires |s| >= 2 && s[0] == '\r' && s[1] == '\n'
    ensures s == CrLf + s[2..]
  {
    assert s[..2] == CrLf;
  }

  /** Marking the pairs of a string that does not start with one leaves a
      first character other than the marker. */
  lemma MarkedHead(t: string, m: char)
    requires m !in t && !StartsWith(t, CrLf)
    ensures !(|ReplaceAll(t, CrLf, [m])| > 0 && ReplaceAll(t, CrLf, [m])[0] == m)
  {
    if |t| > 0 {
      assert t[0] in t;
      StartsWithCrLf(t);
      ReplaceCrLfSkip(t, [m]);
    }
  }

  /** The step of `CollapseCrLfMarker` for a single pair at the front. */
  lemma CrLfMarkerSingle(s: string, m: char)
    requires m !in s
    requires |s| >= 2 && s[0] == '\r' && s[1] == '\n' && !StartsWith(s, CrLf + CrLf)
    requires ReplaceAll(CollapseRuns(s[2..], CrLf), CrLf, [m])
          == CollapseRuns(ReplaceAll(s[2..], CrLf, [m]), [m])
    ensures ReplaceAll(CollapseRuns(s, CrLf), CrLf, [m])
         == CollapseRuns(ReplaceAll(s, CrLf, [m]), [m])
  {
    var t := s[2..];
    var c, y := CollapseRuns(t, CrLf), ReplaceAll(t, CrLf, [m]);
    CrLfPrefix(s);
    assert (CrLf + c)[2..] == c;
    assert !StartsWith(t, CrLf) by {
      StartsWithDoubleCrLf(s);
      StartsWithCrLf(t);
    }
    assert m !in t;
    MarkedHead(t, m);
    calc {
      ReplaceAll(CollapseRuns(s, CrLf), CrLf, [m]);
      { CollapseCrLfSingle(t); }
      ReplaceAll(CrLf + c, CrLf, [m]);
      { ReplaceCrLfFront(CrLf + c, [m]); }
      [m] + ReplaceAll(c, CrLf, [m]);
      [m] + CollapseRuns(y, [m]);
      { CollapseCharSingle(m, y); }
      CollapseRuns([m] + y, [m]);
      { ReplaceCrLfFront(s, [m]); }
      CollapseRuns(ReplaceAll(s, CrLf, [m]), [m]);
    }
  }

  /** The step of `CollapseCrLfMarker` for a first character that does not
      start a pair. */
  lemma CrLfMarkerOther(s: string, m: char)
    requires m !in s
    requires |s| > 0 && !(|s| >= 2 && s[0] == '\r' && s[1] == '\n')
    requires ReplaceAll(CollapseRuns(s[1..], CrLf), CrLf, [m])
          == CollapseRuns(ReplaceAll(s[1..], CrLf, [m]), [m])
    ensures ReplaceAll(CollapseRuns(s, CrLf), CrLf, [m])
         == CollapseRuns(ReplaceAll(s, CrLf, [m]), [m])
  {
    var c := CollapseRuns(s[1..], CrLf);
    var y := ReplaceAll(s[1..], CrLf, [m]);
    StartsWithDoubleCrLf(s);
    CollapseCrLfFirst(s);
    CollapseCrLfHead(s[1..]);
    ReplaceCrLfSkip([s[0]] + c, [m]);
    assert ([s[0]] + c)[1..] == c;
    ReplaceCrLfSkip(s, [m]);
    assert s[0] != m;
    CollapseCharStep([s[0]] + y, m);
    assert ([s[0]] + y)[1..] == y;
  }

  /** On text without `{`, `RemoveRepeatingNewLines` keeps exactly one CR
      LF pair of every run of pairs and changes nothing else: with the
      pairs marked by a character the text lacks, the output is the
      marked input with each run of markers reduced to one. */
  lemma RemoveRepeatingNewLinesCrLfRuns(s: string, m: char)
    requires '{' !in s && m !in s
    ensures ReplaceAll(RemoveRepeatingNewLines(s), CrLf, [m])
         == CollapseRuns(ReplaceAll(s, CrLf, [m]), [m])
  {
    RemoveRepeatingNewLinesWithoutBrace(s);
    CollapseCrLfMarker(s, m);
  }

  // ---------------------------------------------------------------------
  // RemoveRepeatingNewLines as evidently intended
  // ---------------------------------------------------------------------

  /** `c` never appears twice in a row. */
  predicate NoRepeat(s: string, c: char) {
    forall i :: 0 <= i < |s| - 1 ==> !(s[i] == c && s[i + 1] == c)
  }

  /** `RemoveRepeatingNewLines` with all three replacements as regular
      expressions: runs of CR LF pairs, then runs of line feeds, then runs
      of carriage returns each become one. */
  function RemoveRepeatingNewLinesIntended(s: string): string {
    CollapseRuns(CollapseRuns(CollapseRuns(s, CrLf), "\n"), "\r")
  }

  /** Collapsing runs of one character keeps the first character. */
  lemma CollapseCharHead(t: string, c: char)
    requires |t| > 0
    ensures |CollapseRuns(t, [c])| > 0 && CollapseRuns(t, [c])[0] == t[0]
  {
    if StartsWith(t, [c] + [c]) {
      assert t[..2][0] == t[0];
    }
  }

  /** A string with no repeated `d` keeps that property in every suffix. */
  lemma NoRepeatSuffix(s: string, d: char, k: nat)
    requires NoRepeat(s, d) && k <= |s|
    ensures NoRepeat(s[k..], d)
  {
    forall i | 0 <= i < |s[k..]| - 1
      ensures !(s[k..][i] == d && s[k..][i + 1] == d)
    {
      assert s[k..][i] == s[k + i] && s[k..][i + 1] == s[k + i + 1];
    }
  }

  lemma NoRepeatCons(x: char, t: string, d: char)
    requires NoRepeat(t, d)
    requires x == d && |t| > 0 ==> t[0] != d
    ensures NoRepeat([x] + t, d)
  {
    var r := [x] + t;
    forall i | 0 <= i < |r| - 1
      ensures !(r[i] == d && r[i + 1] == d)
    {
      if i > 0 {
        assert r[i] == t[i - 1] && r[i + 1] == t[i];
      }
    }
  }

  lemma StartsWithDoubleChar(s: string, c: char)
    ensures StartsWith(s, [c] + [c]) <==> |s| >= 2 && s[0] == c && s[1] == c
  {
    if |s| >= 2 && s[0] == c && s[1] == c {
      assert s[..2] == [c] + [c];
    }
  }

  /** A run of `c` at the front becomes one `c`, and what follows the run
      does not start with `c`. */
  lemma CollapseCharRun(s: string, c: char)
    requires |s| >= 2 && s[0] == c && s[1] == c
    ensures CollapseRuns(s, [c]) == [c] + CollapseRuns(DropUnits(s, [c]), [c])
    ensures |DropUnits(s, [c])| > 0 ==> DropUnits(s, [c])[0] != c
  {
    StartsWithDoubleChar(s, c);
    var rest := DropUnits(s, [c]);
    if |rest| > 0 {
      assert !StartsWith(rest, [c]);
      assert rest[..1] == [rest[0]];
    }
  }

  /** Without a repeated `c` at the front, the first character is kept. */
  lemma CollapseCharStep(s: string, c: char)
    requires |s| > 0 && !(|s| >= 2 && s[0] == c && s[1] == c)
    ensures CollapseRuns(s, [c]) == [s[0]] + CollapseRuns(s[1..], [c])
  {
    StartsWithDoubleChar(s, c);
  }

  /** After collapsing runs of `c`, no `c` follows another. */
  lemma {:induction false} CollapseCharNoRepeat(s: string, c: char)
    ensures NoRepeat(CollapseRuns(s, [c]), c)
    decreases |s|
  {
    if |s| >= 2 && s[0] == c && s[1] == c {
      var rest := DropUnits(s, [c]);
      CollapseCharRun(s, c);
      CollapseCharNoRepeat(rest, c);
      if |rest| > 0 {
        CollapseCharHead(rest, c);
      }
      NoRepeatCons(c, CollapseRuns(rest, [c]), c);
    } else if |s| > 0 {
      CollapseCharStep(s, c);
      CollapseCharNoRepeat(s[1..], c);
      if |s| > 1 {
        CollapseCharHead(s[1..], c);
      }
      NoRepeatCons(s[0], CollapseRuns(s[1..], [c]), c);
    }
  }

  /** Collapsing runs of `c` creates no repetition of another character. */
  lemma {:induction false} CollapseCharKeepsNoRepeat(s: string, c: char, d: char)
    requires c != d && NoRepeat(s, d)
    ensures NoRepeat(CollapseRuns(s, [c]), d)
    decreases |s|
  {
    var u := [c];
    if StartsWith(s, u + u) {
      var rest := DropUnits(s, u);
      NoRepeatSuffix(s, d, |s| - |rest|);
      CollapseCharKeepsNoRepeat(rest, c, d);
      NoRepeatCons(c, CollapseRuns(rest, u), d);
    } else if |s| > 0 {
      NoRepeatSuffix(s, d, 1);
      CollapseCharKeepsNoRepeat(s[1..], c, d);
      if |s| > 1 {
        CollapseCharHead(s[1..], c);
      }
      NoRepeatCons(s[0], CollapseRuns(s[1..], u), d);
    }
  }

  /** Dropping leading copies of a whitespace unit removes whitespace only. */
  lemma {:induction false} DropUnitsKeepsContent(s: string, u: string)
    requires |u| > 0 && AllWhite(u)
    ensures RemoveWhite(DropUnits(s, u)) == RemoveWhite(s)
    decreases |s|
  {
    if StartsWith(s, u) {
      var t := s[|u|..];
      DropUnitsKeepsContent(t, u);
      assert s == u + t by {
        assert s[..|u|] == u;
      }
      RemoveWhiteAfterWhite(u, t);
    }
  }

  /** Collapsing runs of a whitespace unit removes whitespace only. */
  lemma {:induction false} CollapseRunsKeepsContent(s: string, u: string)
    requires |u| > 0 && AllWhite(u)
    ensures RemoveWhite(CollapseRuns(s, u)) == RemoveWhite(s)
    decreases |s|
  {
    if StartsWith(s, u + u) {
      var rest := DropUnits(s, u);
      CollapseRunsKeepsContent(rest, u);
      DropUnitsKeepsContent(s, u);
      RemoveWhiteAppend(u, CollapseRuns(rest, u));
      RemoveWhiteOfWhite(u);
    } else if |s| > 0 {
      CollapseRunsKeepsContent(s[1..], u);
      RemoveWhiteAppend([s[0]], CollapseRuns(s[1..], u));
      assert s == [s[0]] + s[1..];
      RemoveWhiteAppend([s[0]], s[1..]);
    }
  }

  /** The intended filter leaves no line feed or carriage return repeated,
      and removes line breaks only. */
  lemma RemoveRepeatingNewLinesIntendedSpec(s: string)
    ensures NoRepeat(RemoveRepeatingNewLinesIntended(s), '\n')
    ensures NoRepeat(RemoveRepeatingNewLinesIntended(s), '\r')
    ensures RemoveWhite(RemoveRepeatingNewLinesIntended(s)) == RemoveWhite(s)
  {
    var x1 := CollapseRuns(s, CrLf);
    var x2 := CollapseRuns(x1, "\n");
    CollapseCharNoRepeat(x1, '\n');
    CollapseCharNoRepeat(x2, '\r');
    CollapseCharKeepsNoRepeat(x2, '\r', '\n');
    CollapseRunsKeepsContent(s, CrLf);
    CollapseRunsKeepsContent(x1, "\n");
    CollapseRunsKeepsContent(x2, "\r");
  }

  /** The text with every carriage return and line feed deleted. */
  function RemoveBreaks(s: string): (r: string)
    ensures |r| <= |s|
    decreases |s|
  {
    if |s| == 0 then []
    else if s[0] == '\r' || s[0] == '\n' then RemoveBreaks(s[1..])
    else [s[0]] + RemoveBreaks(s[1..])
  }

  lemma RemoveBreaksCons(x: char, t: string)
    ensures RemoveBreaks([x] + t)
         == (if x == '\r' || x == '\n' then [] else [x]) + RemoveBreaks(t)
  {
    assert ([x] + t)[1..] == t;
  }

  /** Reference definition of collapsing runs of `c`: every `c` that is
      directly followed by another `c` is deleted, so each run keeps its
      last `c` and nothing else changes. */
  function Squeeze(s: string, c: char): (r: string)
    ensures |r| <= |s|
    decreases |s|
  {
    if |s| == 0 then []
    else if |s| >= 2 && s[0] == c && s[1] == c then Squeeze(s[1..], c)
    else [s[0]] + Squeeze(s[1..], c)
  }

  /** The regular-expression collapse of runs of one character agrees with
      the reference definition. */
  lemma {:induction false} CollapseCharIsSqueeze(s: string, c: char)
    ensures CollapseRuns(s, [c]) == Squeeze(s, c)
    decreases |s|
  {
    if |s| >= 2 && s[0] == c && s[1] == c {
      var x := s[2..];
      assert s == [c] + [c] + x && s[1..] == [c] + x;
      MarkerDup(c, x);
      CollapseCharIsSqueeze(s[1..], c);
    } else if |s| > 0 {
      CollapseCharStep(s, c);
      CollapseCharIsSqueeze(s[1..], c);
    }
  }

  /** Squeezing runs of a line-break character deletes line breaks only. */
  lemma {:induction false} SqueezeKeepsNonBreaks(s: string, c: char)
    requires c == '\r' || c == '\n'
    ensures RemoveBreaks(Squeeze(s, c)) == RemoveBreaks(s)
    decreases |s|
  {
    if |s| > 0 {
      assert s == [s[0]] + s[1..];
      SqueezeKeepsNonBreaks(s[1..], c);
      RemoveBreaksCons(s[0], s[1..]);
      if !(|s| >= 2 && s[0] == c && s[1] == c) {
        RemoveBreaksCons(s[0], Squeeze(s[1..], c));
      }
    }
  }

  /** Collapsing runs of CR LF pairs deletes line breaks only. */
  lemma {:induction false} CollapseCrLfKeepsNonBreaks(s: string)
    ensures RemoveBreaks(CollapseRuns(s, CrLf)) == RemoveBreaks(s)
    decreases |s|
  {
    StartsWithDoubleCrLf(s);
    if StartsWith(s, CrLf + CrLf) {
      var x := s[4..];
      CrLfPrefix(s);
      CrLfPrefix(s[2..]);
      assert s[2..][2..] == x;
      assert s == CrLf + CrLf + x;
      CrLfDup(x);
      CollapseCrLfKeepsNonBreaks(s[2..]);
      assert s[1..] == [s[1]] + s[2..];
      RemoveBreaksCons(s[0], s[1..]);
      RemoveBreaksCons(s[1], s[2..]);
    } else if |s| > 0 {
      assert s == [s[0]] + s[1..];
      CollapseCrLfFirst(s);
      CollapseCrLfKeepsNonBreaks(s[1..]);
      RemoveBreaksCons(s[0], CollapseRuns(s[1..], CrLf));
      RemoveBreaksCons(s[0], s[1..]);
    }
  }

  /** The intended filter collapses CR LF runs, then keeps the last of
      every run of line feeds, then the last of every run of carriage
      returns; it deletes line breaks and nothing else. */
  lemma RemoveRepeatingNewLinesIntendedBreaksOnly(s: string)
    ensures RemoveRepeatingNewLinesIntended(s)
         == Squeeze(Squeeze(CollapseRuns(s, CrLf), '\n'), '\r')
    ensures RemoveBreaks(RemoveRepeatingNewLinesIntended(s)) == RemoveBreaks(s)
  {
    var x1 := CollapseRuns(s, CrLf);
    var x2 := CollapseRuns(x1, "\n");
    CollapseCharIsSqueeze(x1, '\n');
    CollapseCharIsSqueeze(x2, '\r');
    CollapseCrLfKeepsNonBreaks(s);
    SqueezeKeepsNonBreaks(x1, '\n');
    SqueezeKeepsNonBreaks(x2, '\r');
  }

  /** The filter as written leaves a run of three line feeds in place. */
  lemma RemoveRepeatingNewLinesLeavesLfRun()
    ensures !NoRepeat(RemoveRepeatingNewLines("a\n\n\nb"), '\n')
  {
    RemoveRepeatingNewLinesKeepsLfRuns();
    assert "a\n\n\nb"[1] == '\n' && "a\n\n\nb"[2] == '\n';
  }
}
