/**
 * Character classes and the .NET string primitives the filters are built
 * from: the whitespace class shared by `\s` and `Char.IsWhiteSpace`,
 * `String.Trim`, and ordinal `String.Replace`.
 */
module Text {

  /** The .NET whitespace class. `\s` in a .NET regular expression is
      `[\f\n\r\t\v\x85\p{Z}]`, and `Char.IsWhiteSpace` (used by `Trim`) is the
      same set: U+0009..U+000D, U+0020, U+0085, U+00A0 and the remaining
      space, line and paragraph separators. */
  predicate IsWhite(c: char) {
    || c == ' '
    || ('\t' <= c <= '\r')
    || c == '\U{85}'
    || c == '\U{A0}'
    || c == '\U{1680}'
    || ('\U{2000}' <= c <= '\U{200A}')
    || c == '\U{2028}'
    || c == '\U{2029}'
    || c == '\U{202F}'
    || c == '\U{205F}'
    || c == '\U{3000}'
  }

  predicate AllWhite(s: string) {
    forall i :: 0 <= i < |s| ==> IsWhite(s[i])
  }

  /** No whitespace anywhere. */
  predicate NoWhite(s: string) {
    forall i :: 0 <= i < |s| ==> !IsWhite(s[i])
  }

  /** No whitespace at either end. */
  predicate Trimmed(s: string) {
    |s| == 0 || (!IsWhite(s[0]) && !IsWhite(s[|s| - 1]))
  }

  /** The non-whitespace characters of `s`, in order. Two strings with the
      same `RemoveWhite` differ only in their whitespace. */
  function RemoveWhite(s: string): (r: string)
    ensures |r| <= |s|
    ensures forall i :: 0 <= i < |r| ==> !IsWhite(r[i])
  {
    if |s| == 0 then []
    else (if IsWhite(s[0]) then [] else [s[0]]) + RemoveWhite(s[1..])
  }

  lemma {:induction false} RemoveWhiteAppend(a: string, b: string)
    ensures RemoveWhite(a + b) == RemoveWhite(a) + RemoveWhite(b)
  {
    if |a| == 0 {
      assert a + b == b;
    } else {
      assert (a + b)[0] == a[0] && (a + b)[1..] == a[1..] + b;
      RemoveWhiteAppend(a[1..], b);
    }
  }

  lemma {:induction false} RemoveWhiteOfWhite(s: string)
    requires AllWhite(s)
    ensures RemoveWhite(s) == []
  {
    if |s| > 0 {
      RemoveWhiteOfWhite(s[1..]);
    }
  }

  /** A whitespace prefix contributes nothing to `RemoveWhite`. */
  lemma RemoveWhiteAfterWhite(u: string, t: string)
    requires AllWhite(u)
    ensures RemoveWhite(u + t) == RemoveWhite(t)
  {
    RemoveWhiteAppend(u, t);
    RemoveWhiteOfWhite(u);
  }

  /** `RemoveWhite` one character at a time. */
  lemma RemoveWhiteCons(c: char, t: string)
    ensures RemoveWhite([c] + t) == (if IsWhite(c) then [] else [c]) + RemoveWhite(t)
  {
    assert ([c] + t)[0] == c && ([c] + t)[1..] == t;
  }

  /** The number of whitespace characters `s` starts with. */
  function LeadingWhite(s: string): (n: nat)
    ensures n <= |s|
    ensures forall i :: 0 <= i < n ==> IsWhite(s[i])
    ensures n < |s| ==> !IsWhite(s[n])
  {
    if |s| > 0 && IsWhite(s[0]) then 1 + LeadingWhite(s[1..]) else 0
  }

  /** The number of whitespace characters `s` ends with. */
  function TrailingWhite(s: string): (n: nat)
    ensures n <= |s|
    ensures forall i :: |s| - n <= i < |s| ==> IsWhite(s[i])
    ensures n < |s| ==> !IsWhite(s[|s| - 1 - n])
  {
    if |s| > 0 && IsWhite(s[|s| - 1]) then 1 + TrailingWhite(s[..|s| - 1]) else 0
  }

  /** The first character and the rest of `a + b` for a non-empty `a`. */
  lemma AppendHeadTail(a: string, b: string)
    requires |a| > 0
    ensures (a + b)[0] == a[0] && (a + b)[1..] == a[1..] + b
  {
  }

  /** Regrouping `h + (a + b)` as `(h + a) + b`, with every part named. */
  lemma Regroup(x: string, y: string, h: string, a: string, b: string, ab: string)
    requires x == h + ab && ab == a + b && y == h + a
    ensures x == y + b
  {
    assert h + (a + b) == (h + a) + b;
  }

  /** Whitespace at the front of `a` that stops inside `a` is the
      whitespace at the front of `a + b`. */
  lemma {:induction false} LeadingWhiteAppend(a: string, b: string)
    requires LeadingWhite(a) < |a|
    ensures LeadingWhite(a + b) == LeadingWhite(a)
    decreases |a|
  {
    if IsWhite(a[0]) {
      assert (a + b)[1..] == a[1..] + b;
      LeadingWhiteAppend(a[1..], b);
    }
  }

  /** A whitespace run followed by a non-whitespace character, or by
      nothing, is the whole leading whitespace. */
  lemma {:induction false} LeadingWhiteOfRun(w: string, q: string)
    requires AllWhite(w) && (|q| == 0 || !IsWhite(q[0]))
    ensures LeadingWhite(w + q) == |w|
    decreases |w|
  {
    if |w| == 0 {
      assert w + q == q;
    } else {
      assert (w + q)[0] == w[0];
      assert (w + q)[1..] == w[1..] + q;
      assert AllWhite(w[1..]) by {
        forall i | 0 <= i < |w[1..]|
          ensures IsWhite(w[1..][i])
        {
          assert w[1..][i] == w[i + 1];
        }
      }
      LeadingWhiteOfRun(w[1..], q);
    }
  }

  /** `String.TrimStart()`. */
  function TrimStart(s: string): string {
    s[LeadingWhite(s)..]
  }

  /** `String.TrimEnd()`. */
  function TrimEnd(s: string): string {
    s[..|s| - TrailingWhite(s)]
  }

  /** `String.Trim()`. */
  function Trim(s: string): string {
    TrimEnd(TrimStart(s))
  }

  /** `Trim` cuts a whitespace prefix and a whitespace suffix off `s`, and
      what is left has no whitespace at either end. */
  lemma TrimShape(s: string) returns (a: nat, b: nat)
    ensures a + b <= |s| && Trim(s) == s[a..|s| - b]
    ensures forall i :: 0 <= i < a ==> IsWhite(s[i])
    ensures forall i :: |s| - b <= i < |s| ==> IsWhite(s[i])
    ensures Trimmed(Trim(s))
  {
    a := LeadingWhite(s);
    var t := s[a..];
    b := TrailingWhite(t);
    assert Trim(s) == t[..|t| - b];
    assert t[..|t| - b] == s[a..|s| - b];
    forall i | |s| - b <= i < |s|
      ensures IsWhite(s[i])
    {
      assert s[i] == t[i - a];
    }
  }

  /** Trimming removes whitespace only. */
  lemma TrimKeepsContent(s: string)
    ensures RemoveWhite(Trim(s)) == RemoveWhite(s)
  {
    var a, b := TrimShape(s);
    var r := Trim(s);
    var pre, post := s[..a], s[|s| - b..];
    assert s == pre + (r + post);
    assert AllWhite(pre) by {
      assert forall i :: 0 <= i < a ==> pre[i] == s[i];
    }
    assert AllWhite(post) by {
      assert forall i :: 0 <= i < b ==> post[i] == s[|s| - b + i];
    }
    RemoveWhiteAfterWhite(pre, r + post);
    RemoveWhiteAppend(r, post);
    RemoveWhiteOfWhite(post);
  }

  lemma TrimOfTrimmed(s: string)
    requires Trimmed(s)
    ensures Trim(s) == s
  {
  }

  /** `w` occurs in `s` at position `i`. */
  predicate OccursAt(s: string, w: string, i: int) {
    0 <= i && i + |w| <= |s| && s[i..i + |w|] == w
  }

  predicate Occurs(s: string, w: string) {
    exists i :: 0 <= i <= |s| - |w| && OccursAt(s, w, i)
  }

  /** A string that lacks one of the characters of `w` has no occurrence
      of `w`. */
  lemma MissingCharNoOccurrence(s: string, w: string, k: int)
    requires 0 <= k < |w| && w[k] !in s
    ensures !Occurs(s, w)
  {
    forall i | 0 <= i && i + |w| <= |s|
      ensures !OccursAt(s, w, i)
    {
      assert s[i..i + |w|][k] == s[i + k];
      assert s[i + k] in s;
    }
  }

  /** Ordinal `String.Replace(oldValue, newValue)` for a non-empty
      `oldValue`: scans left to right, replaces an occurrence that starts
      at the scan position and resumes after it, so occurrences are
      replaced leftmost first and never overlap. The text produced by a
      replacement is not scanned again. */
  function ReplaceAll(s: string, oldValue: string, newValue: string): (r: string)
    requires |oldValue| > 0
    ensures |newValue| <= |oldValue| ==> |r| <= |s|
    decreases |s|
  {
    if |s| < |oldValue| then s
    else if oldValue <= s then newValue + ReplaceAll(s[|oldValue|..], oldValue, newValue)
    else [s[0]] + ReplaceAll(s[1..], oldValue, newValue)
  }

  /** When `oldValue` does not occur, nothing is replaced. */
  lemma {:induction false} ReplaceAbsent(s: string, oldValue: string, newValue: string)
    requires |oldValue| > 0 && !Occurs(s, oldValue)
    ensures ReplaceAll(s, oldValue, newValue) == s
    decreases |s|
  {
    if |s| >= |oldValue| {
      assert !OccursAt(s, oldValue, 0);
      forall i | 0 <= i && i + |oldValue| <= |s| - 1
        ensures !OccursAt(s[1..], oldValue, i)
      {
        assert s[1..][i..i + |oldValue|] == s[i + 1..i + 1 + |oldValue|];
        assert !OccursAt(s, oldValue, i + 1);
      }
      ReplaceAbsent(s[1..], oldValue, newValue);
    }
  }

  /** Occurrences in the tail of `s` are occurrences in `s`, one place on. */
  lemma OccursAtTail(s: string, w: string, j: nat)
    requires |s| > 0
    ensures OccursAt(s[1..], w, j) <==> OccursAt(s, w, j + 1)
  {
    if j + 1 + |w| <= |s| {
      assert s[1..][j..j + |w|] == s[j + 1..j + 1 + |w|];
    }
  }

  /** Where no occurrence starts, the scan keeps one character and moves
      on. */
  lemma ReplaceSkip(s: string, oldValue: string, newValue: string)
    requires |oldValue| > 0 && |oldValue| < |s| && !OccursAt(s, oldValue, 0)
    ensures ReplaceAll(s, oldValue, newValue) == [s[0]] + ReplaceAll(s[1..], oldValue, newValue)
  {
    assert s[..|oldValue|] != oldValue;
  }

  /** No occurrence before `i` in `s` means none before `i - 1` in its
      tail. */
  lemma NoEarlierOccurrenceInTail(s: string, w: string, i: nat)
    requires 0 < i && |s| > 0
    requires forall j :: 0 <= j < i ==> !OccursAt(s, w, j)
    ensures forall j :: 0 <= j < i - 1 ==> !OccursAt(s[1..], w, j)
  {
    forall j | 0 <= j < i - 1
      ensures !OccursAt(s[1..], w, j)
    {
      OccursAtTail(s, w, j);
    }
  }

  /** A prefix in which no occurrence starts is copied unchanged. */
  lemma {:induction false} ReplaceKeepsPrefix(p: string, q: string, oldValue: string, newValue: string)
    requires |oldValue| > 0 && |oldValue| <= |q|
    requires forall j :: 0 <= j < |p| ==> !OccursAt(p + q, oldValue, j)
    ensures ReplaceAll(p + q, oldValue, newValue) == p + ReplaceAll(q, oldValue, newValue)
    decreases |p|
  {
    if |p| == 0 {
      assert p + q == q;
    } else {
      var s, p' := p + q, p[1..];
      assert s[1..] == p' + q;
      NoEarlierOccurrenceInTail(s, oldValue, |p|);
      ReplaceKeepsPrefix(p', q, oldValue, newValue);
      ReplaceSkip(s, oldValue, newValue);
      var r := ReplaceAll(q, oldValue, newValue);
      assert [s[0]] + (p' + r) == p + r by {
        assert [p[0]] + p' == p;
      }
    }
  }

  /** The text before the first occurrence is copied unchanged. */
  lemma ReplaceUpTo(s: string, oldValue: string, newValue: string, i: nat)
    requires |oldValue| > 0 && i + |oldValue| <= |s|
    requires forall j :: 0 <= j < i ==> !OccursAt(s, oldValue, j)
    ensures ReplaceAll(s, oldValue, newValue) == s[..i] + ReplaceAll(s[i..], oldValue, newValue)
  {
    var p, q := s[..i], s[i..];
    assert s == p + q;
    ReplaceKeepsPrefix(p, q, oldValue, newValue);
  }

  /** An occurrence at the scan position is replaced. */
  lemma ReplaceAtFront(q: string, oldValue: string, newValue: string)
    requires |oldValue| > 0 && OccursAt(q, oldValue, 0)
    ensures ReplaceAll(q, oldValue, newValue) == newValue + ReplaceAll(q[|oldValue|..], oldValue, newValue)
  {
    assert q[..|oldValue|] == oldValue;
    assert oldValue <= q;
  }

  /** Leftmost-first: if the first occurrence of `oldValue` is at `i`, the
      text before it is kept, that occurrence is replaced, and the scan
      resumes right after it. */
  lemma ReplaceFirstOccurrence(s: string, oldValue: string, newValue: string, i: nat)
    requires |oldValue| > 0 && OccursAt(s, oldValue, i)
    requires forall j :: 0 <= j < i ==> !OccursAt(s, oldValue, j)
    ensures ReplaceAll(s, oldValue, newValue)
         == s[..i] + newValue + ReplaceAll(s[i + |oldValue|..], oldValue, newValue)
  {
    var q := s[i..];
    ReplaceUpTo(s, oldValue, newValue, i);
    assert OccursAt(q, oldValue, 0) by {
      assert q[0..|oldValue|] == s[i..i + |oldValue|];
    }
    ReplaceAtFront(q, oldValue, newValue);
    assert q[|oldValue|..] == s[i + |oldValue|..];
  }

  /** Replacing whitespace by whitespace keeps every other character. */
  lemma {:induction false} ReplaceKeepsContent(s: string, oldValue: string, newValue: string)
    requires |oldValue| > 0 && AllWhite(oldValue) && AllWhite(newValue)
    ensures RemoveWhite(ReplaceAll(s, oldValue, newValue)) == RemoveWhite(s)
    decreases |s|
  {
    if |s| >= |oldValue| {
      if s[..|oldValue|] == oldValue {
        ReplaceKeepsContent(s[|oldValue|..], oldValue, newValue);
        RemoveWhiteAppend(newValue, ReplaceAll(s[|oldValue|..], oldValue, newValue));
        RemoveWhiteOfWhite(newValue);
        assert s == oldValue + s[|oldValue|..];
        RemoveWhiteAppend(oldValue, s[|oldValue|..]);
        RemoveWhiteOfWhite(oldValue);
      } else {
        ReplaceKeepsContent(s[1..], oldValue, newValue);
        RemoveWhiteAppend([s[0]], ReplaceAll(s[1..], oldValue, newValue));
        assert s == [s[0]] + s[1..];
        RemoveWhiteAppend([s[0]], s[1..]);
      }
    }
  }

  /** Every character of the result comes from the input or from the
      replacement text. */
  lemma {:induction false} ReplaceChars(s: string, oldValue: string, newValue: string)
    requires |oldValue| > 0
    ensures forall c :: c in ReplaceAll(s, oldValue, newValue) ==> c in s || c in newValue
    decreases |s|
  {
    if |s| >= |oldValue| {
      if s[..|oldValue|] == oldValue {
        ReplaceChars(s[|oldValue|..], oldValue, newValue);
        assert forall c :: c in s[|oldValue|..] ==> c in s;
      } else {
        ReplaceChars(s[1..], oldValue, newValue);
      }
    }
  }

  /** Where the searched text does not start, the scan keeps one
      character and moves on. */
  lemma ReplaceNoPrefix(s: string, oldValue: string, newValue: string)
    requires |oldValue| > 0 && |s| > 0 && !(oldValue <= s)
    ensures ReplaceAll(s, oldValue, newValue) == [s[0]] + ReplaceAll(s[1..], oldValue, newValue)
  {
    if |s| < |oldValue| {
      assert s == [s[0]] + s[1..];
    }
  }

  /** A character that cannot start the searched text is kept. */
  lemma ReplaceCons(x: char, t: string, oldValue: string, newValue: string)
    requires |oldValue| > 0 && x != oldValue[0]
    ensures ReplaceAll([x] + t, oldValue, newValue) == [x] + ReplaceAll(t, oldValue, newValue)
  {
    var s := [x] + t;
    assert s[1..] == t;
    if |oldValue| <= |s| {
      assert s[..|oldValue|][0] == x;
    }
    ReplaceNoPrefix(s, oldValue, newValue);
  }

  lemma NoWhiteTail(p: string)
    requires NoWhite(p) && |p| > 0
    ensures NoWhite(p[1..])
  {
    forall i | 0 <= i < |p[1..]|
      ensures !IsWhite(p[1..][i])
    {
      assert p[1..][i] == p[i + 1];
    }
  }

  lemma AllWhiteSuffix(w: string, k: nat)
    requires AllWhite(w) && k <= |w|
    ensures AllWhite(w[k..])
  {
    forall i | 0 <= i < |w[k..]|
      ensures IsWhite(w[k..][i])
    {
      assert w[k..][i] == w[i + k];
    }
  }

  /** When the searched text starts with whitespace, a prefix without
      whitespace is copied unchanged. */
  lemma {:induction false} ReplaceAfterToken(p: string, t: string, oldValue: string, newValue: string)
    requires |oldValue| > 0 && IsWhite(oldValue[0]) && NoWhite(p)
    ensures ReplaceAll(p + t, oldValue, newValue) == p + ReplaceAll(t, oldValue, newValue)
    decreases |p|
  {
    if |p| == 0 {
      assert p + t == t;
    } else {
      var p' := p[1..];
      assert p + t == [p[0]] + (p' + t);
      NoWhiteTail(p);
      ReplaceAfterToken(p', t, oldValue, newValue);
      ReplaceCons(p[0], p' + t, oldValue, newValue);
      var r := ReplaceAll(t, oldValue, newValue);
      assert [p[0]] + (p' + r) == p + r;
    }
  }

  /** A match of whitespace at the front of a whitespace run followed by
      text without whitespace lies inside the run. */
  lemma MatchInsideRun(w: string, q: string, oldValue: string)
    requires |oldValue| > 0 && AllWhite(oldValue) && NoWhite(q) && oldValue <= w + q
    ensures oldValue <= w
  {
    var s := w + q;
    var k := |oldValue|;
    assert |w| >= k by {
      assert forall i :: 0 <= i < k ==> s[i] == oldValue[i];
      assert |w| < |s| ==> s[|w|] == q[0] && !IsWhite(s[|w|]);
    }
    assert w[..k] == s[..k];
  }

  /** When the searched text is all whitespace, a suffix without
      whitespace after a whitespace run is copied unchanged. */
  lemma {:induction false} ReplaceBeforeToken(w: string, q: string, oldValue: string, newValue: string)
    requires |oldValue| > 0 && AllWhite(oldValue) && AllWhite(w) && NoWhite(q)
    ensures ReplaceAll(w + q, oldValue, newValue) == ReplaceAll(w, oldValue, newValue) + q
    decreases |w|
  {
    var s := w + q;
    if |w| == 0 {
      assert s == q + [];
      ReplaceAfterToken(q, [], oldValue, newValue);
    } else if oldValue <= s {
      var k := |oldValue|;
      MatchInsideRun(w, q, oldValue);
      assert s[k..] == w[k..] + q;
      AllWhiteSuffix(w, k);
      ReplaceBeforeToken(w[k..], q, oldValue, newValue);
    } else {
      assert s[1..] == w[1..] + q;
      AllWhiteSuffix(w, 1);
      ReplaceBeforeToken(w[1..], q, oldValue, newValue);
      assert !(oldValue <= w) by {
        assert oldValue <= w ==> oldValue <= s;
      }
      ReplaceNoPrefix(s, oldValue, newValue);
      ReplaceNoPrefix(w, oldValue, newValue);
    }
  }

  /** Replacing within whitespace that stands between two texts without
      whitespace leaves those texts in place. */
  lemma ReplaceAroundWhite(p: string, w: string, q: string, oldValue: string, newValue: string)
    requires |oldValue| > 0 && AllWhite(oldValue) && AllWhite(w) && NoWhite(p) && NoWhite(q)
    ensures ReplaceAll(p + w + q, oldValue, newValue) == p + ReplaceAll(w, oldValue, newValue) + q
  {
    assert p + w + q == p + (w + q);
    ReplaceAfterToken(p, w + q, oldValue, newValue);
    ReplaceBeforeToken(w, q, oldValue, newValue);
  }

  /** Replacing in whitespace by non-empty whitespace gives whitespace,
      and non-empty text stays non-empty. */
  lemma ReplaceInWhite(w: string, oldValue: string, newValue: string)
    requires |oldValue| > 0 && AllWhite(w) && AllWhite(newValue) && |newValue| > 0
    ensures AllWhite(ReplaceAll(w, oldValue, newValue))
    ensures |w| > 0 ==> |ReplaceAll(w, oldValue, newValue)| > 0
  {
    var r := ReplaceAll(w, oldValue, newValue);
    ReplaceChars(w, oldValue, newValue);
    forall i | 0 <= i < |r|
      ensures IsWhite(r[i])
    {
      assert r[i] in r;
    }
  }

  /** The scan resumes after a replaced occurrence: `"aaa"` has two
      (overlapping) occurrences of `"aa"`, and only the first is removed. */
  lemma ReplaceIsNonOverlapping()
    ensures ReplaceAll("aaa", "aa", "") == "a"
  {
    assert "aaa"[..2] == "aa";
    assert "aaa"[2..] == "a";
  }

  /** The text left around a removed occurrence is not scanned again:
      removing `"ab"` from `"aabb"` leaves `"ab"`. */
  lemma ReplaceIsSinglePass()
    ensures ReplaceAll("aabb", "ab", "") == "ab"
  {
    assert "aabb"[..2][1] == 'a';
    assert "aabb"[1..] == "abb";
    assert "abb"[..2] == "ab";
    assert "abb"[2..] == "b";
  }
}
