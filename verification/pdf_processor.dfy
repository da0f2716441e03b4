/**
 * The pure steps of `PDFProcessor` (PDFProcessor.cs): the word-confidence
 * filter of `PageOCR`, the rule by which `ProcessPdf` writes one line per
 * crop, the two regex-driven dictionary updates and
 * `CleanDictionaryValues`. The OCR engine, the regex engine and the files
 * are outside: the words the engine's iterator visits and the matches the
 * regex engine finds are inputs.
 */
module PdfProcessor {
  import opened Text
  import StringFilter

  // ---------------------------------------------------------------------
  // PageOCR
  // ---------------------------------------------------------------------

  /** A word the engine's iterator visits, with its word-level confidence. */
  datatype Word = Word(text: string, confidence: real)

  /** The threshold `ProcessPdf` passes to `PageOCR`: `0.85f`, the
      single-precision value nearest 0.85. */
  const ProcessPdfThreshold: real := 0.85000002384185791015625

  /** The texts of the words whose confidence reaches the threshold, in
      iterator order. */
  function KeptWords(words: seq<Word>, threshold: real): (kept: seq<string>)
    ensures |kept| <= |words|
  {
    if |words| == 0 then [] else KeepWord(words[0], threshold) + KeptWords(words[1..], threshold)
  }

  /** One word's contribution: its text when its confidence reaches the
      threshold. */
  function KeepWord(w: Word, threshold: real): seq<string> {
    if w.confidence >= threshold then [w.text] else []
  }

  /** Filtering a sequence of words is filtering its parts in turn: the
      kept words keep the iterator's order. */
  lemma {:induction false} KeptWordsAppend(a: seq<Word>, b: seq<Word>, threshold: real)
    ensures KeptWords(a + b, threshold) == KeptWords(a, threshold) + KeptWords(b, threshold)
  {
    if |a| == 0 {
      assert a + b == b;
    } else {
      var ab := a + b;
      assert ab[0] == a[0] && ab[1..] == a[1..] + b;
      KeptWordsAppend(a[1..], b, threshold);
      var h := KeepWord(a[0], threshold);
      assert KeptWords(ab, threshold) == h + (KeptWords(a[1..], threshold) + KeptWords(b, threshold));
      assert h + (KeptWords(a[1..], threshold) + KeptWords(b, threshold))
          == (h + KeptWords(a[1..], threshold)) + KeptWords(b, threshold);
    }
  }

  /** A word is kept exactly when its confidence is at least the threshold
      (inclusive). */
  lemma {:induction false} KeptWordsMembers(words: seq<Word>, threshold: real, w: string)
    ensures w in KeptWords(words, threshold)
        <==> exists i :: 0 <= i < |words| && words[i].text == w && words[i].confidence >= threshold
  {
    if |words| > 0 {
      KeptWordsMembers(words[1..], threshold, w);
      if exists i :: 0 <= i < |words| && words[i].text == w && words[i].confidence >= threshold {
        var i :| 0 <= i < |words| && words[i].text == w && words[i].confidence >= threshold;
        if i > 0 {
          assert words[1..][i - 1] == words[i];
        }
      }
      if exists i :: 0 <= i < |words[1..]| && words[1..][i].text == w && words[1..][i].confidence >= threshold {
        var i :| 0 <= i < |words[1..]| && words[1..][i].text == w && words[1..][i].confidence >= threshold;
        assert words[i + 1] == words[1..][i];
      }
    }
  }

  /** The `StringBuilder` contents: each kept word followed by one space. */
  function Spaced(ws: seq<string>): string {
    if |ws| == 0 then "" else ws[0] + " " + Spaced(ws[1..])
  }

  /** `PDFProcessor.PageOCR` once the engine has produced `words`. */
  function PageOcr(words: seq<Word>, threshold: real): string {
    Trim(Spaced(KeptWords(words, threshold)))
  }

  /** All the words run together. */
  function Concat(ws: seq<string>): string {
    if |ws| == 0 then "" else ws[0] + Concat(ws[1..])
  }

  /** The words joined by single spaces. */
  function JoinWords(ws: seq<string>): string {
    if |ws| == 0 then ""
    else if |ws| == 1 then ws[0]
    else ws[0] + " " + JoinWords(ws[1..])
  }

  lemma {:induction false} SpacedKeepsContent(ws: seq<string>)
    ensures RemoveWhite(Spaced(ws)) == RemoveWhite(Concat(ws))
  {
    if |ws| > 0 {
      SpacedKeepsContent(ws[1..]);
      RemoveWhiteAppend(ws[0] + " ", Spaced(ws[1..]));
      RemoveWhiteAppend(ws[0], " ");
      RemoveWhiteAppend(ws[0], Concat(ws[1..]));
    }
  }

  /** The `PageOCR` result has no whitespace at either end and keeps every
      non-whitespace character of the kept words, in order. */
  lemma PageOcrTrimmed(words: seq<Word>, threshold: real)
    ensures Trimmed(PageOcr(words, threshold))
    ensures RemoveWhite(PageOcr(words, threshold)) == RemoveWhite(Concat(KeptWords(words, threshold)))
  {
    var sp := Spaced(KeptWords(words, threshold));
    var a, b := TrimShape(sp);
    TrimKeepsContent(sp);
    SpacedKeepsContent(KeptWords(words, threshold));
  }

  /** A word as the engine reports it: not empty, no whitespace at
      either end. */
  predicate IsToken(w: string) {
    |w| > 0 && Trimmed(w)
  }

  lemma {:induction false} JoinWordsTrimmed(ws: seq<string>)
    requires |ws| > 0 && forall i :: 0 <= i < |ws| ==> IsToken(ws[i])
    ensures |JoinWords(ws)| > 0 && Trimmed(JoinWords(ws))
  {
    assert IsToken(ws[0]);
    if |ws| > 1 {
      assert forall i :: 0 <= i < |ws[1..]| ==> ws[1..][i] == ws[i + 1];
      JoinWordsTrimmed(ws[1..]);
      var j := JoinWords(ws);
      var rest := JoinWords(ws[1..]);
      assert j == ws[0] + " " + rest;
      assert j[0] == ws[0][0];
      assert j[|j| - 1] == rest[|rest| - 1];
    }
  }

  lemma {:induction false} SpacedIsJoinPlusSpace(ws: seq<string>)
    requires |ws| > 0
    ensures Spaced(ws) == JoinWords(ws) + " "
  {
    if |ws| > 1 {
      SpacedIsJoinPlusSpace(ws[1..]);
    } else {
      assert Spaced(ws[1..]) == "";
    }
  }

  /** When the engine's words are tokens, `PageOCR` returns exactly the
      words whose confidence reaches the threshold, joined by single
      spaces. */
  lemma PageOcrJoinsKeptWords(words: seq<Word>, threshold: real)
    requires forall i :: 0 <= i < |words| ==> IsToken(words[i].text)
    ensures PageOcr(words, threshold) == JoinWords(KeptWords(words, threshold))
  {
    var kept := KeptWords(words, threshold);
    if |kept| > 0 {
      forall i | 0 <= i < |kept|
        ensures IsToken(kept[i])
      {
        KeptWordsMembers(words, threshold, kept[i]);
      }
      JoinWordsTrimmed(kept);
      SpacedIsJoinPlusSpace(kept);
      var j := JoinWords(kept);
      var sp := j + " ";
      assert LeadingWhite(sp) == 0;
      assert TrailingWhite(sp) == 1 by {
        assert sp[..|sp| - 1] == j;
        assert TrailingWhite(j) == 0;
      }
      assert TrimStart(sp) == sp;
      assert TrimEnd(sp) == j;
    }
  }

  // ---------------------------------------------------------------------
  // ProcessPdf: one results-file line per crop
  // ---------------------------------------------------------------------

  /** The text `ProcessPdf` makes of one crop: `PageOCR` at the `0.85f`
      threshold, then `ReduceWhitespace`. */
  function CropText(words: seq<Word>): string {
    StringFilter.ReduceWhitespace(PageOcr(words, ProcessPdfThreshold))
  }

  /** The append rule: a crop's text is written only when it is neither
      empty nor a single line feed. */
  predicate Written(text: string) {
    text != "" && text != "\n"
  }

  /** The texts written out of a sequence of crop texts, in order. */
  function WrittenLines(texts: seq<string>): (lines: seq<string>)
    ensures |lines| <= |texts|
  {
    if |texts| == 0 then [] else WriteOne(texts[0]) + WrittenLines(texts[1..])
  }

  /** One crop's contribution: its text when it is written. */
  function WriteOne(text: string): seq<string> {
    if Written(text) then [text] else []
  }

  lemma {:induction false} WrittenLinesMembers(texts: seq<string>)
    ensures forall k :: 0 <= k < |WrittenLines(texts)| ==>
      WrittenLines(texts)[k] in texts && Written(WrittenLines(texts)[k])
  {
    if |texts| > 0 {
      WrittenLinesMembers(texts[1..]);
    }
  }

  lemma {:induction false} WrittenLinesAppend(a: seq<string>, b: seq<string>)
    ensures WrittenLines(a + b) == WrittenLines(a) + WrittenLines(b)
  {
    if |a| == 0 {
      assert a + b == b;
    } else {
      var ab := a + b;
      assert ab[0] == a[0] && ab[1..] == a[1..] + b;
      WrittenLinesAppend(a[1..], b);
      var h := WriteOne(a[0]);
      assert WrittenLines(ab) == h + (WrittenLines(a[1..]) + WrittenLines(b));
      assert h + (WrittenLines(a[1..]) + WrittenLines(b)) == (h + WrittenLines(a[1..])) + WrittenLines(b);
    }
  }

  /** `f` applied to each crop, in crop order. */
  function MapCrops(f: seq<Word> -> string, crops: seq<seq<Word>>): (texts: seq<string>)
    ensures |texts| == |crops|
  {
    if |crops| == 0 then [] else [f(crops[0])] + MapCrops(f, crops[1..])
  }

  lemma {:induction false} MapCropsAppend(f: seq<Word> -> string, a: seq<seq<Word>>, b: seq<seq<Word>>)
    ensures MapCrops(f, a + b) == MapCrops(f, a) + MapCrops(f, b)
  {
    if |a| == 0 {
      assert a + b == b;
    } else {
      assert (a + b)[0] == a[0] && (a + b)[1..] == a[1..] + b;
      MapCropsAppend(f, a[1..], b);
    }
  }

  lemma {:induction false} MapCropsAt(f: seq<Word> -> string, crops: seq<seq<Word>>, i: nat)
    requires i < |crops|
    ensures MapCrops(f, crops)[i] == f(crops[i])
  {
    if i > 0 {
      MapCropsAt(f, crops[1..], i - 1);
    }
  }

  /** The text of each crop of a page, in crop order. */
  function CropTexts(crops: seq<seq<Word>>): seq<string> {
    MapCrops(CropText, crops)
  }

  /** The lines `ProcessPdf` appends to the results file for the crops of
      one page, each crop given as the words the engine visits on it. */
  function PageLines(crops: seq<seq<Word>>): (lines: seq<string>)
    ensures |lines| <= |crops|
  {
    WrittenLines(CropTexts(crops))
  }

  /** The lines appended for all pages, in page order. */
  function ProcessPdf(pages: seq<seq<seq<Word>>>): seq<string> {
    if |pages| == 0 then [] else PageLines(pages[0]) + ProcessPdf(pages[1..])
  }

  /** The line-feed test never matters: `ReduceWhitespace` never returns
      `"\n"`, so a crop is written exactly when some word that reaches
      the threshold has a non-whitespace character. */
  lemma CropWrittenIff(words: seq<Word>)
    ensures CropText(words) != "\n"
    ensures Written(CropText(words))
        <==> RemoveWhite(Concat(KeptWords(words, ProcessPdfThreshold))) != ""
  {
    var ocr := PageOcr(words, ProcessPdfThreshold);
    var text := CropText(words);
    StringFilter.ReduceWhitespaceNormalises(ocr);
    PageOcrTrimmed(words, ProcessPdfThreshold);
    assert text != "\n";
    if text != "" {
      assert RemoveWhite(text)[0] == text[0] by {
        assert !IsWhite(text[0]);
      }
    }
  }

  /** Every written line is non-empty and whitespace-normalised. */
  lemma PageLinesNormalised(crops: seq<seq<Word>>)
    ensures forall k :: 0 <= k < |PageLines(crops)| ==>
      PageLines(crops)[k] != "" && StringFilter.Normalised(PageLines(crops)[k])
  {
    var texts := CropTexts(crops);
    WrittenLinesMembers(texts);
    forall i | 0 <= i < |texts|
      ensures StringFilter.Normalised(texts[i])
    {
      MapCropsAt(CropText, crops, i);
      StringFilter.ReduceWhitespaceNormalises(PageOcr(crops[i], ProcessPdfThreshold));
    }
  }

  /** Lines are written in crop order: the lines of consecutive runs of
      crops follow each other. */
  lemma PageLinesAppend(a: seq<seq<Word>>, b: seq<seq<Word>>)
    ensures PageLines(a + b) == PageLines(a) + PageLines(b)
  {
    MapCropsAppend(CropText, a, b);
    WrittenLinesAppend(CropTexts(a), CropTexts(b));
  }

  /** The crops of all pages, page after page. */
  function AllCrops(pages: seq<seq<seq<Word>>>): seq<seq<Word>> {
    if |pages| == 0 then [] else pages[0] + AllCrops(pages[1..])
  }

  /** Page boundaries leave no trace in the results file: its lines are
      those of all crops of the document, in page and crop order. */
  lemma {:induction false} ProcessPdfInCropOrder(pages: seq<seq<seq<Word>>>)
    ensures ProcessPdf(pages) == PageLines(AllCrops(pages))
  {
    if |pages| > 0 {
      ProcessPdfInCropOrder(pages[1..]);
      PageLinesAppend(pages[0], AllCrops(pages[1..]));
    }
  }

  /** A document gets at most one line per crop, and every line is
      non-empty and whitespace-normalised. */
  lemma ProcessPdfLines(pages: seq<seq<seq<Word>>>)
    ensures |ProcessPdf(pages)| <= |AllCrops(pages)|
    ensures forall k :: 0 <= k < |ProcessPdf(pages)| ==>
      ProcessPdf(pages)[k] != "" && StringFilter.Normalised(ProcessPdf(pages)[k])
  {
    ProcessPdfInCropOrder(pages);
    PageLinesNormalised(AllCrops(pages));
  }

  // ---------------------------------------------------------------------
  // Dictionary updates
  // ---------------------------------------------------------------------

  /** The values a `Dictionary<string, object>` holds here: a string, the
      list of strings `AddListFieldToDictionaryFromPattern` stores, or any
      other object. */
  datatype Value = Str(s: string) | StrList(items: seq<string>) | Opaque(id: nat)

  datatype Option<T> = None | Some(value: T)

  const NotFound := "Not found"

  /** One regex match as the values of its groups; group 0 is the whole
      match and a group that did not take part has value `""`. */
  type Groups = seq<string>

  /** `match.Groups[k].Value`: `""` for a group number the pattern lacks. */
  function Group(m: Groups, k: nat): string {
    if k < |m| then m[k] else ""
  }

  /** `AddFieldToDictionaryFromPattern` with the first match of the
      pattern, if any, as `m`. */
  function AddFieldFromPattern(dict: map<string, Value>, fieldName: string, m: Option<Groups>): (r: map<string, Value>)
    ensures r.Keys == dict.Keys + {fieldName}
    ensures forall k :: k in dict && k != fieldName ==> r[k] == dict[k]
    ensures m.None? ==> r[fieldName] == Str(NotFound)
    ensures m.Some? ==> r[fieldName].Str?
    ensures m.Some? ==> |r[fieldName].s| <= |Group(m.value, 1)| + |Group(m.value, 2)| + |Group(m.value, 3)|
  {
    match m
    case None => dict[fieldName := Str(NotFound)]
    case Some(g) => dict[fieldName := Str(Group(g, 1) + Group(g, 2) + Group(g, 3))]
  }

  /** The field is the first three groups run together; groups the pattern
      lacks contribute nothing, so a one-group pattern stores group 1. */
  lemma AddFieldFromPatternValue(dict: map<string, Value>, fieldName: string, g: Groups)
    ensures var v := AddFieldFromPattern(dict, fieldName, Some(g))[fieldName].s;
      && v[..|Group(g, 1)|] == Group(g, 1)
      && v[|Group(g, 1)|..|Group(g, 1)| + |Group(g, 2)|] == Group(g, 2)
      && v[|Group(g, 1)| + |Group(g, 2)|..] == Group(g, 3)
    ensures |g| <= 2 ==> AddFieldFromPattern(dict, fieldName, Some(g))[fieldName] == Str(Group(g, 1))
  {
    var v := AddFieldFromPattern(dict, fieldName, Some(g))[fieldName].s;
    assert v == Group(g, 1) + Group(g, 2) + Group(g, 3);
    if |g| <= 2 {
      assert Group(g, 2) == "" && Group(g, 3) == "";
      assert v == Group(g, 1);
    }
  }

  /** The group-1 values of the matches that have a capture group, in
      match order. */
  function Group1Values(matches: seq<Groups>): (vs: seq<string>)
    ensures |vs| <= |matches|
  {
    if |matches| == 0 then []
    else (if |matches[0]| > 1 then [matches[0][1]] else []) + Group1Values(matches[1..])
  }

  lemma {:induction false} Group1ValuesEmpty(matches: seq<Groups>)
    ensures |Group1Values(matches)| == 0 <==> forall i :: 0 <= i < |matches| ==> |matches[i]| <= 1
  {
    if |matches| > 0 {
      Group1ValuesEmpty(matches[1..]);
      if forall i :: 0 <= i < |matches[1..]| ==> |matches[1..][i]| <= 1 {
        if |matches[0]| <= 1 {
          forall i | 0 <= i < |matches|
            ensures |matches[i]| <= 1
          {
            if i > 0 {
              assert matches[i] == matches[1..][i - 1];
            }
          }
        }
      }
    }
  }

  lemma {:induction false} Group1ValuesAppend(a: seq<Groups>, b: seq<Groups>)
    ensures Group1Values(a + b) == Group1Values(a) + Group1Values(b)
  {
    if |a| == 0 {
      assert a + b == b;
    } else {
      assert (a + b)[0] == a[0] && (a + b)[1..] == a[1..] + b;
      Group1ValuesAppend(a[1..], b);
    }
  }

  /** What `AddListFieldToDictionaryFromPattern` returns and leaves in the
      dictionary. */
  datatype ListUpdate = ListUpdate(found: bool, dict: map<string, Value>)

  /** `AddListFieldToDictionaryFromPattern` with all the pattern's matches,
      in order, as `matches`. The `"Not found"` entry the source adds when
      nothing is found goes into a local list that is then dropped, so it
      never reaches the dictionary. */
  function AddListFieldFromPattern(dict: map<string, Value>, fieldName: string, matches: seq<Groups>): (r: ListUpdate)
  {
    var results := Group1Values(matches);
    if |results| == 0 then ListUpdate(false, dict)
    else ListUpdate(true, dict[fieldName := StrList(results)])
  }

  /** It reports success exactly when some match has a capture group; on
      failure the dictionary is untouched, and on success only `fieldName`
      changes, to the group-1 values in match order. */
  lemma AddListFieldFromPatternSpec(dict: map<string, Value>, fieldName: string, matches: seq<Groups>)
    ensures var r := AddListFieldFromPattern(dict, fieldName, matches);
      && (r.found <==> exists i :: 0 <= i < |matches| && |matches[i]| > 1)
      && (!r.found ==> r.dict == dict)
      && (r.found ==> r.dict.Keys == dict.Keys + {fieldName})
      && (r.found ==> forall k :: k in dict && k != fieldName ==> r.dict[k] == dict[k])
      && (r.found ==> r.dict[fieldName] == StrList(Group1Values(matches)))
  {
    Group1ValuesEmpty(matches);
  }

  // ---------------------------------------------------------------------
  // CleanDictionaryValues
  // ---------------------------------------------------------------------

  /** No whitespace character stands right before a comma. */
  predicate NoWhiteBeforeComma(s: string) {
    forall i :: 0 <= i < |s| - 1 ==> !(IsWhite(s[i]) && s[i + 1] == ',')
  }

  /** `Regex.Replace(s, @"\s+,", ",")`: scanning left to right, a
      whitespace run followed by a comma is one match and becomes the
      comma; a run followed by anything else is not a match at its first
      character, and the scan moves on by one. */
  function CleanCommas(s: string): (r: string)
    ensures |r| <= |s|
    decreases |s|
  {
    if |s| == 0 then []
    else
      var n := LeadingWhite(s);
      if 0 < n < |s| && s[n] == ',' then "," + CleanCommas(s[n + 1..])
      else [s[0]] + CleanCommas(s[1..])
  }

  /** The first character of the cleaned text. */
  lemma CleanCommasHead(s: string)
    requires |s| > 0
    ensures |CleanCommas(s)| > 0
    ensures CleanCommas(s)[0]
         == if 0 < LeadingWhite(s) < |s| && s[LeadingWhite(s)] == ',' then ',' else s[0]
  {
  }

  /** A string that starts with whitespace followed by a comma loses its
      first character to the same match as the rest of the run. */
  lemma LeadingWhiteTail(s: string)
    requires |s| > 1 && IsWhite(s[0])
    ensures LeadingWhite(s) == 1 + LeadingWhite(s[1..])
  {
  }

  /** After cleaning, no whitespace stands right before a comma. */
  lemma {:induction false} CleanCommasNoWhiteBeforeComma(s: string)
    ensures NoWhiteBeforeComma(CleanCommas(s))
    decreases |s|
  {
    if |s| > 0 {
      var n := LeadingWhite(s);
      var r := CleanCommas(s);
      if 0 < n < |s| && s[n] == ',' {
        CleanCommasNoWhiteBeforeComma(s[n + 1..]);
        var t := CleanCommas(s[n + 1..]);
        assert r == "," + t;
        forall i | 0 <= i < |r| - 1
          ensures !(IsWhite(r[i]) && r[i + 1] == ',')
        {
          if i > 0 {
            assert r[i] == t[i - 1] && r[i + 1] == t[i];
          }
        }
      } else {
        CleanCommasNoWhiteBeforeComma(s[1..]);
        var t := CleanCommas(s[1..]);
        assert r == [s[0]] + t;
        if |s| > 1 && IsWhite(s[0]) {
          CleanCommasHead(s[1..]);
          LeadingWhiteTail(s);
          var m := LeadingWhite(s[1..]);
          if 0 < m < |s| - 1 && s[1..][m] == ',' {
            assert false;
          }
          assert t[0] != ',';
        }
        forall i | 0 <= i < |r| - 1
          ensures !(IsWhite(r[i]) && r[i + 1] == ',')
        {
          if i > 0 {
            assert r[i] == t[i - 1] && r[i + 1] == t[i];
          }
        }
      }
    }
  }

  /** A whitespace run and the comma after it leave just the comma. */
  lemma {:induction false} RemoveWhiteBeforeComma(s: string, n: nat)
    requires n < |s| && s[n] == ',' && forall i :: 0 <= i < n ==> IsWhite(s[i])
    ensures RemoveWhite(s) == [','] + RemoveWhite(s[n + 1..])
  {
    var t := s[1..];
    assert s == [s[0]] + t;
    RemoveWhiteCons(s[0], t);
    if n > 0 {
      assert forall i :: 0 <= i < n - 1 ==> t[i] == s[i + 1];
      RemoveWhiteBeforeComma(t, n - 1);
      assert t[n..] == s[n + 1..];
    }
  }

  /** Cleaning removes whitespace and nothing else. */
  lemma {:induction false} CleanCommasKeepsContent(s: string)
    ensures RemoveWhite(CleanCommas(s)) == RemoveWhite(s)
    decreases |s|
  {
    if |s| > 0 {
      var n := LeadingWhite(s);
      if 0 < n < |s| && s[n] == ',' {
        var rest := s[n + 1..];
        CleanCommasKeepsContent(rest);
        assert CleanCommas(s) == [','] + CleanCommas(rest);
        RemoveWhiteCons(',', CleanCommas(rest));
        RemoveWhiteBeforeComma(s, n);
      } else {
        var rest := s[1..];
        CleanCommasKeepsContent(rest);
        assert CleanCommas(s) == [s[0]] + CleanCommas(rest);
        RemoveWhiteCons(s[0], CleanCommas(rest));
        assert s == [s[0]] + rest;
        RemoveWhiteCons(s[0], rest);
      }
    }
  }

  /** Text with no whitespace before a comma is left as it is. */
  lemma {:induction false} CleanCommasOfClean(s: string)
    requires NoWhiteBeforeComma(s)
    ensures CleanCommas(s) == s
    decreases |s|
  {
    if |s| > 0 {
      var n := LeadingWhite(s);
      if 0 < n < |s| {
        assert IsWhite(s[n - 1]);
        assert s[n] != ',';
      }
      assert NoWhiteBeforeComma(s[1..]) by {
        forall i | 0 <= i < |s[1..]| - 1
          ensures !(IsWhite(s[1..][i]) && s[1..][i + 1] == ',')
        {
          assert s[1..][i] == s[i + 1] && s[1..][i + 1] == s[i + 2];
        }
      }
      CleanCommasOfClean(s[1..]);
      assert s == [s[0]] + s[1..];
    }
  }

  /** Cleaning past a character that does not start a whitespace run
      before a comma keeps it. */
  lemma CleanCommasAppendWord(p: string, t: string)
    requires |p| > 0 && !(0 < LeadingWhite(p) < |p| && p[LeadingWhite(p)] == ',')
    requires LeadingWhite(p) < |p|
    ensures CleanCommas(p + t) == [p[0]] + CleanCommas(p[1..] + t)
    ensures CleanCommas(p) == [p[0]] + CleanCommas(p[1..])
  {
    LeadingWhiteAppend(p, t);
    assert (p + t)[0] == p[0] && (p + t)[1..] == p[1..] + t;
    assert (p + t)[LeadingWhite(p)] == p[LeadingWhite(p)];
  }

  /** Cleaning past a whitespace run and the comma after it, both inside
      `p`, leaves the comma. */
  lemma CleanCommasAppendComma(p: string, t: string)
    requires 0 < LeadingWhite(p) < |p| && p[LeadingWhite(p)] == ','
    ensures CleanCommas(p + t) == "," + CleanCommas(p[LeadingWhite(p) + 1..] + t)
    ensures CleanCommas(p) == "," + CleanCommas(p[LeadingWhite(p) + 1..])
  {
    var n := LeadingWhite(p);
    LeadingWhiteAppend(p, t);
    assert (p + t)[n] == p[n] && (p + t)[n + 1..] == p[n + 1..] + t;
  }

  /** Text that ends in a non-whitespace character is cleaned apart from
      what follows it. */
  lemma {:induction false} CleanCommasSplit(p: string, t: string)
    requires |p| == 0 || !IsWhite(p[|p| - 1])
    ensures CleanCommas(p + t) == CleanCommas(p) + CleanCommas(t)
    decreases |p|
  {
    if |p| == 0 {
      assert p + t == t;
    } else {
      var n := LeadingWhite(p);
      assert n < |p|;
      if 0 < n && p[n] == ',' {
        var r := p[n + 1..];
        assert |r| == 0 || r[|r| - 1] == p[|p| - 1];
        CleanCommasSplit(r, t);
        CleanCommasAppendComma(p, t);
        Regroup(CleanCommas(p + t), CleanCommas(p), ",",
                CleanCommas(r), CleanCommas(t), CleanCommas(r + t));
      } else {
        var r := p[1..];
        assert |r| == 0 || r[|r| - 1] == p[|p| - 1];
        CleanCommasSplit(r, t);
        CleanCommasAppendWord(p, t);
        Regroup(CleanCommas(p + t), CleanCommas(p), [p[0]],
                CleanCommas(r), CleanCommas(t), CleanCommas(r + t));
      }
    }
  }

  /** A text that starts with its comma is cleaned past the comma. */
  lemma CleanCommasOfComma(q: string)
    requires |q| > 0 && q[0] == ','
    ensures CleanCommas(q) == "," + CleanCommas(q[1..])
  {
    assert !IsWhite(q[0]);
  }

  /** A whitespace run followed by a comma leaves just the comma. */
  lemma CleanCommasRunComma(w: string, q: string)
    requires |w| > 0 && AllWhite(w)
    requires |q| > 0 && q[0] == ','
    ensures CleanCommas(w + q) == CleanCommas(q)
  {
    var s := w + q;
    assert !IsWhite(q[0]);
    LeadingWhiteOfRun(w, q);
    assert s[|w|] == ',' && s[|w| + 1..] == q[1..];
    CleanCommasOfComma(q);
  }

  /** The first character of a whitespace run not followed by a comma is
      kept. */
  lemma CleanCommasRunStep(w: string, q: string)
    requires |w| > 0 && AllWhite(w)
    requires |q| == 0 || (!IsWhite(q[0]) && q[0] != ',')
    ensures CleanCommas(w + q) == [w[0]] + CleanCommas(w[1..] + q)
  {
    LeadingWhiteOfRun(w, q);
    assert !(|w| < |w + q| && (w + q)[|w|] == ',');
    AppendHeadTail(w, q);
  }

  /** A whitespace run not followed by a comma is kept as it is. */
  lemma {:induction false} CleanCommasKeptRun(w: string, q: string)
    requires |w| > 0 && AllWhite(w)
    requires |q| == 0 || (!IsWhite(q[0]) && q[0] != ',')
    ensures CleanCommas(w + q) == w + CleanCommas(q)
    decreases |w|
  {
    var t := w[1..];
    CleanCommasRunStep(w, q);
    if |t| == 0 {
      assert t + q == q && t + CleanCommas(q) == CleanCommas(q);
    } else {
      CleanCommasKeptRun(t, q);
    }
    Regroup(CleanCommas(w + q), w, [w[0]], t, CleanCommas(q), CleanCommas(t + q));
  }

  /** A whitespace run is removed when a comma follows it and kept as it is
      otherwise. */
  lemma CleanCommasWhiteRun(w: string, q: string)
    requires |w| > 0 && AllWhite(w)
    requires |q| == 0 || !IsWhite(q[0])
    ensures CleanCommas(w + q)
         == (if |q| > 0 && q[0] == ',' then "" else w) + CleanCommas(q)
  {
    if |q| > 0 && q[0] == ',' {
      CleanCommasRunComma(w, q);
    } else {
      CleanCommasKeptRun(w, q);
    }
  }

  /** Whitespace that does not stand before a comma survives cleaning
      unchanged; whitespace before a comma disappears. */
  lemma CleanCommasAround(p: string, w: string, q: string)
    requires |w| > 0 && AllWhite(w)
    requires |p| == 0 || !IsWhite(p[|p| - 1])
    requires |q| == 0 || !IsWhite(q[0])
    ensures CleanCommas(p + (w + q))
         == CleanCommas(p) + ((if |q| > 0 && q[0] == ',' then "" else w) + CleanCommas(q))
  {
    CleanCommasSplit(p, w + q);
    CleanCommasWhiteRun(w, q);
  }

  function CleanValue(v: Value): Value {
    match v
    case Str(s) => Str(CleanCommas(s))
    case _ => v
  }

  /** `PDFProcessor.CleanDictionaryValues`. */
  function CleanDictionaryValues(dict: map<string, Value>): (r: map<string, Value>)
    ensures r.Keys == dict.Keys
  {
    map k | k in dict :: CleanValue(dict[k])
  }

  /** The keys stay; values that are not strings, lists of strings
      included, stay as they are; every string value ends with no
      whitespace before a comma and loses whitespace only
      (`CleanCommasAround` says what is kept); and cleaning twice is
      cleaning once. */
  lemma CleanDictionaryValuesSpec(dict: map<string, Value>)
    ensures var r := CleanDictionaryValues(dict);
      && r.Keys == dict.Keys
      && (forall k :: k in dict && !dict[k].Str? ==> r[k] == dict[k])
      && (forall k :: k in dict && dict[k].Str? ==>
            && r[k].Str?
            && NoWhiteBeforeComma(r[k].s)
            && RemoveWhite(r[k].s) == RemoveWhite(dict[k].s))
      && CleanDictionaryValues(r) == r
  {
    var r := CleanDictionaryValues(dict);
    forall k | k in dict && dict[k].Str?
      ensures NoWhiteBeforeComma(r[k].s) && RemoveWhite(r[k].s) == RemoveWhite(dict[k].s)
    {
      CleanCommasNoWhiteBeforeComma(dict[k].s);
      CleanCommasKeepsContent(dict[k].s);
    }
    forall k | k in r
      ensures CleanValue(r[k]) == r[k]
    {
      if r[k].Str? {
        CleanCommasOfClean(r[k].s);
      }
    }
  }
}
