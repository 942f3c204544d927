/** Word segmentation of `build_csv`: the text is split into maximal runs of
    non-whitespace characters, each recorded with its half-open character
    offsets `[start, end)` into the text. */
module Segmentation {
  import opened Whitespace

  /** One entry of the `words` list: the word's text and its offsets. */
  datatype Word = Word(text: string, start: int, end: int)

  /** The first index at or after `j` that holds whitespace, or the end of
      the text: where the inner scan starting at `j` stops. */
  function WordEnd(text: string, j: nat): (r: nat)
    requires j <= |text|
    ensures j <= r <= |text|
    ensures forall p :: j <= p < r ==> !IsSpace(text[p])
    ensures r == |text| || IsSpace(text[r])
    decreases |text| - j
  {
    if j == |text| || IsSpace(text[j]) then j else WordEnd(text, j + 1)
  }

  /** The words the scan emits from index `i` on, step by step as the outer
      loop takes them: skip one whitespace character, or take the run of
      non-whitespace characters that starts at `i` and continue after it. */
  function SegmentFrom(text: string, i: nat): seq<Word>
    requires i <= |text|
    decreases |text| - i
  {
    if i == |text| then []
    else if IsSpace(text[i]) then SegmentFrom(text, i + 1)
    else
      var j := WordEnd(text, i);
      [Word(text[i..j], i, j)] + SegmentFrom(text, j)
  }

  /** The word list of `build_csv` for the whole text. */
  function Segment(text: string): seq<Word> {
    SegmentFrom(text, 0)
  }

  // ---------------------------------------------------------------------
  // The independent, declarative description of a segmentation.

  /** `w` is a word of `text`: a non-empty, in-bounds run of non-whitespace
      characters, equal to the text between its offsets, that cannot be
      extended on either side. */
  predicate IsWordOf(text: string, w: Word) {
    0 <= w.start < w.end <= |text| &&
    w.text == text[w.start..w.end] &&
    (forall p :: w.start <= p < w.end ==> !IsSpace(text[p])) &&
    (w.start == 0 || IsSpace(text[w.start - 1])) &&
    (w.end == |text| || IsSpace(text[w.end]))
  }

  /** Words appear left to right, with a gap between neighbours. */
  predicate Ordered(ws: seq<Word>) {
    forall a, b :: 0 <= a < b < |ws| ==> ws[a].end < ws[b].start
  }

  /** Index `p` lies inside some word of `ws`. */
  predicate Covered(ws: seq<Word>, p: int) {
    exists k :: 0 <= k < |ws| && ws[k].start <= p < ws[k].end
  }

  /** `ws` is the segmentation of the part of `text` from `i` on. */
  predicate IsSegmentationFrom(text: string, i: nat, ws: seq<Word>) {
    (forall k :: 0 <= k < |ws| ==> IsWordOf(text, ws[k]) && i <= ws[k].start) &&
    Ordered(ws) &&
    (forall p :: i <= p < |text| && !IsSpace(text[p]) ==> Covered(ws, p))
  }

  /** `ws` is the segmentation of `text`: its words, in order, covering every
      non-whitespace character. */
  predicate IsSegmentation(text: string, ws: seq<Word>) {
    IsSegmentationFrom(text, 0, ws)
  }

  /** `i` does not fall strictly inside a run of non-whitespace characters. */
  predicate AtBoundary(text: string, i: nat)
    requires i <= |text|
  {
    i == 0 || i == |text| || IsSpace(text[i - 1]) || IsSpace(text[i])
  }

  /** From a whitespace character, the segmentation of the rest is that of
      the rest after it. */
  lemma SegmentationSkip(text: string, i: nat, ws: seq<Word>)
    requires i < |text| && IsSpace(text[i])
    ensures IsSegmentationFrom(text, i, ws) <==> IsSegmentationFrom(text, i + 1, ws)
  {
  }

  /** A word starting at `i` followed by a segmentation from its end is a
      segmentation from `i`. */
  lemma SegmentationCons(text: string, i: nat, ws: seq<Word>)
    requires |ws| > 0 && IsWordOf(text, ws[0]) && ws[0].start == i
    requires IsSegmentationFrom(text, ws[0].end, ws[1..])
    ensures IsSegmentationFrom(text, i, ws)
  {
  }

  /** A segmentation from a non-whitespace character at a boundary starts with
      the word that runs to the next whitespace, and continues with a
      segmentation from there. */
  lemma SegmentationUncons(text: string, i: nat, ws: seq<Word>)
    requires i < |text| && !IsSpace(text[i])
    requires IsSegmentationFrom(text, i, ws)
    ensures |ws| > 0 && ws[0].start == i && ws[0].end == WordEnd(text, i)
    ensures IsSegmentationFrom(text, ws[0].end, ws[1..])
  {
  }

  /** The scan from a boundary produces a segmentation of the rest of the text. */
  lemma {:induction false} SegmentFromIsSegmentation(text: string, i: nat)
    requires i <= |text| && AtBoundary(text, i)
    ensures IsSegmentationFrom(text, i, SegmentFrom(text, i))
    decreases |text| - i
  {
    if i == |text| {
    } else if IsSpace(text[i]) {
      SegmentFromIsSegmentation(text, i + 1);
      SegmentationSkip(text, i, SegmentFrom(text, i));
    } else {
      var j := WordEnd(text, i);
      var ws := SegmentFrom(text, i);
      SegmentFromIsSegmentation(text, j);
      assert ws[1..] == SegmentFrom(text, j);
      assert IsWordOf(text, ws[0]);
      SegmentationCons(text, i, ws);
    }
  }

  /** A segmentation from a boundary is unique: it is the one the scan produces. */
  lemma {:induction false} SegmentationFromUnique(text: string, i: nat, ws: seq<Word>)
    requires i <= |text| && AtBoundary(text, i)
    requires IsSegmentationFrom(text, i, ws)
    ensures ws == SegmentFrom(text, i)
    decreases |text| - i
  {
    if i == |text| {
      assert |ws| > 0 ==> IsWordOf(text, ws[0]);
    } else if IsSpace(text[i]) {
      SegmentationSkip(text, i, ws);
      SegmentationFromUnique(text, i + 1, ws);
    } else {
      SegmentationUncons(text, i, ws);
      SegmentationFromUnique(text, ws[0].end, ws[1..]);
      assert IsWordOf(text, ws[0]);
      assert ws == [ws[0]] + ws[1..];
    }
  }

  /** `Segment` is exactly the segmentation of the text: it is one, and it is
      the only one. */
  lemma SegmentIsTheSegmentation(text: string, ws: seq<Word>)
    ensures IsSegmentation(text, Segment(text))
    ensures IsSegmentation(text, ws) <==> ws == Segment(text)
  {
    SegmentFromIsSegmentation(text, 0);
    if IsSegmentation(text, ws) {
      SegmentationFromUnique(text, 0, ws);
    }
  }

  /** Every non-whitespace index of the text lies in exactly one word, and no
      whitespace index lies in any word. */
  lemma SegmentPartitionsText(text: string, p: nat)
    requires p < |text|
    ensures !IsSpace(text[p]) <==> Covered(Segment(text), p)
    ensures forall a, b :: 0 <= a < b < |Segment(text)| ==>
              !(Segment(text)[a].start <= p < Segment(text)[a].end &&
                Segment(text)[b].start <= p < Segment(text)[b].end)
  {
    var ws := Segment(text);
    SegmentFromIsSegmentation(text, 0);
    if Covered(ws, p) {
      var k :| 0 <= k < |ws| && ws[k].start <= p < ws[k].end;
      assert IsWordOf(text, ws[k]);
    }
  }

  /** The blank test and the segmentation agree: the text is blank exactly
      when it has no words. */
  lemma BlankIffNoWords(text: string)
    ensures AllSpace(text) <==> Segment(text) == []
  {
    var ws := Segment(text);
    SegmentFromIsSegmentation(text, 0);
    if ws != [] {
      assert IsWordOf(text, ws[0]);
      assert !IsSpace(text[ws[0].start]);
    }
    if !AllSpace(text) {
      var p :| 0 <= p < |text| && !IsSpace(text[p]);
      assert Covered(ws, p);
    }
  }

  // ---------------------------------------------------------------------
  // The words, read in order, give back the text without its whitespace.

  /** The non-whitespace characters of `s`, in order. */
  function NonSpace(s: string): (r: string)
    ensures |r| <= |s|
  {
    if s == [] then [] else (if IsSpace(s[0]) then [] else [s[0]]) + NonSpace(s[1..])
  }

  /** Strings written one after another. */
  function Join(ss: seq<string>): string {
    if ss == [] then [] else ss[0] + Join(ss[1..])
  }

  /** The words' texts, in order. */
  function Texts(ws: seq<Word>): seq<string> {
    seq(|ws|, k requires 0 <= k < |ws| => ws[k].text)
  }

  lemma {:induction false} NonSpaceAppend(a: string, b: string)
    ensures NonSpace(a + b) == NonSpace(a) + NonSpace(b)
  {
    if a != [] {
      assert (a + b)[0] == a[0];
      assert (a + b)[1..] == a[1..] + b;
      NonSpaceAppend(a[1..], b);
    } else {
      assert a + b == b;
    }
  }

  lemma {:induction false} NonSpaceOfWord(s: string)
    requires forall p :: 0 <= p < |s| ==> !IsSpace(s[p])
    ensures NonSpace(s) == s
  {
    if s != [] {
      NonSpaceOfWord(s[1..]);
    }
  }

  lemma {:induction false} JoinSegmentFrom(text: string, i: nat)
    requires i <= |text|
    ensures Join(Texts(SegmentFrom(text, i))) == NonSpace(text[i..])
    decreases |text| - i
  {
    if i == |text| {
    } else if IsSpace(text[i]) {
      JoinSegmentFrom(text, i + 1);
      assert text[i..][1..] == text[i + 1..];
    } else {
      var j := WordEnd(text, i);
      var ws := SegmentFrom(text, i);
      JoinSegmentFrom(text, j);
      assert ws[1..] == SegmentFrom(text, j);
      assert Texts(ws)[1..] == Texts(SegmentFrom(text, j));
      assert text[i..] == text[i..j] + text[j..];
      NonSpaceAppend(text[i..j], text[j..]);
      NonSpaceOfWord(text[i..j]);
    }
  }

  /** Concatenating the words, in order, reproduces the text with only its
      whitespace removed. */
  lemma SegmentReconstructsText(text: string)
    ensures Join(Texts(Segment(text))) == NonSpace(text)
  {
    JoinSegmentFrom(text, 0);
    assert text[0..] == text;
  }

  // ---------------------------------------------------------------------
  // The scan itself.

  /** The two nested `while` loops of `build_csv` that fill `words`. */
  method SegmentWords(text: string) returns (words: seq<Word>)
    ensures words == Segment(text)
    ensures IsSegmentation(text, words)
  {
    words := [];
    var i := 0;
    while i < |text|
      invariant 0 <= i <= |text|
      invariant words + SegmentFrom(text, i) == Segment(text)
      decreases |text| - i
    {
      if IsSpace(text[i]) {
        i := i + 1;
        continue;
      }
      var j := i;
      while j < |text| && !IsSpace(text[j])
        invariant i <= j <= |text|
        invariant WordEnd(text, j) == WordEnd(text, i)
        decreases |text| - j
      {
        j := j + 1;
      }
      words := words + [Word(text[i..j], i, j)];
      i := j;
    }
    SegmentIsTheSegmentation(text, words);
  }
}
