/** Label assignment and the exported table of `build_csv`: every word gets
    the group of the first entity, in the engine's order, that contains or
    overlaps it, or "O" when none does; the table is a `Word,Label` header
    followed by one row per word. */
module Labeling {
  import opened Segmentation

  /** One aggregated entity of the inference engine's output. Offsets are
      taken as they come: nothing requires them to be in bounds, ordered or
      non-empty. The confidence score is never read and is not modelled. */
  datatype Entity = Entity(group: string, start: int, end: int)

  /** One data row of the exported table. */
  datatype Row = Row(word: string, tag: string)

  /** The label of a word that no entity matches. */
  const Outside: string := "O"

  /** The header row of the exported table. */
  const Header: Row := Row("Word", "Label")

  /** The containment test: the span `[start, end)` lies inside the entity. */
  predicate Contains(e: Entity, start: int, end: int) {
    start >= e.start && end <= e.end
  }

  /** The overlap test: the span `[start, end)` and the entity intersect. */
  predicate Overlaps(e: Entity, start: int, end: int) {
    start < e.end && end > e.start
  }

  /** The span passes one of the two tests of the inner loop. */
  predicate Matches(e: Entity, start: int, end: int) {
    Contains(e, start, end) || Overlaps(e, start, end)
  }

  /** The label the inner loop settles on for the span `[start, end)`. */
  function LabelOf(start: int, end: int, entities: seq<Entity>): string
  {
    if entities == [] then Outside
    else if Matches(entities[0], start, end) then entities[0].group
    else LabelOf(start, end, entities[1..])
  }

  /** First match wins: the label is the group of the first entity in the
      list that matches, whatever matches after it; and it is "O" when no
      entity matches. */
  lemma {:induction false} LabelIsFirstMatch(start: int, end: int, entities: seq<Entity>)
    ensures (forall k :: 0 <= k < |entities| ==> !Matches(entities[k], start, end))
              ==> LabelOf(start, end, entities) == Outside
    ensures forall k :: 0 <= k < |entities| && Matches(entities[k], start, end) &&
              (forall m :: 0 <= m < k ==> !Matches(entities[m], start, end))
              ==> LabelOf(start, end, entities) == entities[k].group
  {
    if entities != [] {
      LabelIsFirstMatch(start, end, entities[1..]);
      forall k | 0 < k < |entities| && Matches(entities[k], start, end) &&
                 (forall m :: 0 <= m < k ==> !Matches(entities[m], start, end))
        ensures LabelOf(start, end, entities) == entities[k].group
      {
        assert !Matches(entities[0], start, end);
        assert entities[1..][k - 1] == entities[k];
        forall m | 0 <= m < k - 1 ensures !Matches(entities[1..][m], start, end) {
          assert entities[1..][m] == entities[m + 1];
        }
      }
      if forall k :: 0 <= k < |entities| ==> !Matches(entities[k], start, end) {
        forall m | 0 <= m < |entities| - 1 ensures !Matches(entities[1..][m], start, end) {
          assert entities[1..][m] == entities[m + 1];
        }
      }
    }
  }

  /** For a non-empty span, the containment test implies the overlap test. */
  lemma ContainsImpliesOverlaps(e: Entity, start: int, end: int)
    requires start < end
    ensures Contains(e, start, end) ==> Overlaps(e, start, end)
    ensures Matches(e, start, end) <==> Overlaps(e, start, end)
  {
  }

  /** For a non-empty span, and so for every segmented word, the rule reduces
      to: the first entity that overlaps the span wins; "O" if none does. */
  lemma {:induction false} LabelIsFirstOverlap(start: int, end: int, entities: seq<Entity>)
    requires start < end
    ensures (forall k :: 0 <= k < |entities| ==> !Overlaps(entities[k], start, end))
              ==> LabelOf(start, end, entities) == Outside
    ensures forall k :: 0 <= k < |entities| && Overlaps(entities[k], start, end) &&
              (forall m :: 0 <= m < k ==> !Overlaps(entities[m], start, end))
              ==> LabelOf(start, end, entities) == entities[k].group
  {
    forall k | 0 <= k < |entities| ensures Matches(entities[k], start, end) <==> Overlaps(entities[k], start, end) {
      ContainsImpliesOverlaps(entities[k], start, end);
    }
    LabelIsFirstMatch(start, end, entities);
  }

  /** Two spans from the engine that both contain the word `[0, 5)`: the
      first one listed wins, though the second is longer. A span `[5, 12)`
      that only overlaps the word `[3, 8)` still labels it. */
  lemma FirstMatchExamples()
    ensures LabelOf(0, 5, [Entity("PER", 0, 5), Entity("LOC", 0, 10)]) == "PER"
    ensures LabelOf(0, 5, [Entity("LOC", 0, 10), Entity("PER", 0, 5)]) == "LOC"
    ensures LabelOf(3, 8, [Entity("GPE", 5, 12)]) == "GPE"
    ensures LabelOf(3, 8, [Entity("GPE", 8, 12), Entity("PER", 0, 3)]) == "O"
  {
  }

  /** The rows the label loop builds: one per word, in order. */
  function Rows(words: seq<Word>, entities: seq<Entity>): (rows: seq<Row>)
    ensures |rows| == |words|
  {
    seq(|words|, k requires 0 <= k < |words| => Row(words[k].text, LabelOf(words[k].start, words[k].end, entities)))
  }

  /** The logical content of the exported CSV: header, then one row per word. */
  function Table(text: string, entities: seq<Entity>): seq<Row> {
    [Header] + Rows(Segment(text), entities)
  }

  /** The outer `for` loop of the label assignment, with the inner loop over
      the entities and its early `break`. */
  method AssignLabels(words: seq<Word>, entities: seq<Entity>) returns (rows: seq<Row>)
    ensures |rows| == |words|
    ensures forall k :: 0 <= k < |words| ==>
              rows[k].word == words[k].text &&
              rows[k].tag == LabelOf(words[k].start, words[k].end, entities)
  {
    rows := [];
    for n := 0 to |words|
      invariant |rows| == n
      invariant forall k :: 0 <= k < n ==>
                  rows[k].word == words[k].text &&
                  rows[k].tag == LabelOf(words[k].start, words[k].end, entities)
    {
      var w := words[n];
      var tag := Outside;
      for m := 0 to |entities|
        invariant tag == Outside
        invariant LabelOf(w.start, w.end, entities) == LabelOf(w.start, w.end, entities[m..])
      {
        var ent := entities[m];
        assert entities[m..][1..] == entities[m + 1..];
        if w.start >= ent.start && w.end <= ent.end {
          tag := ent.group;
          break;
        }
        if w.start < ent.end && w.end > ent.start {
          tag := ent.group;
          break;
        }
      }
      assert tag == LabelOf(w.start, w.end, entities);
      rows := rows + [Row(w.text, tag)];
    }
  }

  /** `build_csv` without the file: segment, label, prepend the header. The
      table has the header first and then exactly one row per segmented word,
      in order, carrying that word's text and label. */
  method BuildCsv(text: string, entities: seq<Entity>) returns (table: seq<Row>)
    ensures table == Table(text, entities)
    ensures |table| == |Segment(text)| + 1 && table[0] == Row("Word", "Label")
    ensures forall k :: 0 <= k < |Segment(text)| ==>
              table[k + 1].word == Segment(text)[k].text &&
              table[k + 1].tag == LabelOf(Segment(text)[k].start, Segment(text)[k].end, entities)
  {
    var words := SegmentWords(text);
    var rows := AssignLabels(words, entities);
    table := [Header] + rows;
  }

  /** The word column of a list of rows, in order. */
  function RowWords(rows: seq<Row>): seq<string> {
    seq(|rows|, k requires 0 <= k < |rows| => rows[k].word)
  }

  /** The data rows of the table, read in order, give back the text with
      only its whitespace removed: no word is lost, split or reordered. */
  lemma TableReconstructsText(text: string, entities: seq<Entity>)
    ensures Join(RowWords(Table(text, entities)[1..])) == NonSpace(text)
  {
    assert RowWords(Table(text, entities)[1..]) == Texts(Segment(text));
    SegmentReconstructsText(text);
  }
}
