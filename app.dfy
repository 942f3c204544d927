/** The request handlers around `build_csv`: `run_ner`, which guards against
    blank input, asks the inference engine for entities and returns the
    highlighting and the table, and `process_file`, which does the same for
    the contents of an uploaded file. */
module App {
  import opened Whitespace
  import opened Labeling

  datatype Option<T> = None | Some(value: T)

  /** One entity in the highlighting view's format. */
  datatype Highlight = Highlight(entity: string, start: int, end: int)

  /** The value shown by the highlighting view: the text and its entities. */
  datatype Highlighted = Highlighted(text: string, entities: seq<Highlight>)

  /** A UI update: the new value of a component and whether it is shown. */
  datatype Update<T> = Update(value: T, visible: bool)

  /** The inference engine: text to aggregated entities, in its own order. */
  type Engine = string -> seq<Entity>

  /** The renaming of one engine entity into the highlighting format. */
  function ToHighlight(e: Entity): Highlight {
    Highlight(e.group, e.start, e.end)
  }

  /** The engine entity a highlight was made from. */
  function ToEntity(h: Highlight): Entity {
    Entity(h.entity, h.start, h.end)
  }

  /** The highlight list: the entities renamed, one for one, in order. */
  function Highlights(entities: seq<Entity>): (hs: seq<Highlight>)
    ensures |hs| == |entities|
  {
    seq(|entities|, k requires 0 <= k < |entities| => ToHighlight(entities[k]))
  }

  /** The projection loses nothing but the field name: the engine's list,
      order and duplicates included, is recovered from the highlights. */
  lemma {:induction false} HighlightsLoseNothing(entities: seq<Entity>)
    ensures seq(|entities|, k requires 0 <= k < |entities| => ToEntity(Highlights(entities)[k])) == entities
  {
  }

  /** The loop of `run_ner` that builds `highlighted_entities`. */
  method ProjectHighlights(entities: seq<Entity>) returns (hs: seq<Highlight>)
    ensures |hs| == |entities|
    ensures forall k :: 0 <= k < |entities| ==>
              hs[k].entity == entities[k].group &&
              hs[k].start == entities[k].start && hs[k].end == entities[k].end
    ensures hs == Highlights(entities)
  {
    hs := [];
    for n := 0 to |entities|
      invariant hs == Highlights(entities[..n])
    {
      var ent := entities[n];
      assert entities[..n + 1] == entities[..n] + [ent];
      hs := hs + [Highlight(ent.group, ent.start, ent.end)];
    }
    assert entities[..|entities|] == entities;
  }

  /** What `run_ner` returns for non-blank text whose entities are `entities`. */
  function Analysis(text: string, entities: seq<Entity>): (Update<Highlighted>, Update<Option<seq<Row>>>) {
    (Update(Highlighted(text, Highlights(entities)), true), Update(Some(Table(text, entities)), true))
  }

  /** `run_ner`: blank text gives the hidden, empty state whatever the engine
      would answer; otherwise the engine's entities are highlighted and the
      table is built from the same list. */
  method RunNer(text: string, ner: Engine) returns (view: Update<Highlighted>, csv: Update<Option<seq<Row>>>)
    ensures AllSpace(text) ==>
              view == Update(Highlighted("", []), false) && csv == Update(None, false)
    ensures !AllSpace(text) ==> (view, csv) == Analysis(text, ner(text))
  {
    if IsBlank(text) {
      return Update(Highlighted("", []), false), Update(None, false);
    }
    var entities := ner(text);
    var highlighted := ProjectHighlights(entities);
    var table := BuildCsv(text, entities);
    view := Update(Highlighted(text, highlighted), true);
    csv := Update(Some(table), true);
  }

  /** `process_file`, given the contents of the uploaded file (None when no
      file was uploaded): a visible message for a missing or blank file,
      otherwise `run_ner` on the contents. */
  method ProcessFile(contents: Option<string>, ner: Engine) returns (view: Update<Highlighted>, csv: Update<Option<seq<Row>>>)
    ensures contents.None? ==>
              view == Update(Highlighted("Please upload a .txt file.", []), true) && csv == Update(None, false)
    ensures contents.Some? && AllSpace(contents.value) ==>
              view == Update(Highlighted("The uploaded file is empty.", []), true) && csv == Update(None, false)
    ensures contents.Some? && !AllSpace(contents.value) ==>
              (view, csv) == Analysis(contents.value, ner(contents.value))
  {
    if contents.None? {
      return Update(Highlighted("Please upload a .txt file.", []), true), Update(None, false);
    }
    var text := contents.value;
    StripEmptyIffAllSpace(text);
    if Strip(text) == [] {
      return Update(Highlighted("The uploaded file is empty.", []), true), Update(None, false);
    }
    view, csv := RunNer(text, ner);
  }
}
