/** The Word document the handlers edit, reduced to what they read and change, and the
    paragraph collection the engine loads once and hands to every handler. */
module Host {
  import opened Wrappers
  import opened Document
  import opened Ranges

  /** A comment anchored on a range. */
  datatype Comment = Comment(target: Target, text: string)

  /** `changeTrackingMode`: only "off" and "trackAll" are ever set. */
  datatype TrackingMode = Off | TrackAll

  /** The document as a value: its blocks, its comments, and the next fresh paragraph handle. */
  datatype Doc = Doc(body: seq<Block>, comments: seq<Comment>, nextId: nat)

  /** Which side of a row `insertRows` adds to. */
  datatype InsertLocation = Before | After

  /** The rows `tableRow.insertRows(location, count, values)` adds: as many cells each as the
      row they are placed next to, filled from `values`, with fresh handles from `nextId` on. */
  function AddedRows(body: seq<Block>, t: nat, r: nat, count: nat, values: seq<seq<string>>, nextId: nat): seq<Row>
    requires t < |Tables(body)| && r < |Tables(body)[t]|
  {
    NewRows(count, |Tables(body)[t][r]|, values, nextId)
  }

  /** The document after `insertRows` next to row `r` of table `t`. */
  function InsertRows(d: Doc, t: nat, r: nat, location: InsertLocation, count: nat, values: seq<seq<string>>): Doc
    requires t < |Tables(d.body)| && r < |Tables(d.body)[t]|
  {
    var width := |Tables(d.body)[t][r]|;
    var at := if location == Before then r else r + 1;
    Doc(InsertRowsAt(d.body, t, at, AddedRows(d.body, t, r, count, values, d.nextId)), d.comments, d.nextId + count * width)
  }

  /** The document after `insertTable(rowCount, columnCount, "After", values)` on the paragraph
      of block `k`; the handle after the cells' goes to the empty paragraph Word may add. */
  function InsertTable(d: Doc, k: nat, rowCount: nat, columnCount: nat, values: seq<seq<string>>): Doc
    requires k < |d.body|
  {
    var cells := rowCount * columnCount;
    Doc(InsertTableAfter(d.body, k, NewRows(rowCount, columnCount, values, d.nextId), d.nextId + cells),
        d.comments, d.nextId + cells + 1)
  }

  class WordDocument {
    var body: seq<Block>
    var comments: seq<Comment>
    var nextId: nat
    var changeTrackingMode: TrackingMode

    function State(): Doc
      reads this
    {
      Doc(body, comments, nextId)
    }

    constructor (d: Doc, mode: TrackingMode)
      ensures State() == d && changeTrackingMode == mode
    {
      body, comments, nextId := d.body, d.comments, d.nextId;
      changeTrackingMode := mode;
    }

    /** `setTrackingMode(mode)`: "disable" turns tracking off, anything else tracks all changes. */
    method SetTrackingMode(mode: string)
      modifies this
      ensures changeTrackingMode == if mode == "disable" then Off else TrackAll
      ensures State() == old(State())
    {
      changeTrackingMode := if mode == "disable" then Off else TrackAll;
    }

    /** Puts a whole document state in place; stands for an edit done by code this model does not see. */
    method Assign(d: Doc)
      modifies this
      ensures State() == d && changeTrackingMode == old(changeTrackingMode)
    {
      body, comments, nextId := d.body, d.comments, d.nextId;
    }

    /** `range.insertComment(text)`. */
    method InsertComment(target: Target, text: string)
      modifies this
      ensures State() == old(State()).(comments := old(comments) + [Comment(target, text)])
      ensures changeTrackingMode == old(changeTrackingMode)
    {
      comments := comments + [Comment(target, text)];
    }

    /** `range.font.bold = true`, `.strikeThrough = true` or `.highlightColor = color`. */
    method SetFont(target: Target, st: Style)
      modifies this
      ensures State() == old(State()).(body := Format(old(body), target, st))
      ensures changeTrackingMode == old(changeTrackingMode)
    {
      body := Format(body, target, st);
    }

    /** `range.insertText(text, "End")`. */
    method InsertTextAtEnd(target: Target, text: string)
      modifies this
      ensures State() == old(State()).(body := AppendText(old(body), target, text))
      ensures changeTrackingMode == old(changeTrackingMode)
    {
      body := AppendText(body, target, text);
    }

    /** `paragraph.getRange("Content").insertText(text, "Start")`. */
    method InsertTextAtStart(id: nat, text: string)
      modifies this
      ensures State() == old(State()).(body := PrependText(old(body), id, text))
      ensures changeTrackingMode == old(changeTrackingMode)
    {
      body := PrependText(body, id, text);
    }

    /** `range.delete()`. */
    method Delete(target: Target)
      modifies this
      ensures State() == old(State()).(body := DeleteRange(old(body), target))
      ensures changeTrackingMode == old(changeTrackingMode)
    {
      body := DeleteRange(body, target);
    }

    /** `table.deleteRows(r, 1)` on table `t`. */
    method DeleteRows(t: nat, r: nat)
      requires t < |Tables(body)| && r < |Tables(body)[t]|
      modifies this
      ensures State() == old(State()).(body := RemoveRow(old(body), t, r))
      ensures changeTrackingMode == old(changeTrackingMode)
    {
      body := RemoveRow(body, t, r);
    }

    /** `table.delete()` on table `t`. */
    method DeleteTable(t: nat)
      requires t < |Tables(body)|
      modifies this
      ensures State() == old(State()).(body := ReplaceTable(old(body), t, None))
      ensures changeTrackingMode == old(changeTrackingMode)
    {
      body := ReplaceTable(body, t, None);
    }

    /** `tableRow.insertRows(location, count, values)` on row `r` of table `t`. */
    method InsertRowsNextTo(t: nat, r: nat, location: InsertLocation, count: nat, values: seq<seq<string>>)
      requires t < |Tables(body)| && r < |Tables(body)[t]|
      modifies this
      ensures State() == InsertRows(old(State()), t, r, location, count, values)
      ensures changeTrackingMode == old(changeTrackingMode)
    {
      var d := InsertRows(State(), t, r, location, count, values);
      body, nextId := d.body, d.nextId;
    }

    /** `paragraph.insertTable(rowCount, columnCount, "After", values)` on the paragraph of block `k`. */
    method InsertTableAfterBlock(k: nat, rowCount: nat, columnCount: nat, values: seq<seq<string>>)
      requires k < |body|
      modifies this
      ensures State() == InsertTable(old(State()), k, rowCount, columnCount, values)
      ensures changeTrackingMode == old(changeTrackingMode)
    {
      var d := InsertTable(State(), k, rowCount, columnCount, values);
      body, nextId := d.body, d.nextId;
    }
  }

  /** `context.document.body.paragraphs` once loaded: the handles of the paragraphs in flat
      order at the time of the last load. */
  class ParagraphCollection {
    var items: seq<nat>

    constructor Loaded(word: WordDocument)
      ensures items == FlatIds(word.body)
    {
      items := FlatIds(word.body);
    }

    /** `paragraphs.load("items"); await context.sync()`. */
    method Load(word: WordDocument)
      modifies this
      ensures items == FlatIds(word.body)
    {
      items := FlatIds(word.body);
    }
  }
}
