/** The conversion of a whole feed: the header row once, then, placemark by
    placemark in document order, one data row per placemark whose coordinates
    have at least two parts. A placemark with fewer parts is skipped with a
    warning; a placemark with an odd number of description cells raises an
    uncaught error that ends the run, leaving the rows written so far. */
module Conversion {
  import opened Wrappers
  import opened Seqs
  import opened Text
  import opened Coordinates
  import opened Table
  import opened Row

  /** A placemark reduced to what the extraction reads from it: the text of
      its `coordinates` element, not yet stripped, and the texts of the `<td>`
      cells of its description, in document order. */
  datatype Placemark = Placemark(coordinateText: string, cells: seq<string>)

  /** What one placemark contributes: a data row, or nothing, in which case
      the warning quotes the stripped coordinate text. */
  datatype Step = Emit(row: seq<string>) | Skip(coordinateText: string)

  /** The body of the placemark loop. The coordinates are checked before the
      description is read, so a skipped placemark never fails; a placemark
      that is not skipped fails exactly when it has an odd number of cells. */
  function Extract(p: Placemark): (r: Result<Step, ScrapeError>)
    ensures (r.Success? && r.value.Skip?) <==> Comma !in Strip(p.coordinateText)
    ensures r.Success? && r.value.Skip? ==> r.value.coordinateText == Strip(p.coordinateText)
    ensures r.Failure? <==> Comma in Strip(p.coordinateText) && !Paired(p.cells)
    ensures r.Failure? ==> r.error == OddCellCount(|p.cells|)
    ensures r.Success? && r.value.Emit? ==> |r.value.row| == Width
  {
    var text := Strip(p.coordinateText);
    match Parse(text)
    case None => Success(Skip(text))
    case Some(c) =>
      match Scrape(p.cells)
      case Failure(e) => Failure(e)
      case Success(data) => Success(Emit(Build(c, data)))
  }

  /** The contents of an emitted row: the latitude and longitude are the second
      and first comma-separated fields of the stripped coordinate text, and
      each attribute column holds the value after the last key cell carrying
      its feed label, or the empty string when no key cell does. */
  lemma EmittedRow(p: Placemark)
    requires Extract(p).Success? && Extract(p).value.Emit?
    ensures var row := Extract(p).value.row;
      && LeadingFields(Strip(p.coordinateText), row[1], row[0])
      && forall i :: 0 <= i < |Labels| ==> row[i + 2] == LastValue(p.cells, Labels[i])
  {
    var row := Extract(p).value.row;
    forall i | 0 <= i < |Labels| ensures row[i + 2] == LastValue(p.cells, Labels[i]) {
      ScrapeGet(p.cells, Labels[i]);
    }
  }

  /** What the run writes below the header, and the error that ended it
      early, if any. */
  datatype Written = Written(rows: seq<seq<string>>, abort: Option<ScrapeError>)

  /** The outcome of the loop body for each placemark, in document order. */
  function Steps(ps: seq<Placemark>): (r: seq<Result<Step, ScrapeError>>)
    ensures |r| == |ps|
    ensures forall k :: 0 <= k < |ps| ==> r[k] == Extract(ps[k])
  {
    MapSeq(Extract, ps)
  }

  /** Every row the outcomes emit has the full 13 columns. */
  predicate FullWidth(steps: seq<Result<Step, ScrapeError>>) {
    forall k :: 0 <= k < |steps| && steps[k].Success? && steps[k].value.Emit? ==>
      |steps[k].value.row| == Width
  }

  /** The placemark loop over the outcomes of its body: emitted rows in
      order, skips contribute nothing, and the first error stops the loop. */
  function Run(steps: seq<Result<Step, ScrapeError>>): (w: Written)
    ensures |w.rows| <= |steps|
    decreases |steps|
  {
    if |steps| == 0 then Written([], None)
    else
      var w := Run(steps[1..]);
      match steps[0]
      case Failure(e) => Written([], Some(e))
      case Success(Skip(_)) => w
      case Success(Emit(row)) => Written([row] + w.rows, w.abort)
  }

  /** The run completes exactly when no outcome is an error. */
  lemma {:induction false} RunCompletes(steps: seq<Result<Step, ScrapeError>>)
    ensures Run(steps).abort.None? <==> forall k :: 0 <= k < |steps| ==> steps[k].Success?
    decreases |steps|
  {
    if |steps| > 0 {
      RunCompletes(steps[1..]);
      assert forall k :: 1 <= k < |steps| ==> steps[1..][k - 1] == steps[k];
    }
  }

  /** When every emitted row has 13 columns, so has every row written. */
  lemma {:induction false} RunWidth(steps: seq<Result<Step, ScrapeError>>)
    requires FullWidth(steps)
    ensures forall j :: 0 <= j < |Run(steps).rows| ==> |Run(steps).rows[j]| == Width
    decreases |steps|
  {
    if |steps| > 0 {
      assert FullWidth(steps[1..]) by {
        assert forall k :: 1 <= k < |steps| ==> steps[1..][k - 1] == steps[k];
      }
      RunWidth(steps[1..]);
    }
  }

  /** When every outcome emits a row, the loop completes and writes exactly
      those rows, one per outcome, in order. */
  lemma {:induction false} RunAllEmit(steps: seq<Result<Step, ScrapeError>>)
    requires forall k :: 0 <= k < |steps| ==> steps[k].Success? && steps[k].value.Emit?
    ensures Run(steps).abort.None? && |Run(steps).rows| == |steps|
    ensures forall k :: 0 <= k < |steps| ==> Run(steps).rows[k] == steps[k].value.row
    decreases |steps|
  {
    if |steps| > 0 {
      var rest := steps[1..];
      assert forall k :: 1 <= k < |steps| ==> rest[k - 1] == steps[k];
      RunAllEmit(rest);
      var w := Run(rest);
      assert Run(steps) == Written([steps[0].value.row] + w.rows, w.abort);
      forall k | 1 <= k < |steps| ensures Run(steps).rows[k] == steps[k].value.row {
        assert Run(steps).rows[k] == w.rows[k - 1];
      }
    }
  }

  /** A single outcome on its own: its row, nothing, or its error. */
  lemma RunOne(step: Result<Step, ScrapeError>)
    ensures step.Failure? ==> Run([step]) == Written([], Some(step.error))
    ensures step.Success? && step.value.Skip? ==> Run([step]) == Written([], None)
    ensures step.Success? && step.value.Emit? ==> Run([step]) == Written([step.value.row], None)
  {
    assert [step][1..] == [];
  }

  /** The run over two consecutive stretches writes the rows of the first
      followed by the rows of the second, unless the first already aborted, in
      which case the second is never reached. */
  lemma {:induction false} RunAppend(a: seq<Result<Step, ScrapeError>>, b: seq<Result<Step, ScrapeError>>)
    ensures Run(a).abort.Some? ==> Run(a + b) == Run(a)
    ensures Run(a).abort.None? ==> Run(a + b) == Written(Run(a).rows + Run(b).rows, Run(b).abort)
    decreases |a|
  {
    if |a| == 0 {
      assert a + b == b;
    } else {
      assert (a + b)[0] == a[0];
      assert (a + b)[1..] == a[1..] + b;
      RunAppend(a[1..], b);
    }
  }

  /** An aborted run stopped at its first error `k`: it wrote exactly the rows
      of the outcomes before `k`, and reports `k`'s error. */
  lemma {:induction false} AbortedRun(steps: seq<Result<Step, ScrapeError>>) returns (k: nat)
    requires Run(steps).abort.Some?
    ensures k < |steps| && steps[k].Failure?
    ensures forall j :: 0 <= j < k ==> steps[j].Success?
    ensures Run(steps) == Written(Run(steps[..k]).rows, Some(steps[k].error))
    decreases |steps|
  {
    assert steps == [steps[0]] + steps[1..];
    RunOne(steps[0]);
    RunAppend([steps[0]], steps[1..]);
    if steps[0].Failure? {
      k := 0;
      assert steps[..0] == [];
    } else {
      var k' := AbortedRun(steps[1..]);
      k := k' + 1;
      assert steps[..k] == [steps[0]] + steps[1..][..k'];
      RunAppend([steps[0]], steps[1..][..k']);
      forall j | 0 <= j < k ensures steps[j].Success? {
        if j > 0 { assert steps[j] == steps[1..][j - 1]; }
      }
    }
  }

  /** The output table: the header row, then the rows the run wrote. */
  datatype Csv = Csv(lines: seq<seq<string>>, abort: Option<ScrapeError>)

  /** The whole-file conversion: the header comes first, every line has the
      same 13 columns, at most one line follows per placemark, and the run is
      aborted exactly when some placemark fails. */
  function Convert(ps: seq<Placemark>): (out: Csv)
    ensures |out.lines| >= 1 && out.lines[0] == Header
    ensures forall j :: 0 <= j < |out.lines| ==> |out.lines[j]| == Width
    ensures out.abort.None? <==> forall k :: 0 <= k < |ps| ==> Extract(ps[k]).Success?
    ensures |out.lines| <= |ps| + 1
  {
    var steps := Steps(ps);
    assert FullWidth(steps);
    RunWidth(steps);
    RunCompletes(steps);
    var w := Run(steps);
    Csv([Header] + w.rows, w.abort)
  }

  /** The outcomes of two stretches of placemarks are those of each, in
      order. */
  lemma StepsAppend(a: seq<Placemark>, b: seq<Placemark>)
    ensures Steps(a + b) == Steps(a) + Steps(b)
  {
    MapAppend(Extract, a, b);
  }

  /** Conversion of two stretches of placemarks writes the rows of the first
      followed by the rows of the second, unless the first already aborted. */
  lemma ConvertAppend(a: seq<Placemark>, b: seq<Placemark>)
    ensures Convert(a).abort.Some? ==> Convert(a + b) == Convert(a)
    ensures Convert(a).abort.None? ==>
      Convert(a + b) == Csv(Convert(a).lines + Convert(b).lines[1..], Convert(b).abort)
  {
    StepsAppend(a, b);
    RunAppend(Steps(a), Steps(b));
    HeaderThenRows(Header, Run(Steps(a)).rows, Run(Steps(b)).rows);
  }

  /** Rows written after a header, then more rows: the same as the two
      tables glued with the second header dropped. */
  lemma HeaderThenRows(header: seq<string>, ra: seq<seq<string>>, rb: seq<seq<string>>)
    ensures [header] + (ra + rb) == ([header] + ra) + ([header] + rb)[1..]
  {
    assert ([header] + rb)[1..] == rb;
  }

  /** A skip outcome contributes nothing to the run, wherever it stands. */
  lemma RunSkip(before: seq<Result<Step, ScrapeError>>, step: Result<Step, ScrapeError>,
                after: seq<Result<Step, ScrapeError>>)
    requires step.Success? && step.value.Skip?
    ensures Run(before + [step] + after) == Run(before + after)
  {
    assert before + [step] + after == before + ([step] + after);
    RunAppend(before, [step] + after);
    RunAppend(before, after);
    assert ([step] + after)[1..] == after;
  }

  /** The outcomes around one placemark are those before it, its own, and
      those after it. */
  lemma StepsAround(before: seq<Placemark>, p: Placemark, after: seq<Placemark>)
    ensures Steps(before + [p] + after) == Steps(before) + [Extract(p)] + Steps(after)
  {
    StepsAppend(before + [p], after);
    StepsAppend(before, [p]);
    assert Steps([p]) == [Extract(p)];
  }

  /** A placemark skipped for its coordinates contributes nothing, whatever
      its description holds and wherever it stands. */
  lemma SkippedContributesNothing(before: seq<Placemark>, p: Placemark, after: seq<Placemark>)
    requires Comma !in Strip(p.coordinateText)
    ensures Convert(before + [p] + after) == Convert(before + after)
  {
    StepsAround(before, p, after);
    StepsAppend(before, after);
    RunSkip(Steps(before), Extract(p), Steps(after));
  }

  /** An aborted conversion stopped at its first failing placemark `k`: the
      table holds the header and exactly the rows of the placemarks before
      `k`, and the error is `k`'s. */
  lemma AbortedConvert(ps: seq<Placemark>) returns (k: nat)
    requires Convert(ps).abort.Some?
    ensures k < |ps| && Extract(ps[k]).Failure?
    ensures forall j :: 0 <= j < k ==> Extract(ps[j]).Success?
    ensures Convert(ps) == Csv(Convert(ps[..k]).lines, Some(Extract(ps[k]).error))
  {
    var steps := Steps(ps);
    k := AbortedRun(steps);
    MapPrefix(Extract, ps, k);
  }

  /** The script's loop: write the header, then handle the placemarks one by
      one, writing each emitted row and stopping at the first error. */
  method WriteCsv(ps: seq<Placemark>) returns (out: Csv)
    ensures out == Convert(ps)
  {
    var w := WriteRows(ps);
    out := Csv([Header] + w.rows, w.abort);
  }

  /** The placemark loop on its own: the rows below the header, and the
      error that stopped it, if any. */
  method WriteRows(ps: seq<Placemark>) returns (w: Written)
    ensures w == Run(Steps(ps))
  {
    var steps := Steps(ps);
    var rows := [];
    var k := 0;
    while k < |steps|
      invariant 0 <= k <= |steps|
      invariant Run(steps[..k]) == Written(rows, None)
    {
      var step := steps[k];
      if step.Failure? {
        WriteStepFails(steps, k);
        return Written(rows, Some(step.error));
      }
      WriteStepContinues(steps, k);
      if step.value.Emit? {
        rows := rows + [step.value.row];
      }
      k := k + 1;
    }
    PrefixWhole(steps);
    w := Written(rows, None);
  }

  /** An iteration whose outcome is an error ends the whole run with the
      rows written so far. */
  lemma WriteStepFails(steps: seq<Result<Step, ScrapeError>>, k: nat)
    requires k < |steps| && steps[k].Failure?
    requires Run(steps[..k]).abort.None?
    ensures Run(steps) == Written(Run(steps[..k]).rows, Some(steps[k].error))
  {
    var rest := steps[k..];
    SplitAt(steps, k);
    assert rest[0] == steps[k];
    RunAppend(steps[..k], rest);
  }

  /** An iteration whose outcome is not an error extends the rows by its
      row, if it emits one. */
  lemma WriteStepContinues(steps: seq<Result<Step, ScrapeError>>, k: nat)
    requires k < |steps| && steps[k].Success?
    requires Run(steps[..k]).abort.None?
    ensures Run(steps[..k + 1]).abort.None?
    ensures steps[k].value.Skip? ==> Run(steps[..k + 1]).rows == Run(steps[..k]).rows
    ensures steps[k].value.Emit? ==>
      Run(steps[..k + 1]).rows == Run(steps[..k]).rows + [steps[k].value.row]
  {
    var step := steps[k];
    assert steps[..k + 1] == steps[..k] + [step];
    RunAppend(steps[..k], [step]);
    RunOne(step);
  }

  /** The worked example: Brightness and Confidence cells with coordinates
      `-10.5,34.2,0` give a row with latitude 34.2, longitude -10.5, those
      two attributes and empty strings elsewhere. */
  lemma FeedRowExample()
    ensures Extract(Placemark("-10.5,34.2,0", ["Brightness", "310.5", "Confidence", "85"]))
         == Success(Emit(["34.2", "-10.5", "310.5", "", "", "", "", "", "85", "", "", "", ""]))
  {
    var c := Coordinate("-10.5", "34.2");
    var data := map["Brightness" := "310.5", "Confidence" := "85"];
    FeedRowCoordinates();
    FeedRowCells();
    ExtractEmit(Placemark("-10.5,34.2,0", ["Brightness", "310.5", "Confidence", "85"]), c, data);
    FeedRowBuild();
  }

  /** A placemark whose coordinates and cells both read cleanly gives the
      row built from them. */
  lemma ExtractEmit(p: Placemark, c: Coordinate, data: map<string, string>)
    requires Parse(Strip(p.coordinateText)) == Some(c)
    requires Scrape(p.cells) == Success(data)
    ensures Extract(p) == Success(Emit(Build(c, data)))
  {
  }

  /** The example's row, column by column. */
  lemma FeedRowBuild()
    ensures Build(Coordinate("-10.5", "34.2"), map["Brightness" := "310.5", "Confidence" := "85"])
         == ["34.2", "-10.5", "310.5", "", "", "", "", "", "85", "", "", "", ""]
  {
  }

  /** The example's coordinates: longitude -10.5, latitude 34.2, altitude
      dropped. */
  lemma FeedRowCoordinates()
    ensures Parse(Strip("-10.5,34.2,0")) == Some(Coordinate("-10.5", "34.2"))
  {
    FeedRowStrip();
    FeedRowParse();
  }

  /** The example's coordinate text carries no surrounding whitespace. */
  lemma FeedRowStrip()
    ensures Strip("-10.5,34.2,0") == "-10.5,34.2,0"
  {
    StripTrimmed("-10.5,34.2,0");
  }

  /** The example's coordinate text splits into longitude, latitude and
      altitude. */
  lemma FeedRowParse()
    ensures Parse("-10.5,34.2,0") == Some(Coordinate("-10.5", "34.2"))
  {
    ParseLeadingFields("-10.5", "34.2", ",0");
    assert "-10.5" + [Comma] + "34.2" + ",0" == "-10.5,34.2,0";
  }

  /** The example's cells: two key/value pairs. */
  lemma FeedRowCells()
    ensures Scrape(["Brightness", "310.5", "Confidence", "85"])
         == Success(map["Brightness" := "310.5", "Confidence" := "85"])
  {
    var cells := ["Brightness", "310.5", "Confidence", "85"];
    var es := Entries(cells).value;
    assert es[0] == Entry("Brightness", "310.5") && es[1] == Entry("Confidence", "85");
    assert es == [Entry("Brightness", "310.5"), Entry("Confidence", "85")];
    assert IsLastWrite(es, 0) && IsLastWrite(es, 1);
    assert Assign(es).Keys == {"Brightness", "Confidence"};
  }

  /** Coordinates with a single part give no row and a warning quoting them,
      whatever the description holds. */
  lemma SingleComponentExample(cells: seq<string>)
    ensures Extract(Placemark("34.2", cells)) == Success(Skip("34.2"))
  {
    SingleComponentText();
    ExtractSkip(Placemark("34.2", cells));
  }

  /** The example's coordinate text is already stripped and holds no
      comma. */
  lemma SingleComponentText()
    ensures Comma !in "34.2" && Strip("34.2") == "34.2"
  {
    assert Comma !in "34.2";
    StripTrimmed("34.2");
  }

  /** A placemark whose stripped coordinate text holds no comma is skipped
      with a warning quoting that text. */
  lemma ExtractSkip(p: Placemark)
    requires Comma !in Strip(p.coordinateText)
    ensures Extract(p) == Success(Skip(Strip(p.coordinateText)))
  {
  }

  /** Document order: when every placemark gives a row, the file is the
      header followed by one line per placemark, line `k + 1` holding the row
      of placemark `k`. */
  lemma ConvertAllEmitted(ps: seq<Placemark>)
    requires forall k :: 0 <= k < |ps| ==> Extract(ps[k]).Success? && Extract(ps[k]).value.Emit?
    ensures Convert(ps).abort.None? && |Convert(ps).lines| == |ps| + 1
    ensures forall k :: 0 <= k < |ps| ==> Convert(ps).lines[k + 1] == Extract(ps[k]).value.row
  {
    RunAllEmit(Steps(ps));
  }

  /** A feed without placemarks gives the header row alone. */
  lemma NoPlacemarksExample()
    ensures Convert([]) == Csv([Header], None)
  {
  }
}
