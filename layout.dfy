/**
 * The layout of `entry_backend_harfbuzz_update` (src/entry_backend/harfbuzz.c):
 * the prompt, then the input (or its placeholder, or its masked form), then
 * one row per result, each placed a step further along the canvas, until the
 * rows run out or, when the number of rows is left to the backend, the clip
 * area is full. The canvas transform is modelled by its translation (a
 * `Point`), and shaping and measuring text by the oracle `measure`.
 */
module ResultLayout {
  import opened Base
  import opened MatchHighlight
  import MaskedInput

  /**
   * The parts of `struct entry` the update reads. `numResults == 0` asks the
   * backend to fit as many rows as the clip area holds; `fontHeight` is the
   * height Cairo reports for the font.
   */
  datatype Config = Config(
    horizontal: bool,
    clipX: int, clipY: int, clipWidth: int, clipHeight: int,
    numResults: nat,
    firstResult: nat,
    selection: nat,
    resultSpacing: int,
    fontHeight: real,
    highlightAlpha: real,
    promptText: Text,
    promptPadding: int,
    placeholderText: Text,
    input: Text,
    hideInput: bool,
    inputChars: nat,
    hiddenCharacter: Text,
    inputWidth: nat)

  /** Conversion of a non-negative `double` to `uint32_t`: the fractional part is dropped. */
  function Truncate(x: real): (n: nat)
    ensures x >= 0.0 ==> n as real <= x < n as real + 1.0
  {
    if x < 0.0 then 0 else x.Floor
  }

  /**
   * `size_overflows`: whether something of the given size drawn at `at`
   * would pass the far edge of the clip area, along the axis the results
   * are laid out on.
   */
  function SizeOverflows(c: Config, at: Point, width: nat, height: nat): (over: bool)
    ensures !over && c.horizontal ==> at.x <= (c.clipX + c.clipWidth) as real
    ensures !over && !c.horizontal ==> at.y <= (c.clipY + c.clipHeight) as real
  {
    if c.horizontal then at.x + width as real > (c.clipX + c.clipWidth) as real
    else at.y + height as real > (c.clipY + c.clipHeight) as real
  }

  /**
   * Only the layout axis is tested: the other coordinate and size play no
   * part; reaching the clip edge exactly is not overflowing; and whatever
   * fits still fits when made smaller.
   */
  lemma SizeOverflowsAxis(c: Config, at: Point, width: nat, height: nat, at2: Point, width2: nat, height2: nat)
    ensures c.horizontal && at2.x == at.x && width2 == width
      ==> SizeOverflows(c, at2, width2, height2) == SizeOverflows(c, at, width, height)
    ensures !c.horizontal && at2.y == at.y && height2 == height
      ==> SizeOverflows(c, at2, width2, height2) == SizeOverflows(c, at, width, height)
    ensures c.horizontal && at.x + width as real == (c.clipX + c.clipWidth) as real ==> !SizeOverflows(c, at, width, height)
    ensures !c.horizontal && at.y + height as real == (c.clipY + c.clipHeight) as real ==> !SizeOverflows(c, at, width, height)
    ensures at2 == at && width2 <= width && height2 <= height && !SizeOverflows(c, at, width, height)
      ==> !SizeOverflows(c, at2, width2, height2)
  {
  }

  /** The number of rows the loop may draw at most. */
  function CandidateCount(c: Config, count: nat): (n: nat)
    ensures n <= count && (c.numResults > 0 ==> n <= c.numResults)
  {
    if c.numResults == 0 then count else Min(c.numResults, count)
  }

  /** Which of the three result themes a row is drawn with. */
  datatype Role = DefaultRow | AlternateRow | SelectedRow

  /**
   * The selection theme for the row on screen at the selection; otherwise
   * the alternate theme for odd result indices and the default theme for
   * even ones.
   */
  function RowRole(i: nat, index: nat, selection: nat): (r: Role)
    ensures r == SelectedRow <==> i == selection
    ensures r == AlternateRow <==> i != selection && index % 2 == 1
  {
    if i == selection then SelectedRow else if index % 2 == 1 then AlternateRow else DefaultRow
  }

  /** The selected row is split and highlighted when the highlight colour is visible. */
  predicate Highlighted(c: Config, i: nat)
  {
    i == c.selection && c.highlightAlpha != 0.0
  }

  /** The translation applied before row i: past the previous run and the spacing, or one line down. */
  function Step(c: Config, at: Point, advance: real): (next: Point)
    ensures c.horizontal ==> next.y == at.y
    ensures !c.horizontal ==> next.x == at.x
  {
    if c.horizontal then Point(at.x + advance + c.resultSpacing as real, at.y)
    else Point(at.x, at.y + c.fontHeight + c.resultSpacing as real)
  }

  /** The extents of a row: the whole result's, or the combined extents of its highlighted parts. */
  function Measured(c: Config, result: Text, measure: Text -> Extents, find: Finder, i: nat): Extents
  {
    if Highlighted(c, i) then Combined(Split(result, c.input, Locate(result, c.input, c.highlightAlpha, find)), measure)
    else measure(result)
  }

  /** One row drawn: which result, with which theme, highlighted or not, where, and its extents. */
  datatype Row = Row(index: nat, role: Role, highlighted: bool, origin: Point, extents: Extents)

  /** Row i as it is drawn (or drawn aside, to be measured) at `at`. */
  function Candidate(c: Config, results: seq<Text>, measure: Text -> Extents, find: Finder, i: nat, at: Point): Row
    requires c.firstResult + i < |results|
  {
    var index := c.firstResult + i;
    Row(index, RowRole(i, index, c.selection), Highlighted(c, i), at, Measured(c, results[index], measure, find, i))
  }

  /**
   * Whether a row is kept: always with a fixed number of rows and for the
   * highlighted selection; when fitting rows vertically, if a line of text
   * fits below its origin; when fitting rows horizontally, if its measured
   * advance fits.
   */
  predicate Kept(c: Config, row: Row): (kept: bool)
    ensures row.highlighted || c.numResults > 0 ==> kept
  {
    if row.highlighted || c.numResults > 0 then true
    else if !c.horizontal then !SizeOverflows(c, row.origin, 0, Truncate(c.fontHeight))
    else !SizeOverflows(c, row.origin, Truncate(row.extents.xAdvance), 0)
  }

  /**
   * The rows the result loop draws from its iteration i on, the canvas
   * translated to `at` and the last run drawn having advanced the pen by
   * `advance`. The check against `numResults` can never stop the loop; it is
   * kept because the source has it.
   */
  function RowsFrom(c: Config, results: seq<Text>, measure: Text -> Extents, find: Finder,
                    i: nat, at: Point, advance: real): (rows: seq<Row>)
    decreases CandidateCount(c, |results|) - i
  {
    if i >= CandidateCount(c, |results|) then []
    else
      var next := Step(c, at, advance);
      if c.numResults == 0 && SizeOverflows(c, next, 0, 0) then []
      else if c.numResults != 0 && i >= c.numResults then []
      else if c.firstResult + i >= |results| then []
      else
        var row := Candidate(c, results, measure, find, i, next);
        if !Kept(c, row) then []
        else [row] + RowsFrom(c, results, measure, find, i + 1, next, row.extents.xAdvance)
  }

  /** The text shown in the input field: the placeholder, the masked input, or the input itself. */
  function InputText(c: Config): Text
  {
    if |c.input| == 0 then c.placeholderText
    else if c.hideInput then MaskedInput.UpToNul(MaskedInput.Repeat(c.hiddenCharacter, c.inputChars) + [0])
    else c.input
  }

  /** Where the input is drawn: past the prompt's advance and the prompt padding. */
  function InputOrigin(c: Config, measure: Text -> Extents, origin: Point): Point
  {
    Point(origin.x + measure(c.promptText).xAdvance + c.promptPadding as real, origin.y)
  }

  /** `struct entry`, of which the update writes only the number of rows drawn. */
  class Entry {
    const config: Config
    const results: seq<Text>
    var numResultsDrawn: nat

    constructor (config: Config, results: seq<Text>)
      ensures this.config == config && this.results == results && numResultsDrawn == 0
    {
      this.config := config;
      this.results := results;
      numResultsDrawn := 0;
    }

    /**
     * The result loop, starting with the canvas at `start` and the input's
     * advance `inputAdvance`; records how many rows were drawn.
     */
    method DrawResults(measure: Text -> Extents, find: Finder, start: Point, inputAdvance: real)
      returns (rows: seq<Row>)
      modifies this
      ensures rows == RowsFrom(config, results, measure, find, 0, start, inputAdvance)
      ensures numResultsDrawn == |rows|
    {
      var n := if config.numResults == 0 then |results| else Min(config.numResults, |results|);
      var at, advance := start, inputAdvance;
      var i := 0;
      rows := [];
      while i < n
        invariant i <= n && |rows| == i
        invariant rows + RowsFrom(config, results, measure, find, i, at, advance)
               == RowsFrom(config, results, measure, find, 0, start, inputAdvance)
        decreases n - i
      {
        var next := Step(config, at, advance);
        if config.numResults == 0 && SizeOverflows(config, next, 0, 0) {
          break;
        }
        var index := i + config.firstResult;
        if index >= |results| {
          break;
        }
        var result := results[index];
        var highlighted := i == config.selection && config.highlightAlpha != 0.0;
        var extents: Extents;
        if !highlighted {
          if config.numResults > 0 {
            extents := measure(result);
          } else if !config.horizontal {
            if SizeOverflows(config, next, 0, Truncate(config.fontHeight)) {
              break;
            }
            extents := measure(result);
          } else {
            extents := measure(result);
            if SizeOverflows(config, next, Truncate(extents.xAdvance), 0) {
              break;
            }
          }
        } else {
          extents := Combined(Split(result, config.input, Locate(result, config.input, config.highlightAlpha, find)), measure);
        }
        var row := Row(index, RowRole(i, index, config.selection), highlighted, next, extents);
        assert row == Candidate(config, results, measure, find, i, next);
        assert RowsFrom(config, results, measure, find, i, at, advance)
            == [row] + RowsFrom(config, results, measure, find, i + 1, next, extents.xAdvance);
        assert (rows + [row]) + RowsFrom(config, results, measure, find, i + 1, next, extents.xAdvance)
            == rows + ([row] + RowsFrom(config, results, measure, find, i + 1, next, extents.xAdvance));
        rows := rows + [row];
        at, advance := next, extents.xAdvance;
        i := i + 1;
      }
      numResultsDrawn := i;
    }

    /**
     * `entry_backend_harfbuzz_update` from the canvas origin: the prompt,
     * then the input field at least `inputWidth` wide, then the results.
     */
    method Update(measure: Text -> Extents, find: Finder, origin: Point) returns (inputText: Text, rows: seq<Row>)
      modifies this
      ensures inputText == InputText(config)
      ensures rows == RowsFrom(config, results, measure, find, 0, InputOrigin(config, measure, origin),
                               MaxReal(measure(inputText).xAdvance, config.inputWidth as real))
      ensures numResultsDrawn == |rows|
    {
      var prompt := measure(config.promptText);
      var at := Point(origin.x + prompt.xAdvance + config.promptPadding as real, origin.y);
      if |config.input| == 0 {
        inputText := config.placeholderText;
      } else if config.hideInput {
        var buf := MaskedInput.BuildMasked(config.inputChars, config.hiddenCharacter);
        inputText := MaskedInput.UpToNul(buf[..]);
      } else {
        inputText := config.input;
      }
      var extents := measure(inputText);
      rows := DrawResults(measure, find, at, MaxReal(extents.xAdvance, config.inputWidth as real));
    }
  }

  // ---------------------------------------------------------------------
  // Properties of the rows drawn
  // ---------------------------------------------------------------------

  /**
   * Row k drawn from iteration i on shows result `firstResult + i + k`, with
   * the theme and highlighting of position i + k and its extents; there are
   * never more rows than candidates, nor than results past the first shown.
   */
  lemma {:induction false} RowShape(c: Config, results: seq<Text>, measure: Text -> Extents, find: Finder,
                                    i: nat, at: Point, advance: real)
    ensures var rows := RowsFrom(c, results, measure, find, i, at, advance);
      && (rows != [] ==> i + |rows| <= CandidateCount(c, |results|) && c.firstResult + i + |rows| <= |results|)
      && forall k | 0 <= k < |rows| ::
           && rows[k].index == c.firstResult + i + k
           && rows[k].role == RowRole(i + k, c.firstResult + i + k, c.selection)
           && rows[k].highlighted == Highlighted(c, i + k)
           && rows[k].extents == Measured(c, results[c.firstResult + i + k], measure, find, i + k)
    decreases CandidateCount(c, |results|) - i
  {
    var rows := RowsFrom(c, results, measure, find, i, at, advance);
    if rows != [] {
      var next := Step(c, at, advance);
      var row := rows[0];
      var tail := RowsFrom(c, results, measure, find, i + 1, next, row.extents.xAdvance);
      assert rows == [row] + tail;
      RowShape(c, results, measure, find, i + 1, next, row.extents.xAdvance);
      forall k | 1 <= k < |rows|
        ensures rows[k] == tail[k - 1]
      {
      }
    }
  }

  /** The pen position and advance the loop holds before drawing row k. */
  function Before(rows: seq<Row>, at: Point, advance: real, k: nat): (Point, real)
    requires k <= |rows|
  {
    if k == 0 then (at, advance) else (rows[k - 1].origin, rows[k - 1].extents.xAdvance)
  }

  /**
   * One iteration of the loop: either it stops, because no candidate is
   * left, the next origin is past the clip edge, the results ran out or the
   * candidate row does not fit; or it draws the candidate row one step on
   * and goes on from there.
   */
  lemma RowsFromStep(c: Config, results: seq<Text>, measure: Text -> Extents, find: Finder,
                     i: nat, at: Point, advance: real)
    ensures var rows := RowsFrom(c, results, measure, find, i, at, advance);
      var next := Step(c, at, advance);
      if rows == [] then
        || i >= CandidateCount(c, |results|)
        || c.firstResult + i >= |results|
        || (c.numResults == 0 && SizeOverflows(c, next, 0, 0))
        || !Kept(c, Candidate(c, results, measure, find, i, next))
      else
        && i < CandidateCount(c, |results|)
        && c.firstResult + i < |results|
        && !(c.numResults == 0 && SizeOverflows(c, next, 0, 0))
        && rows[0] == Candidate(c, results, measure, find, i, next)
        && Kept(c, rows[0])
        && rows[1..] == RowsFrom(c, results, measure, find, i + 1, next, rows[0].extents.xAdvance)
  {
  }

  /** Each row is drawn one step past the one before it, the first one step past the input. */
  lemma {:induction false} RowOrigins(c: Config, results: seq<Text>, measure: Text -> Extents, find: Finder,
                                      i: nat, at: Point, advance: real)
    ensures var rows := RowsFrom(c, results, measure, find, i, at, advance);
      forall k | 0 <= k < |rows| ::
        rows[k].origin == Step(c, Before(rows, at, advance, k).0, Before(rows, at, advance, k).1)
    decreases CandidateCount(c, |results|) - i
  {
    var rows := RowsFrom(c, results, measure, find, i, at, advance);
    RowsFromStep(c, results, measure, find, i, at, advance);
    if rows != [] {
      var next := Step(c, at, advance);
      var tail := rows[1..];
      RowOrigins(c, results, measure, find, i + 1, next, rows[0].extents.xAdvance);
      forall k | 1 <= k < |rows|
        ensures Before(rows, at, advance, k) == Before(tail, next, rows[0].extents.xAdvance, k - 1)
      {
      }
    }
  }

  /**
   * Every row drawn passed the checks of its mode; and when candidates
   * remain, the next one failed them: the rows drawn are the longest run of
   * consecutive candidates that fit.
   */
  lemma {:induction false} RowsFit(c: Config, results: seq<Text>, measure: Text -> Extents, find: Finder,
                                   i: nat, at: Point, advance: real)
    ensures var rows := RowsFrom(c, results, measure, find, i, at, advance);
      && (forall k | 0 <= k < |rows| ::
            Kept(c, rows[k]) && !(c.numResults == 0 && SizeOverflows(c, rows[k].origin, 0, 0)))
      && (var j := i + |rows|;
          var next := Step(c, Before(rows, at, advance, |rows|).0, Before(rows, at, advance, |rows|).1);
          j < CandidateCount(c, |results|) && c.firstResult + j < |results| ==>
            (c.numResults == 0 && SizeOverflows(c, next, 0, 0))
            || !Kept(c, Candidate(c, results, measure, find, j, next)))
    decreases CandidateCount(c, |results|) - i
  {
    var rows := RowsFrom(c, results, measure, find, i, at, advance);
    RowsFromStep(c, results, measure, find, i, at, advance);
    if rows != [] {
      var next := Step(c, at, advance);
      var tail := rows[1..];
      RowsFit(c, results, measure, find, i + 1, next, rows[0].extents.xAdvance);
      assert Before(rows, at, advance, |rows|) == Before(tail, next, rows[0].extents.xAdvance, |tail|);
    }
  }

  /**
   * With a fixed number of rows nothing is measured against the clip area:
   * the loop draws as many rows as asked for, or as many as remain after the
   * first shown, whichever is fewer.
   */
  lemma FixedCount(c: Config, results: seq<Text>, measure: Text -> Extents, find: Finder, start: Point, advance: real)
    requires c.numResults > 0 && c.firstResult <= |results|
    ensures |RowsFrom(c, results, measure, find, 0, start, advance)| == Min(c.numResults, |results| - c.firstResult)
  {
    FixedCountFrom(c, results, measure, find, 0, start, advance);
  }

  lemma {:induction false} FixedCountFrom(c: Config, results: seq<Text>, measure: Text -> Extents, find: Finder,
                                          i: nat, at: Point, advance: real)
    requires c.numResults > 0
    ensures var bound := Min(CandidateCount(c, |results|), |results| - c.firstResult);
      |RowsFrom(c, results, measure, find, i, at, advance)| == if i < bound then bound - i else 0
    decreases CandidateCount(c, |results|) - i
  {
    var bound := Min(CandidateCount(c, |results|), |results| - c.firstResult);
    if i < bound {
      var next := Step(c, at, advance);
      var row := Candidate(c, results, measure, find, i, next);
      FixedCountFrom(c, results, measure, find, i + 1, next, row.extents.xAdvance);
    }
  }

  /** Where row k is drawn when rows are stacked vertically from `start`. */
  function VerticalOrigin(c: Config, start: Point, k: nat): Point
  {
    Point(start.x, start.y + (k + 1) as real * (c.fontHeight + c.resultSpacing as real))
  }

  /**
   * Whether row k fits when rows are fitted vertically: its origin lies in
   * the clip area and, unless it is the highlighted selection, so does a
   * full line of text below it.
   */
  predicate FitsVertically(c: Config, start: Point, k: nat)
  {
    var o := VerticalOrigin(c, start, k);
    !SizeOverflows(c, o, 0, 0) && (Highlighted(c, k) || !SizeOverflows(c, o, 0, Truncate(c.fontHeight)))
  }

  /**
   * Fitting rows vertically: row k sits k + 1 line steps below the input,
   * every row drawn fits, and the loop stops at the first row that does not
   * fit or when the results run out.
   */
  lemma VerticalAutoFit(c: Config, results: seq<Text>, measure: Text -> Extents, find: Finder, start: Point, advance: real)
    requires !c.horizontal && c.numResults == 0
    ensures var rows := RowsFrom(c, results, measure, find, 0, start, advance);
      && (forall k | 0 <= k < |rows| :: rows[k].origin == VerticalOrigin(c, start, k) && FitsVertically(c, start, k))
      && (c.firstResult + |rows| < |results| ==> !FitsVertically(c, start, |rows|))
  {
    var rows := RowsFrom(c, results, measure, find, 0, start, advance);
    RowsFit(c, results, measure, find, 0, start, advance);
    RowOrigins(c, results, measure, find, 0, start, advance);
    RowShape(c, results, measure, find, 0, start, advance);
    forall k | 0 <= k <= |rows|
      ensures Step(c, Before(rows, start, advance, k).0, Before(rows, start, advance, k).1) == VerticalOrigin(c, start, k)
    {
      LineSteps(c, start, advance, rows, k);
    }
  }

  /**
   * When every row is drawn one step past the one before it, rows stacked
   * vertically: the step taken before row k lands k + 1 lines below the start.
   */
  lemma {:induction false} LineSteps(c: Config, start: Point, advance: real, rows: seq<Row>, k: nat)
    requires !c.horizontal && k <= |rows|
    requires forall j | 0 <= j < |rows| ::
      rows[j].origin == Step(c, Before(rows, start, advance, j).0, Before(rows, start, advance, j).1)
    ensures Step(c, Before(rows, start, advance, k).0, Before(rows, start, advance, k).1) == VerticalOrigin(c, start, k)
    decreases k
  {
    var line := c.fontHeight + c.resultSpacing as real;
    if k == 0 {
      assert 1 as real * line == line;
    } else {
      LineSteps(c, start, advance, rows, k - 1);
      assert Before(rows, start, advance, k).0 == VerticalOrigin(c, start, k - 1);
      MulSucc(k, line);
    }
  }

  lemma MulSucc(n: nat, x: real)
    ensures (n + 1) as real * x == n as real * x + x
  {
  }

  /**
   * Fitting rows horizontally: every row drawn other than the highlighted
   * selection ends, by its measured advance, within the clip area; and when
   * results remain, the next one starts past the clip edge or its measured
   * advance would take it past.
   */
  lemma HorizontalAutoFit(c: Config, results: seq<Text>, measure: Text -> Extents, find: Finder, start: Point, advance: real)
    requires c.horizontal && c.numResults == 0
    ensures var rows := RowsFrom(c, results, measure, find, 0, start, advance);
      var edge := (c.clipX + c.clipWidth) as real;
      && (forall k | 0 <= k < |rows| ::
            && rows[k].origin.x <= edge
            && (!rows[k].highlighted ==> rows[k].origin.x + Truncate(rows[k].extents.xAdvance) as real <= edge))
      && (c.firstResult + |rows| < |results| ==>
            var next := Step(c, Before(rows, start, advance, |rows|).0, Before(rows, start, advance, |rows|).1);
            next.x > edge
            || (!Highlighted(c, |rows|)
                && next.x + Truncate(measure(results[c.firstResult + |rows|]).xAdvance) as real > edge))
  {
    RowsFit(c, results, measure, find, 0, start, advance);
    RowOrigins(c, results, measure, find, 0, start, advance);
  }

  /**
   * Themes alternate down the list: two neighbouring rows, neither at the
   * selection, take different themes, the default one going to the row
   * showing an even result index.
   */
  lemma Alternation(c: Config, results: seq<Text>, measure: Text -> Extents, find: Finder, start: Point, advance: real, k: nat)
    requires k + 1 < |RowsFrom(c, results, measure, find, 0, start, advance)|
    requires k != c.selection && k + 1 != c.selection
    ensures var rows := RowsFrom(c, results, measure, find, 0, start, advance);
      && rows[k].role != rows[k + 1].role
      && rows[k].role != SelectedRow && rows[k + 1].role != SelectedRow
      && (rows[k].role == DefaultRow <==> (c.firstResult + k) % 2 == 0)
  {
    RowShape(c, results, measure, find, 0, start, advance);
  }

  /**
   * With a masking character that holds no NUL byte, a hidden input is
   * shown as that character repeated once per input character.
   */
  lemma MaskedInputShown(c: Config)
    requires |c.input| > 0 && c.hideInput && 0 !in c.hiddenCharacter
    ensures InputText(c) == MaskedInput.Repeat(c.hiddenCharacter, c.inputChars)
    ensures |InputText(c)| == c.inputChars * |c.hiddenCharacter|
  {
    MaskedInput.MaskedText(c.hiddenCharacter, c.inputChars);
    MaskedInput.RepeatLength(c.hiddenCharacter, c.inputChars);
  }
}
