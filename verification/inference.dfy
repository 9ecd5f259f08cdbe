/** The prediction operation: split each row's pipe-delimited feature string
    into the model's features, type and preprocess them, call the model and
    shape its output into one result per row, joined back to the caller's
    keys when the call comes from the load script. */
module Inference {
  import opened Wrappers
  import opened Text
  import opened Data
  import opened Seqs
  import opened Tables
  import opened Params
  import opened Loader
  import opened Describe

  /** The request columns: a load-script call carries an extra key column. */
  function RequestColumns(loadScript: bool): seq<string> {
    if loadScript then ["model_name", "key", "n_features", "kwargs"]
    else ["model_name", "n_features", "kwargs"]
  }

  /** The request columns once `kwargs` is dropped. */
  function FeatureRequestColumns(loadScript: bool): seq<string> {
    if loadScript then ["model_name", "key", "n_features"] else ["model_name", "n_features"]
  }

  /** The position of the feature string in a request row. */
  function FeatureColumn(loadScript: bool): nat {
    if loadScript then 2 else 1
  }

  /** Dropping `kwargs` leaves the feature columns, and the feature column
      position points at `n_features` in both call variants. */
  lemma FeatureColumnIsNFeatures(loadScript: bool)
    ensures KeepCells(RequestColumns(loadScript), RequestColumns(loadScript), "kwargs") == FeatureRequestColumns(loadScript)
    ensures FeatureColumn(loadScript) < |FeatureRequestColumns(loadScript)|
    ensures FeatureRequestColumns(loadScript)[FeatureColumn(loadScript)] == "n_features"
  {
    var h := RequestColumns(loadScript);
    KeepCellsAt(h, h, "kwargs", |h| - 1);
  }

  /** Dropping `kwargs` from a decoded prediction request keeps every row
      minus its last cell. */
  lemma DropKwargsKeepsFeatureColumns(t: Table, loadScript: bool)
    requires IsRequestTable(t, RequestColumns(loadScript))
    ensures IsRequestTable(DropColumn(t, "kwargs"), FeatureRequestColumns(loadScript))
    ensures forall i :: 0 <= i < |t.rows| ==> DropColumn(t, "kwargs").rows[i] == t.rows[i][..|t.rows[i]| - 1]
  {
    FeatureColumnIsNFeatures(loadScript);
    var h := RequestColumns(loadScript);
    var d := DropColumn(t, "kwargs");
    forall i | 0 <= i < |t.rows| ensures d.rows[i] == t.rows[i][..|t.rows[i]| - 1] {
      DropLastCell(h, t.rows[i]);
    }
  }

  /** In a request row, the `kwargs` cell is the last one. */
  lemma DropLastCell<T>(h: seq<string>, row: seq<T>)
    requires h == RequestColumns(true) || h == RequestColumns(false)
    requires |row| == |h|
    ensures KeepCells(h, row, "kwargs") == row[..|row| - 1]
  {
    KeepCellsAt(h, row, "kwargs", |h| - 1);
    assert row[|h|..] == [];
  }

  /** The name of the model method to call: `predict` unless a `return`
      argument names another. */
  function PredictionMethod(passOn: map<string, Value>): (v: Value)
    ensures "return" in passOn ==> v == passOn["return"]
    ensures "return" !in passOn ==> v == StrValue("predict")
  {
    if "return" in passOn then passOn["return"] else StrValue("predict")
  }

  /** The method choice as written, which reads pass-on arguments that may
      never have been set. */
  function PredictionMethodAsWritten(p: ParamsAsWritten): (r: Result<Value, Error>)
    ensures r.Failure? <==> p.passOn.None?
    ensures r.Success? ==> r.value == PredictionMethod(p.passOn.value)
  {
    var passOn :- PassOnAsWritten(p);
    Success(PredictionMethod(passOn))
  }

  /** With an empty argument string, choosing the method fails as written;
      with the corrected parameters the method is `predict`. */
  lemma EmptyArgumentsPredictAsWritten<M>(env: Env<M>)
    ensures PredictionMethodAsWritten(SetParamsAsWritten(env, "").value) == Failure(ArgumentsUnset)
    ensures PredictionMethod(SetParams(env, "").value.passOn) == StrValue("predict")
  {
  }

  /** Splits each row's feature string on `|`, requiring every row to give
      exactly `n` fields. */
  function SplitFeatures(rows: seq<seq<string>>, col: nat, n: nat): (r: Result<seq<seq<string>>, Error>)
    requires forall i :: 0 <= i < |rows| ==> col < |rows[i]|
    ensures r.Success? <==> forall i :: 0 <= i < |rows| ==> |Split(rows[i][col], '|')| == n
    ensures r.Failure? ==> r.error == FeatureArityMismatch
    ensures r.Success? ==> |r.value| == |rows| && forall i :: 0 <= i < |rows| ==> r.value[i] == Split(rows[i][col], '|')
    decreases |rows|
  {
    if |rows| == 0 then Success([])
    else
      var fields := Split(rows[0][col], '|');
      if |fields| != n then Failure(FeatureArityMismatch)
      else
        var rest :- SplitFeatures(rows[1..], col, n);
        Success([fields] + rest)
  }

  /** The split is lossless: each row's fields joined with `|` give back its
      feature string, and a row has `n` fields exactly when its feature string
      holds `n - 1` delimiters. */
  lemma SplitFeaturesRejoin(rows: seq<seq<string>>, col: nat, n: nat)
    requires forall i :: 0 <= i < |rows| ==> col < |rows[i]|
    requires SplitFeatures(rows, col, n).Success?
    ensures forall i :: 0 <= i < |rows| ==> Join("|", SplitFeatures(rows, col, n).value[i]) == rows[i][col]
    ensures forall i :: 0 <= i < |rows| ==> Count(rows[i][col], '|') + 1 == n
  {
    forall i | 0 <= i < |rows| ensures Join("|", SplitFeatures(rows, col, n).value[i]) == rows[i][col] {
      JoinSplit(rows[i][col], '|');
    }
  }

  /** The widest of a list of field counts (0 for none). */
  function MaxWidth(widths: seq<nat>): (w: nat)
    ensures forall i :: 0 <= i < |widths| ==> widths[i] <= w
    ensures |widths| > 0 ==> exists i :: 0 <= i < |widths| && widths[i] == w
  {
    if |widths| == 0 then 0
    else
      var m := MaxWidth(widths[1..]);
      if widths[0] >= m then widths[0] else m
  }

  /** The field count of each row's feature string. */
  function FieldCounts(rows: seq<seq<string>>, col: nat): (widths: seq<nat>)
    requires forall i :: 0 <= i < |rows| ==> col < |rows[i]|
    ensures |widths| == |rows|
    ensures forall i :: 0 <= i < |rows| ==> widths[i] == |Split(rows[i][col], '|')|
  {
    seq(|rows|, i requires 0 <= i < |rows| => |Split(rows[i][col], '|')|)
  }

  /** The arity check as written: the frame constructor pads short rows with
      missing values, so it only compares the widest row with the number of
      feature names. */
  function FeatureFrameAcceptsAsWritten(rows: seq<seq<string>>, col: nat, n: nat): bool
    requires forall i :: 0 <= i < |rows| ==> col < |rows[i]|
  {
    |rows| == 0 || MaxWidth(FieldCounts(rows, col)) == n
  }

  /** Every input the per-row check accepts is accepted as written too. */
  lemma PerRowCheckIsStricter(rows: seq<seq<string>>, col: nat, n: nat)
    requires forall i :: 0 <= i < |rows| ==> col < |rows[i]|
    requires SplitFeatures(rows, col, n).Success?
    ensures FeatureFrameAcceptsAsWritten(rows, col, n)
  {
    if |rows| > 0 {
      var w := FieldCounts(rows, col);
      var i :| 0 <= i < |w| && w[i] == MaxWidth(w);
    }
  }

  /** A short row slips through as written: with two features, the feature
      strings `1|2` and `3` are accepted (the second row is padded with a
      missing value) while the per-row check rejects them. */
  lemma RaggedFeatureRowsAsWritten()
    ensures FeatureFrameAcceptsAsWritten([["m", "1|2"], ["m", "3"]], 1, 2)
    ensures SplitFeatures([["m", "1|2"], ["m", "3"]], 1, 2) == Failure(FeatureArityMismatch)
  {
    RaggedFields();
    RaggedWidths();
    assert SplitFeatures([["m", "3"]], 1, 2) == Failure(FeatureArityMismatch);
  }

  /** The widest feature string of the ragged example has two fields. */
  lemma RaggedWidths()
    requires Split("1|2", '|') == ["1", "2"] && Split("3", '|') == ["3"]
    ensures MaxWidth(FieldCounts([["m", "1|2"], ["m", "3"]], 1)) == 2
  {
    assert FieldCounts([["m", "1|2"], ["m", "3"]], 1) == [2, 1];
    assert [2, 1][1..] == [1];
  }

  /** The fields of the two feature strings of the ragged example. */
  lemma RaggedFields()
    ensures Split("1|2", '|') == ["1", "2"]
    ensures Split("3", '|') == ["3"]
  {
    SplitAfterField("1", "2", '|');
    SplitWithout("2", '|');
    SplitWithout("3", '|');
    assert "1" + ['|'] + "2" == "1|2";
  }

  /** A cell in a string-converted array. */
  function CellText<M>(env: Env<M>, c: Cell): string {
    match c
    case Text(s) => s
    case Number(x) => env.numberText(x)
    case Missing => "nan"
  }

  /** The result column built from a model output. A two-column output gives
      one `a|b` string per row; a one-dimensional output, or a single column,
      is used as it is; any other width does not fit a single column. */
  function ShapeResult<M>(env: Env<M>, y: Output): (r: Result<seq<Cell>, Error>)
    ensures y.Flat? ==> r == Success(y.values)
    ensures y.Grid? && y.width == 2 ==>
      && r.Success? && |r.value| == |y.cells|
      && forall i :: 0 <= i < |y.cells| ==> r.value[i] == Text(CellText(env, y.cells[i][0]) + "|" + CellText(env, y.cells[i][1]))
    ensures y.Grid? && y.width == 1 ==>
      && r.Success? && |r.value| == |y.cells|
      && forall i :: 0 <= i < |y.cells| ==> r.value[i] == y.cells[i][0]
    ensures y.Grid? && y.width != 1 && y.width != 2 ==> r == Failure(OutputShapeError)
  {
    match y
    case Flat(values) => Success(values)
    case Grid(width, cells) =>
      if width == 2 then
        Success(seq(|cells|, i requires 0 <= i < |cells| =>
          Text(CellText(env, cells[i][0]) + "|" + CellText(env, cells[i][1]))))
      else if width == 1 then
        Success(seq(|cells|, i requires 0 <= i < |cells| => cells[i][0]))
      else Failure(OutputShapeError)
  }

  /** A two-output result can be split back: the `a|b` string of a row splits
      on `|` into the text of its two outputs, provided neither contains the
      delimiter. */
  lemma PairedResultSplits<M>(env: Env<M>, y: Output, i: nat)
    requires y.Grid? && y.width == 2 && i < |y.cells|
    requires '|' !in CellText(env, y.cells[i][0]) && '|' !in CellText(env, y.cells[i][1])
    ensures ShapeResult(env, y).Success?
    ensures Split(ShapeResult(env, y).value[i].s, '|') == [CellText(env, y.cells[i][0]), CellText(env, y.cells[i][1])]
  {
    var a := CellText(env, y.cells[i][0]);
    var b := CellText(env, y.cells[i][1]);
    SplitJoin([a, b], '|');
    assert Join("|", [a, b]) == a + "|" + b;
  }

  /** The results whose row label is `l`, in order. */
  function MatchesOf(right: seq<(Label, Cell)>, l: Label): seq<Cell> {
    if |right| == 0 then []
    else (if right[0].0 == l then [right[0].1] else []) + MatchesOf(right[1..], l)
  }

  function LabelsOf<T>(entries: seq<(Label, T)>): (ls: seq<Label>)
    ensures |ls| == |entries|
    ensures forall i :: 0 <= i < |entries| ==> ls[i] == entries[i].0
  {
    seq(|entries|, i requires 0 <= i < |entries| => entries[i].0)
  }

  /** `left.join(right)` on the row labels: each left row followed by every
      result with its label, in order, or by a missing value when none has it. */
  function LeftJoin(left: seq<(Label, seq<Cell>)>, right: seq<(Label, Cell)>): (joined: seq<seq<Cell>>)
    ensures |joined| >= |left|
  {
    if |left| == 0 then [] else JoinOne(left[0], right) + LeftJoin(left[1..], right)
  }

  /** The joined rows of one request row: one per result carrying its label,
      in the results' order, or one padded with a missing value when no result
      carries it. */
  function JoinOne(entry: (Label, seq<Cell>), right: seq<(Label, Cell)>): (rows: seq<seq<Cell>>)
    ensures |rows| >= 1
  {
    var m := MatchesOf(right, entry.0);
    if |m| == 0 then [entry.1 + [Missing]]
    else seq(|m|, j requires 0 <= j < |m| => entry.1 + [m[j]])
  }

  /** The join works row by row: joining two runs of request rows one after
      the other is joining each run and concatenating the results. */
  lemma {:induction false} LeftJoinAppend(a: seq<(Label, seq<Cell>)>, b: seq<(Label, seq<Cell>)>, right: seq<(Label, Cell)>)
    ensures LeftJoin(a + b, right) == LeftJoin(a, right) + LeftJoin(b, right)
    decreases |a|
  {
    if |a| == 0 {
      assert a + b == b;
    } else {
      assert (a + b)[0] == a[0];
      assert (a + b)[1..] == a[1..] + b;
      LeftJoinAppend(a[1..], b, right);
    }
  }

  /** Request row `i` is kept: its joined rows stand right after those of the
      rows before it, one per result carrying its label, in the results'
      order, each the request row followed by that result; with no such
      result, a single row ending in a missing value. */
  lemma LeftJoinRows(left: seq<(Label, seq<Cell>)>, right: seq<(Label, Cell)>, i: nat)
    requires i < |left|
    ensures var k := |LeftJoin(left[..i], right)|;
      var m := MatchesOf(right, left[i].0);
      && k + |JoinOne(left[i], right)| <= |LeftJoin(left, right)|
      && (|m| == 0 ==> LeftJoin(left, right)[k] == left[i].1 + [Missing])
      && (forall j :: 0 <= j < |m| ==> LeftJoin(left, right)[k + j] == left[i].1 + [m[j]])
  {
    assert left == left[..i] + left[i..];
    LeftJoinAppend(left[..i], left[i..], right);
    assert LeftJoin(left[i..], right) == JoinOne(left[i], right) + LeftJoin(left[i + 1..], right) by {
      assert left[i..][0] == left[i];
      assert left[i..][1..] == left[i + 1..];
    }
  }

  /** A request row whose label no result carries is kept, with a missing
      value for its result. */
  lemma LeftJoinUnmatched(left: seq<(Label, seq<Cell>)>, right: seq<(Label, Cell)>, i: nat)
    requires i < |left|
    requires forall k :: 0 <= k < |right| ==> right[k].0 != left[i].0
    ensures |LeftJoin(left[..i], right)| < |LeftJoin(left, right)|
    ensures LeftJoin(left, right)[|LeftJoin(left[..i], right)|] == left[i].1 + [Missing]
  {
    MatchesOfAbsent(right, left[i].0);
    LeftJoinRows(left, right, i);
  }

  /** With distinct labels, the one result labelled like the `j`-th entry is
      that entry's result. */
  lemma {:induction false} MatchesOfDistinct(right: seq<(Label, Cell)>, j: nat)
    requires j < |right|
    requires NoDuplicates(LabelsOf(right))
    ensures MatchesOf(right, right[j].0) == [right[j].1]
    decreases |right|
  {
    if j == 0 {
      MatchesOfAbsent(right[1..], right[0].0);
    } else {
      assert LabelsOf(right[1..]) == LabelsOf(right)[1..];
      MatchesOfDistinct(right[1..], j - 1);
      assert right[0].0 != right[j].0 by {
        assert LabelsOf(right)[0] != LabelsOf(right)[j];
      }
    }
  }

  /** A label no entry carries matches nothing. */
  lemma {:induction false} MatchesOfAbsent(right: seq<(Label, Cell)>, l: Label)
    requires forall k :: 0 <= k < |right| ==> right[k].0 != l
    ensures MatchesOf(right, l) == []
    decreases |right|
  {
    if |right| > 0 {
      MatchesOfAbsent(right[1..], l);
    }
  }

  /** When every request row's label matches exactly one result, each request
      row is followed by the result carrying its label. */
  lemma {:induction false} LeftJoinOneMatch(left: seq<(Label, seq<Cell>)>, right: seq<(Label, Cell)>)
    requires forall i :: 0 <= i < |left| ==> |MatchesOf(right, left[i].0)| == 1
    ensures |LeftJoin(left, right)| == |left|
    ensures forall i :: 0 <= i < |left| ==> LeftJoin(left, right)[i] == left[i].1 + MatchesOf(right, left[i].0)
    decreases |left|
  {
    if |left| > 0 {
      LeftJoinOneMatch(left[1..], right);
      var m := MatchesOf(right, left[0].0);
      assert m == [m[0]];
      assert LeftJoin(left, right) == [left[0].1 + m] + LeftJoin(left[1..], right);
    }
  }

  /** The join aligns by label, not by position: when the results carry
      distinct labels and every request row's label is among them, each request
      row gets exactly one result, the one carrying its label, whatever the
      order of either side. */
  lemma LeftJoinByLabel(left: seq<(Label, seq<Cell>)>, right: seq<(Label, Cell)>)
    requires NoDuplicates(LabelsOf(right))
    requires forall i :: 0 <= i < |left| ==> left[i].0 in LabelsOf(right)
    ensures |LeftJoin(left, right)| == |left|
    ensures forall i, j :: 0 <= i < |left| && 0 <= j < |right| && right[j].0 == left[i].0 ==>
      LeftJoin(left, right)[i] == left[i].1 + [right[j].1]
  {
    forall i | 0 <= i < |left| ensures |MatchesOf(right, left[i].0)| == 1 {
      var j :| 0 <= j < |right| && LabelsOf(right)[j] == left[i].0;
      MatchesOfDistinct(right, j);
    }
    LeftJoinOneMatch(left, right);
    forall i, j | 0 <= i < |left| && 0 <= j < |right| && right[j].0 == left[i].0
      ensures LeftJoin(left, right)[i] == left[i].1 + [right[j].1]
    {
      MatchesOfDistinct(right, j);
    }
  }

  /** Pairs labels with values. */
  function Zip<T>(labels: seq<Label>, values: seq<T>): (z: seq<(Label, T)>)
    requires |labels| == |values|
    ensures |z| == |labels|
    ensures forall i :: 0 <= i < |labels| ==> z[i] == (labels[i], values[i])
  {
    seq(|labels|, i requires 0 <= i < |labels| => (labels[i], values[i]))
  }

  /** Joining request rows with results carrying the same distinct labels, in
      the same order, pairs row `i` with result `i`. */
  lemma LeftJoinSameLabels(labels: seq<Label>, rows: seq<seq<Cell>>, results: seq<Cell>)
    requires |labels| == |rows| == |results|
    requires NoDuplicates(labels)
    ensures |LeftJoin(Zip(labels, rows), Zip(labels, results))| == |rows|
    ensures forall i :: 0 <= i < |rows| ==> LeftJoin(Zip(labels, rows), Zip(labels, results))[i] == rows[i] + [results[i]]
  {
    var left := Zip(labels, rows);
    var right := Zip(labels, results);
    assert LabelsOf(right) == labels;
    forall i | 0 <= i < |left| ensures left[i].0 in LabelsOf(right) {
      assert LabelsOf(right)[i] == left[i].0;
    }
    LeftJoinByLabel(left, right);
  }

  /** The row labels of the request: positions for an expression call, the
      key column for a load-script call. */
  function RequestLabels(rows: seq<seq<string>>, loadScript: bool): (ls: seq<Label>)
    requires loadScript ==> forall i :: 0 <= i < |rows| ==> 1 < |rows[i]|
    ensures |ls| == |rows|
    ensures loadScript ==> forall i :: 0 <= i < |rows| ==> ls[i] == Key(rows[i][1])
    ensures !loadScript ==> forall i :: 0 <= i < |rows| ==> ls[i] == Position(i)
    ensures !loadScript ==> NoDuplicates(ls)
    ensures loadScript ==> (NoDuplicates(ls) <==> NoDuplicates(Keys(rows)))
  {
    if loadScript then
      var ls := seq(|rows|, i requires 0 <= i < |rows| => Key(rows[i][1]));
      assert NoDuplicates(ls) <==> NoDuplicates(Keys(rows)) by {
        assert forall i :: 0 <= i < |rows| ==> ls[i] == Key(Keys(rows)[i]);
      }
      ls
    else seq(|rows|, i requires 0 <= i < |rows| => Position(i))
  }

  /** The keys of a load-script request. */
  function Keys(rows: seq<seq<string>>): seq<string>
    requires forall i :: 0 <= i < |rows| ==> 1 < |rows[i]|
  {
    seq(|rows|, i requires 0 <= i < |rows| => rows[i][1])
  }

  /** The text cells of a request row. */
  function AsCells(row: seq<string>): (cells: seq<Cell>)
    ensures |cells| == |row|
    ensures forall i :: 0 <= i < |row| ==> cells[i] == Text(row[i])
  {
    seq(|row|, i requires 0 <= i < |row| => Text(row[i]))
  }

  /** The request rows as text cells. */
  function RequestCells(rows: seq<seq<string>>): (cells: seq<seq<Cell>>)
    ensures |cells| == |rows|
    ensures forall i :: 0 <= i < |rows| ==> cells[i] == AsCells(rows[i])
  {
    seq(|rows|, i requires 0 <= i < |rows| => AsCells(rows[i]))
  }

  /** Applies the preprocessor's `transform`, when there is one. */
  function Preprocess<M>(env: Env<M>, prep: Option<M>, x: Frame): (r: Result<Frame, Error>)
    ensures prep.None? ==> r == Success(x)
    ensures prep.Some? ==>
      && (r.Success? <==> env.transform(prep.value, x).Success?)
      && (r.Success? ==> r.value == env.transform(prep.value, x).value)
      && (r.Failure? ==> r.error == PreprocessingError(env.transform(prep.value, x).error))
  {
    match prep
    case None => Success(x)
    case Some(p) => env.transform(p, x).MapFailure(d => PreprocessingError(d))
  }

  /** The typed feature frame: each row's feature string split into one field
      per feature, typed by the converter, under the feature names as columns
      and the request's row labels. */
  function ConvertedFrame<M>(env: Env<M>, m: LoadedModel<M>, t: Table, loadScript: bool): (r: Result<Frame, Error>)
    requires IsRequestTable(t, FeatureRequestColumns(loadScript))
    ensures SplitFeatures(t.rows, FeatureColumn(loadScript), |m.features|).Failure? ==> r == Failure(FeatureArityMismatch)
    ensures SplitFeatures(t.rows, FeatureColumn(loadScript), |m.features|).Success? ==>
      var typed := env.convertTypes(SplitFeatures(t.rows, FeatureColumn(loadScript), |m.features|).value, m.features);
      && (r.Success? <==> typed.Success?)
      && (typed.Failure? ==> r == Failure(TypeConversionError(typed.error)))
      && (r.Success? ==> r.value == Frame(FeatureNames(m.features), Some(RequestLabels(t.rows, loadScript)), typed.value))
  {
    var fields :- SplitFeatures(t.rows, FeatureColumn(loadScript), |m.features|);
    var converted :- env.convertTypes(fields, m.features).MapFailure(d => TypeConversionError(d));
    Success(Frame(FeatureNames(m.features), Some(RequestLabels(t.rows, loadScript)), converted))
  }

  /** Calls the chosen method of the model on the frame and shapes its output:
      the method name must be text, the call must succeed, the frame must
      carry row labels and the shaped output must give one result per label. */
  function CallModel<M>(env: Env<M>, model: M, chosen: Value, x: Frame): (r: Result<(seq<Label>, seq<Cell>), Error>)
    ensures !chosen.StrValue? ==> r == Failure(MethodNameNotText)
    ensures chosen.StrValue? ==>
      var y := env.invoke(model, chosen.s, x);
      && (y.Failure? ==> r == Failure(InvocationError(y.error)))
      && (y.Success? && x.index.None? ==> r == Failure(NoIndex))
      && (y.Success? && x.index.Some? ==>
            var shaped := ShapeResult(env, y.value);
            && (shaped.Failure? ==> r == Failure(shaped.error))
            && (shaped.Success? && |shaped.value| != |x.index.value| ==> r == Failure(LengthMismatch))
            && (shaped.Success? && |shaped.value| == |x.index.value| ==> r == Success((x.index.value, shaped.value))))
  {
    var name :- (if chosen.StrValue? then Success(chosen.s) else Failure(MethodNameNotText));
    var y :- env.invoke(model, name, x).MapFailure(d => InvocationError(d));
    var labels :- (if x.index.Some? then Success(x.index.value) else Failure(NoIndex));
    var results :- ShapeResult(env, y);
    if |results| != |labels| then Failure(LengthMismatch)
    else Success((labels, results))
  }

  /** Runs the model over the request: the row labels of the frame it was
      called on and one result per label. The typed frame is preprocessed
      when there is a preprocessor; the first failing step decides the error. */
  function Evaluate<M>(env: Env<M>, m: LoadedModel<M>, t: Table, chosen: Value, loadScript: bool)
    : (r: Result<(seq<Label>, seq<Cell>), Error>)
    requires IsRequestTable(t, FeatureRequestColumns(loadScript))
    ensures ConvertedFrame(env, m, t, loadScript).Failure? ==> r == Failure(ConvertedFrame(env, m, t, loadScript).error)
    ensures ConvertedFrame(env, m, t, loadScript).Success? ==>
      var x := Preprocess(env, m.prep, ConvertedFrame(env, m, t, loadScript).value);
      && (x.Failure? ==> r == Failure(x.error))
      && (x.Success? ==> r == CallModel(env, m.model, chosen, x.value))
    ensures r.Success? ==> |r.value.0| == |r.value.1|
    ensures r.Success? && m.prep.None? ==> r.value.0 == RequestLabels(t.rows, loadScript)
  {
    var converted :- ConvertedFrame(env, m, t, loadScript);
    var x :- Preprocess(env, m.prep, converted);
    CallModel(env, m.model, chosen, x)
  }

  /** A model output fits `n` rows: one value per row, or one row of one or
      two columns per row. */
  predicate FitsRows(y: Output, n: nat) {
    || (y.Flat? && |y.values| == n)
    || (y.Grid? && (y.width == 1 || y.width == 2) && |y.cells| == n)
  }

  /** A model that answers every row is answered: without a preprocessor,
      when every feature string has one field per feature, the converter
      accepts the fields and the named method returns an output fitting the
      request's rows, the evaluation succeeds with the request's labels and
      the model's output shaped into one result per row. */
  lemma ModelAnswersEveryRow<M>(env: Env<M>, m: LoadedModel<M>, t: Table, name: string, loadScript: bool)
    requires IsRequestTable(t, FeatureRequestColumns(loadScript))
    requires m.prep.None?
    requires forall i :: 0 <= i < |t.rows| ==> |Split(t.rows[i][FeatureColumn(loadScript)], '|')| == |m.features|
    requires env.convertTypes(SplitFeatures(t.rows, FeatureColumn(loadScript), |m.features|).value, m.features).Success?
    requires var y := env.invoke(m.model, name, ConvertedFrame(env, m, t, loadScript).value);
      y.Success? && FitsRows(y.value, |t.rows|)
    ensures var y := env.invoke(m.model, name, ConvertedFrame(env, m, t, loadScript).value).value;
      && ShapeResult(env, y).Success?
      && |ShapeResult(env, y).value| == |t.rows|
      && Evaluate(env, m, t, StrValue(name), loadScript) == Success((RequestLabels(t.rows, loadScript), ShapeResult(env, y).value))
  {
  }

  /** The model sees the descriptor's features: for a model resolved from its
      descriptor, the typed frame has the descriptor's feature names as its
      columns, in the descriptor's order, and every row's feature string has
      one field per declared feature. */
  lemma ModelSeesDescriptorFeatures<M>(env: Env<M>, name: string, basePath: string, searchPath: seq<string>,
                                       t: Table, loadScript: bool)
    requires IsRequestTable(t, FeatureRequestColumns(loadScript))
    requires GetModel(env, name, basePath, searchPath).outcome.Success?
    ensures env.readDescriptor(DescriptorPath(basePath, name)).Some?
    ensures var fs := env.readDescriptor(DescriptorPath(basePath, name)).value.features;
      var m := GetModel(env, name, basePath, searchPath).outcome.value;
      && fs.Some?
      && (ConvertedFrame(env, m, t, loadScript).Success? ==>
            && ConvertedFrame(env, m, t, loadScript).value.columns == seq(|fs.value|, i requires 0 <= i < |fs.value| => fs.value[i].0)
            && forall i :: 0 <= i < |t.rows| ==> |Split(t.rows[i][FeatureColumn(loadScript)], '|')| == |fs.value|)
  {
    var fs := env.readDescriptor(DescriptorPath(basePath, name)).value.features.value;
    FeatureTableKeepsNames(fs);
  }
  /** The model is only called when every row's feature string splits into
      exactly one field per declared feature; otherwise the evaluation fails
      with the arity error. */
  lemma EvaluateChecksArity<M>(env: Env<M>, m: LoadedModel<M>, t: Table, chosen: Value, loadScript: bool)
    requires IsRequestTable(t, FeatureRequestColumns(loadScript))
    ensures (exists i :: 0 <= i < |t.rows| && |Split(t.rows[i][FeatureColumn(loadScript)], '|')| != |m.features|) ==>
      Evaluate(env, m, t, chosen, loadScript) == Failure(FeatureArityMismatch)
    ensures Evaluate(env, m, t, chosen, loadScript).Success? ==>
      forall i :: 0 <= i < |t.rows| ==> |Split(t.rows[i][FeatureColumn(loadScript)], '|')| == |m.features|
  {
  }

  /** The response of a prediction: a bare result column for an expression
      call; for a load-script call, a table with the model name, key and
      result of each row, and its description. */
  datatype Prediction =
    | Series(index: seq<Label>, values: seq<Cell>)
    | Keyed(header: seq<string>, rows: seq<seq<Cell>>, description: TableDescription)

  /** The columns of a load-script response. */
  const JoinedColumns: seq<string> := ["model_name", "key", "n_features", "result"]

  /** Builds the response from the row labels and results of an evaluation:
      the bare results for an expression call; for a load-script call, the
      request rows joined to the results on their labels, without the feature
      column. */
  function Respond(t: Table, labels: seq<Label>, results: seq<Cell>, loadScript: bool): (p: Prediction)
    requires IsRequestTable(t, FeatureRequestColumns(loadScript))
    requires |labels| == |results|
    ensures !loadScript ==> p == Series(labels, results)
    ensures loadScript ==>
      && p.Keyed?
      && p.header == ["model_name", "key", "result"]
      && p.description == DescribeTable("predict", |p.rows|)
      && |FieldNames(p.description.fields)| == |p.header|
      && (forall i :: 0 <= i < |p.rows| ==> |p.rows[i]| == |p.header|)
    ensures loadScript && labels == RequestLabels(t.rows, true) && NoDuplicates(Keys(t.rows)) ==>
      && |p.rows| == |t.rows|
      && forall i :: 0 <= i < |t.rows| ==> p.rows[i] == [Text(t.rows[i][0]), Text(t.rows[i][1]), results[i]]
    ensures loadScript && KeysAmong(t.rows, labels) ==>
      && |p.rows| == |t.rows|
      && forall i, j :: 0 <= i < |t.rows| && 0 <= j < |labels| && labels[j] == Key(t.rows[i][1]) ==>
           p.rows[i] == [Text(t.rows[i][0]), Text(t.rows[i][1]), results[j]]
  {
    if loadScript then
      ResponseColumnsDropFeatures();
      KeyedRowsAligned(t, labels, results);
      var rows := KeyedRows(t, labels, results);
      Keyed(KeepCells(JoinedColumns, JoinedColumns, "n_features"), rows, DescribeTable("predict", |rows|))
    else Series(labels, results)
  }

  /** The joined columns without `n_features`. */
  lemma ResponseColumnsDropFeatures()
    ensures KeepCells(JoinedColumns, JoinedColumns, "n_features") == ["model_name", "key", "result"]
    ensures Count(JoinedColumns, "n_features") == 1
  {
    KeepCellsAt(JoinedColumns, JoinedColumns, "n_features", 2);
  }

  /** The request rows left-joined to the results on their labels. */
  function JoinedRows(t: Table, labels: seq<Label>, results: seq<Cell>): (joined: seq<seq<Cell>>)
    requires IsRequestTable(t, FeatureRequestColumns(true))
    requires |labels| == |results|
    ensures forall k :: 0 <= k < |joined| ==> |joined[k]| == |JoinedColumns|
    ensures labels == RequestLabels(t.rows, true) && NoDuplicates(Keys(t.rows)) ==>
      && |joined| == |t.rows|
      && forall i :: 0 <= i < |t.rows| ==> joined[i] == AsCells(t.rows[i]) + [results[i]]
    ensures KeysAmong(t.rows, labels) ==>
      && |joined| == |t.rows|
      && forall i, j :: 0 <= i < |t.rows| && 0 <= j < |labels| && labels[j] == Key(t.rows[i][1]) ==>
           joined[i] == AsCells(t.rows[i]) + [results[j]]
  {
    var left := Zip(RequestLabels(t.rows, true), RequestCells(t.rows));
    LeftJoinWidth(left, Zip(labels, results), 3);
    KeyedAlignment(t, labels, results);
    KeyedByLabel(t, labels, results);
    LeftJoin(left, Zip(labels, results))
  }

  /** `drop('n_features')` on one joined row: every cell but the feature
      string. */
  function WithoutFeatures(row: seq<Cell>): (r: seq<Cell>)
    requires |row| == |JoinedColumns|
    ensures r == [row[0], row[1], row[3]]
  {
    KeepCellsAt(JoinedColumns, row, "n_features", 2);
    assert row[..2] == [row[0], row[1]] && row[3..] == [row[3]];
    KeepCells(JoinedColumns, row, "n_features")
  }

  /** The rows of a load-script response: the joined rows, each without its
      feature cell. */
  function KeyedRows(t: Table, labels: seq<Label>, results: seq<Cell>): (rows: seq<seq<Cell>>)
    requires IsRequestTable(t, FeatureRequestColumns(true))
    requires |labels| == |results|
    ensures forall i :: 0 <= i < |rows| ==> |rows[i]| == 3
  {
    DropFeatures(JoinedRows(t, labels, results))
  }

  /** Results labelled with the request's own distinct keys, in request order,
      answer row `i` with the model name, key and result `i` of request row
      `i`. */
  lemma KeyedRowsInOrder(t: Table, labels: seq<Label>, results: seq<Cell>)
    requires IsRequestTable(t, FeatureRequestColumns(true))
    requires |labels| == |results|
    requires labels == RequestLabels(t.rows, true) && NoDuplicates(Keys(t.rows))
    ensures |KeyedRows(t, labels, results)| == |t.rows|
    ensures forall i :: 0 <= i < |t.rows| ==>
      KeyedRows(t, labels, results)[i] == [Text(t.rows[i][0]), Text(t.rows[i][1]), results[i]]
  {
    var joined := JoinedRows(t, labels, results);
    var rows := KeyedRows(t, labels, results);
    forall i | 0 <= i < |t.rows| ensures rows[i] == [Text(t.rows[i][0]), Text(t.rows[i][1]), results[i]] {
      KeyedCells(t.rows[i], joined[i], results[i]);
      assert rows[i] == WithoutFeatures(joined[i]);
    }
  }

  /** Results with distinct labels covering the request's keys answer each
      request row with its model name, its key and the result labelled with
      that key. */
  lemma KeyedRowsByKey(t: Table, labels: seq<Label>, results: seq<Cell>)
    requires IsRequestTable(t, FeatureRequestColumns(true))
    requires |labels| == |results|
    requires KeysAmong(t.rows, labels)
    ensures |KeyedRows(t, labels, results)| == |t.rows|
    ensures forall i, j :: 0 <= i < |t.rows| && 0 <= j < |labels| && labels[j] == Key(t.rows[i][1]) ==>
      KeyedRows(t, labels, results)[i] == [Text(t.rows[i][0]), Text(t.rows[i][1]), results[j]]
  {
    var joined := JoinedRows(t, labels, results);
    var rows := KeyedRows(t, labels, results);
    forall i, j | 0 <= i < |t.rows| && 0 <= j < |labels| && labels[j] == Key(t.rows[i][1])
      ensures rows[i] == [Text(t.rows[i][0]), Text(t.rows[i][1]), results[j]]
    {
      KeyedCells(t.rows[i], joined[i], results[j]);
      assert rows[i] == WithoutFeatures(joined[i]);
    }
  }

  /** `drop('n_features')` on every joined row. */
  function DropFeatures(joined: seq<seq<Cell>>): (rows: seq<seq<Cell>>)
    requires forall k :: 0 <= k < |joined| ==> |joined[k]| == |JoinedColumns|
    ensures |rows| == |joined|
    ensures forall k :: 0 <= k < |joined| ==> rows[k] == WithoutFeatures(joined[k]) && |rows[k]| == 3
  {
    seq(|joined|, k requires 0 <= k < |joined| => WithoutFeatures(joined[k]))
  }

  /** Both alignments of the keyed rows, each under its own condition. */
  lemma KeyedRowsAligned(t: Table, labels: seq<Label>, results: seq<Cell>)
    requires IsRequestTable(t, FeatureRequestColumns(true))
    requires |labels| == |results|
    ensures labels == RequestLabels(t.rows, true) && NoDuplicates(Keys(t.rows)) ==>
      && |KeyedRows(t, labels, results)| == |t.rows|
      && forall i :: 0 <= i < |t.rows| ==>
           KeyedRows(t, labels, results)[i] == [Text(t.rows[i][0]), Text(t.rows[i][1]), results[i]]
    ensures KeysAmong(t.rows, labels) ==>
      && |KeyedRows(t, labels, results)| == |t.rows|
      && forall i, j :: 0 <= i < |t.rows| && 0 <= j < |labels| && labels[j] == Key(t.rows[i][1]) ==>
           KeyedRows(t, labels, results)[i] == [Text(t.rows[i][0]), Text(t.rows[i][1]), results[j]]
  {
    if labels == RequestLabels(t.rows, true) && NoDuplicates(Keys(t.rows)) {
      KeyedRowsInOrder(t, labels, results);
    }
    if KeysAmong(t.rows, labels) {
      KeyedRowsByKey(t, labels, results);
    }
  }

  /** A joined row of a three-column request row, without its feature cell,
      is the model name, the key and the result. */
  lemma KeyedCells(request: seq<string>, joined: seq<Cell>, result: Cell)
    requires |request| == 3 && joined == AsCells(request) + [result]
    ensures |joined| == |JoinedColumns|
    ensures WithoutFeatures(joined) == [Text(request[0]), Text(request[1]), result]
  {
  }

  /** Every joined row is a request row of width `w` and one result. */
  lemma {:induction false} LeftJoinWidth(left: seq<(Label, seq<Cell>)>, right: seq<(Label, Cell)>, w: nat)
    requires forall i :: 0 <= i < |left| ==> |left[i].1| == w
    ensures forall k :: 0 <= k < |LeftJoin(left, right)| ==> |LeftJoin(left, right)[k]| == w + 1
    decreases |left|
  {
    if |left| > 0 {
      LeftJoinWidth(left[1..], right, w);
    }
  }

  /** Results labelled with the request's own distinct keys, in request order,
      join back one to one: request row `i` gets result `i`. */
  lemma KeyedAlignment(t: Table, labels: seq<Label>, results: seq<Cell>)
    requires IsRequestTable(t, FeatureRequestColumns(true))
    requires |labels| == |results|
    ensures labels == RequestLabels(t.rows, true) && NoDuplicates(Keys(t.rows)) ==>
      var joined := LeftJoin(Zip(RequestLabels(t.rows, true), RequestCells(t.rows)), Zip(labels, results));
      && |joined| == |t.rows|
      && forall i :: 0 <= i < |t.rows| ==> joined[i] == AsCells(t.rows[i]) + [results[i]]
  {
    if labels == RequestLabels(t.rows, true) && NoDuplicates(Keys(t.rows)) {
      assert NoDuplicates(labels) by {
        forall i, j | 0 <= i < j < |labels| ensures labels[i] != labels[j] {
          assert Keys(t.rows)[i] != Keys(t.rows)[j];
        }
      }
      LeftJoinSameLabels(labels, RequestCells(t.rows), results);
    }
  }

  /** The results carry distinct labels and every request key is among them:
      the condition under which each request row is joined to exactly one
      result, whatever order the results come in. */
  predicate KeysAmong(rows: seq<seq<string>>, labels: seq<Label>)
    requires forall i :: 0 <= i < |rows| ==> 1 < |rows[i]|
  {
    && NoDuplicates(labels)
    && forall i :: 0 <= i < |rows| ==> Key(rows[i][1]) in labels
  }

  /** Results labelled with distinct labels covering the request's keys join
      back by key: request row `i` gets the result labelled with its key,
      wherever that result stands, and rows sharing a key share the result. */
  lemma KeyedByLabel(t: Table, labels: seq<Label>, results: seq<Cell>)
    requires IsRequestTable(t, FeatureRequestColumns(true))
    requires |labels| == |results|
    ensures KeysAmong(t.rows, labels) ==>
      var joined := LeftJoin(Zip(RequestLabels(t.rows, true), RequestCells(t.rows)), Zip(labels, results));
      && |joined| == |t.rows|
      && forall i, j :: 0 <= i < |t.rows| && 0 <= j < |labels| && labels[j] == Key(t.rows[i][1]) ==>
           joined[i] == AsCells(t.rows[i]) + [results[j]]
  {
    if KeysAmong(t.rows, labels) {
      var left := Zip(RequestLabels(t.rows, true), RequestCells(t.rows));
      var right := Zip(labels, results);
      assert LabelsOf(right) == labels;
      forall i | 0 <= i < |left| ensures left[i].0 in LabelsOf(right) {
        assert left[i].0 == Key(t.rows[i][1]);
      }
      LeftJoinByLabel(left, right);
    }
  }

  /** Evaluates the model on the request and builds the response: the bare
      results for an expression call; for a load-script call, the keyed
      table and its description, in which each request row gets the result
      labelled with its key whenever the results carry distinct labels that
      cover the request's keys, in whatever order; without a preprocessor and
      with distinct keys, row `i` gets result `i`. */
  function Infer<M>(env: Env<M>, m: LoadedModel<M>, t: Table, chosen: Value, loadScript: bool): (r: Result<Prediction, Error>)
    requires IsRequestTable(t, FeatureRequestColumns(loadScript))
    ensures r.Success? <==> Evaluate(env, m, t, chosen, loadScript).Success?
    ensures r.Failure? ==> r.error == Evaluate(env, m, t, chosen, loadScript).error
    ensures r.Success? && !loadScript ==>
      var ev := Evaluate(env, m, t, chosen, loadScript).value;
      r.value == Series(ev.0, ev.1)
    ensures r.Success? && loadScript ==>
      && r.value.Keyed?
      && r.value.header == ["model_name", "key", "result"]
      && r.value.description == DescribeTable("predict", |r.value.rows|)
    ensures r.Success? && loadScript && m.prep.None? && NoDuplicates(Keys(t.rows)) ==>
      var results := Evaluate(env, m, t, chosen, loadScript).value.1;
      && |r.value.rows| == |t.rows|
      && forall i :: 0 <= i < |t.rows| ==> r.value.rows[i] == [Text(t.rows[i][0]), Text(t.rows[i][1]), results[i]]
    ensures r.Success? && loadScript && KeysAmong(t.rows, Evaluate(env, m, t, chosen, loadScript).value.0) ==>
      var ev := Evaluate(env, m, t, chosen, loadScript).value;
      && |r.value.rows| == |t.rows|
      && forall i, j :: 0 <= i < |t.rows| && 0 <= j < |ev.0| && ev.0[j] == Key(t.rows[i][1]) ==>
           r.value.rows[i] == [Text(t.rows[i][0]), Text(t.rows[i][1]), ev.1[j]]
  {
    var (labels, results) :- Evaluate(env, m, t, chosen, loadScript);
    Success(Respond(t, labels, results, loadScript))
  }

  /** The whole operation on a decoded request: set the parameters from the
      first row's arguments, choose the method, resolve the model named in the
      first row, and infer. Each stage's failure is the operation's failure,
      and the search path comes back updated by whatever loading happened,
      even on failure. */
  function Predict<M>(env: Env<M>, t: Table, loadScript: bool, basePath: string, searchPath: seq<string>)
    : (r: Run<Prediction>)
    requires IsRequestTable(t, RequestColumns(loadScript))
    ensures searchPath <= r.searchPath
    ensures |t.rows| == 0 ==> r == Run(Failure(NoRequestRows), searchPath)
    ensures r.outcome.Success? ==>
      && |t.rows| > 0
      && (loadScript <==> r.outcome.value.Keyed?)
      && (loadScript ==> r.outcome.value.description.numberOfRows == |r.outcome.value.rows|)
    ensures Initiate(env, t, RequestColumns(loadScript)).Failure? ==>
      r == Run(Failure(Initiate(env, t, RequestColumns(loadScript)).error), searchPath)
    ensures Initiate(env, t, RequestColumns(loadScript)).Success? ==> (
      DropKwargsKeepsFeatureColumns(t, loadScript);
      var p := Initiate(env, t, RequestColumns(loadScript)).value.0;
      var got := GetModel(env, t.rows[0][0], basePath, searchPath);
      && (got.outcome.Failure? ==> r == Run(Failure(got.outcome.error), got.searchPath))
      && (got.outcome.Success? ==>
            r == Run(Infer(env, got.outcome.value, DropColumn(t, "kwargs"), PredictionMethod(p.passOn), loadScript), got.searchPath)))
  {
    var init := Initiate(env, t, RequestColumns(loadScript));
    if init.Failure? then Run(init.PropagateFailure(), searchPath)
    else
      var (p, df) := init.value;
      DropKwargsKeepsFeatureColumns(t, loadScript);
      var chosen := PredictionMethod(p.passOn);
      var got := GetModel(env, df.rows[0][0], basePath, searchPath);
      if got.outcome.Failure? then Run(got.outcome.PropagateFailure(), got.searchPath)
      else Run(Infer(env, got.outcome.value, df, chosen, loadScript), got.searchPath)
  }
}
