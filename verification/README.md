# Common functions of the Python server-side extension

This project models `CommonFunction`, the request handler behind two
functions a Qlik app can call through the server-side extension:

- **association rules**: the request rows are `group, item, kwargs`. Each
  group's items become one transaction, in order of first appearance. The
  transactions go to an external apriori miner. The rules come back ranked by
  lift, highest first, and formatted as `"lhs -> rhs"` rows.
- **prediction**: the request rows are `model_name, n_features, kwargs`. A
  load-script call adds a `key` column before `n_features`. The model's YAML
  descriptor is read and its backend type is checked (`sklearn`,
  `scikit-learn` or `keras`, in any case). The optional preprocessor is loaded,
  then the model. Loading a file first adds its directory to the module
  search path. Each feature string is split on `|` into one field per
  declared feature. The fields are typed, preprocessed and passed to the
  model's prediction method (`predict` unless a `return` argument names
  another). The output is shaped into one result per row. A load-script call
  answers a table joined back to the caller's keys; an expression call
  answers the bare result column.

Both operations begin the same way. The argument string in the first row's
`kwargs` cell sets the parameters: the `debug` flag, matched case-insensitively,
and the typed arguments passed on. Then the `kwargs` column is dropped.

The two operations (`Mining.AssociationRules` and `Inference.Predict`) are
built on the corrected forms of the two defects listed under "## Findings",
so they differ from the handler as written on two kinds of request:

- an empty `kwargs` cell, where the operations carry on with no arguments
  while the handler fails reading arguments it never set;
- feature strings of uneven width, which the operations reject row by row
  while the handler accepts them as long as the widest row is right.

The as-written behaviour of both is modelled beside the correction.

Everything the handler delegates is a function-typed field of `Data.Env`:
argument parsing and typing, the apriori miner, YAML reading, unpickling,
Keras loading, type conversion, the preprocessor's `transform`, the model's
method and the text form of a number. The contracts therefore hold for every
behaviour of those collaborators. The process-wide module search path is an
explicit input and output (`Data.Run`). It is returned even when a later step
fails, because an entry appended before a failure stays appended.

Modules:

- `Wrappers`: `Option`, `Result` and failure re-labelling.
- `Seqs`: distinctness and occurrence counts.
- `Text`: Python's `str.lower`, `split` on one character, and `join`.
- `Data`: the entities and the collaborators.
- `Tables`: the decoded request table, `loc[0, name]` and `drop`.
- `Params`: `_initiate` and `_set_params`.
- `Describe`: `_send_table_description`.
- `Loader`: `_get_model`, the two loaders and `_add_model_path`.
- `Mining`: `association_rules`.
- `Inference`: `predict`.

## Model

| member | source | states |
|---|---|---|
| Tables.FirstRowCell | core/_common.py:196 | the argument string is the first row's `kwargs` cell; an empty request fails instead of yielding a value |
| Tables.DropColumn | core/_common.py:246 | dropping a column leaves no column of that name, keeps every row and keeps every row as wide as the header |
| Tables.KeepCellsAt | core/_common.py:246 | when the name labels exactly one column, dropping it removes exactly that cell and keeps the others in order |
| Tables.KeepCellsHeader | core/_common.py:246 | the header after the drop holds exactly the other column names |
| Params.SetParams | core/_common.py:204-246 | corrected form: `debug` defaults to false; an empty argument string gives empty maps; otherwise `debug` is removed from the parsed map, every other key and value is kept, and the pass-on map is the typer's result for it; the parameters are set exactly when the parser and then the typer succeed, and otherwise the first failure's message is the request's error |
| Params.DebugIsCaseInsensitiveTrue | core/_common.py:224-225 | debug is on exactly when a `debug` argument is present and spells `true` in any mix of upper and lower case |
| Params.SetParamsAsWritten | core/_common.py:214-239 | as written: an empty argument string assigns neither the parsed map nor the pass-on map; a non-empty one assigns both, the parsed map without its `debug` key |
| Params.PassOnAsWritten | core/_common.py:73 | reading the pass-on arguments fails exactly when they were never assigned |
| Params.EmptyArgumentsAsWritten | core/_common.py:217-239 | with an empty argument string, reading the pass-on arguments as written fails, while the corrected parameters hold empty maps |
| Params.AsWrittenAgreesWhenArgumentsGiven | core/_common.py:217-239 | for a non-empty argument string the corrected and the as-written parameters succeed together and carry the same values |
| Params.Initiate | core/_common.py:184-202 | an empty request fails; a non-empty one succeeds exactly when the first row's `kwargs` cell sets the parameters, and otherwise fails with that error; on success the table is the request without its `kwargs` column, with every row kept |
| Text.Split | core/_common.py:139 | `split('\|')` gives one field more than there are delimiters, and no field contains the delimiter |
| Text.JoinSplit | core/_common.py:139 | joining the fields of a split with the delimiter gives back the original text |
| Text.SplitJoin | core/_common.py:159 | splitting a `\|`-joined list of delimiter-free parts gives back the parts |
| Text.LowerEqualsLiteral | core/_common.py:225 | a text lower-cases to an ASCII literal exactly when it matches the literal character by character, ignoring case |
| Text.JoinLongSeparator | core/_common.py:80-81 | joining with `", "` is joining with `,` after a space is put in front of every part but the first |
| Describe.DescribeTable | core/_common.py:357-379 | the description is named `SSE-Response` and counts the response rows; the rule variant announces six columns, of which exactly support, confidence and lift are numeric; the predict variant announces three string columns; any other variant announces none |
| Loader.ParseBackend | core/_common.py:279-283 | a type is supported exactly when its lower-case form is `sklearn`, `scikit-learn` or `keras`, and it is the Keras backend exactly when that form is `keras` |
| Loader.ParseBackendIgnoresCase | core/_common.py:279 | a type and its lower-case form select the same backend |
| Loader.KerasSpellings | core/_common.py:279-283 | `Keras`, `KERAS`, a `keras` spelled with the Kelvin sign and `Scikit-Learn` are accepted; `tensorflow` is not |
| Loader.AddModelPath | core/_common.py:347-355 | the directory is on the path afterwards, the old path is a prefix of the new one, at most one entry is added and it can only be the directory, and the path is unchanged exactly when the directory was already on it |
| Loader.AddModelPathIdempotent | core/_common.py:354-355 | adding the same directory twice is adding it once |
| Loader.AddModelPathAppendOnly | core/_common.py:354-355 | every earlier entry keeps its position, and the only new entry can be the directory |
| Loader.FeatureTable | core/_common.py:305-308 | one feature row per declared feature, in the descriptor's order, with its declared type and the role `feature` |
| Loader.FeatureTableKeepsNames | core/_common.py:305-307 | the feature names are the descriptor's names, in order |
| Loader.LoadPickled | core/_common.py:314-328 | a pickled artifact's directory is added to the search path whether or not unpickling succeeds; the load succeeds exactly when unpickling does and yields its object |
| Loader.LoadKeras | core/_common.py:330-345 | a Keras model's directory is added to the search path whether or not loading succeeds; the load succeeds exactly when the Keras loader does and yields its model |
| Loader.LoadPreprocessor | core/_common.py:285-290 | without a declared preprocessor nothing is loaded and the path is untouched; with one, its load decides the outcome and its directory is added |
| Loader.Required | core/_common.py:279 | a descriptor entry is read when present, and its absence fails naming the missing key |
| Loader.Checked | core/_common.py:279-283 | the descriptor passes exactly when path, type and features are present and the type is supported; the first missing key, in the order `path`, `type`, `features`, is the error, shown quoted as a key error shows it; an unsupported type fails with the message `Unsupported model type: ` and the type as written |
| Loader.GetModel | core/_common.py:248-312 | a missing descriptor fails before anything is loaded; a descriptor with a missing key or an unsupported type fails with that error and leaves the path alone; a complete, supported descriptor loads exactly when the declared preprocessor unpickles and the backend's loader loads the model, and otherwise fails with the first loader's message; on success the preprocessor is present exactly when declared, both directories are on the path, the name is kept and the features follow the descriptor; the path only grows, and the only directories it gains are the model's and the declared preprocessor's; the preprocessor's directory is added first, a failing preprocessor load leaves exactly that directory added, and otherwise the model's directory follows, staying added even when the model fails to load |
| Loader.GetModelPathIdempotent | core/_common.py:347-355 | resolving the same model again from the search path the first resolution left changes nothing: each directory is added at most once, however often the model is loaded |
| Mining.Distinct | core/_common.py:69 | `unique()` keeps exactly the values present, each once |
| Mining.DistinctFirstSeenOrder | core/_common.py:69 | the distinct groups come in the order of their first appearance |
| Mining.Groupwise | core/_common.py:66-70 | one transaction per listed group, holding that group's items |
| Mining.ItemsOfMembers | core/_common.py:70 | a group's transaction holds exactly the items of that group's rows |
| Mining.ItemsOfCount | core/_common.py:70 | a group's transaction has one item per row of that group |
| Mining.Transactions | core/_common.py:66-70 | one transaction per distinct group, and no transaction is empty |
| Mining.TransactionsCoverRows | core/_common.py:66-70 | every request row lands in exactly one transaction: the transaction sizes add up to the number of rows |
| Mining.RankByLift | core/_common.py:79 | the ranking has as many rules as were mined, with lift never increasing |
| Mining.RankIsPermutation | core/_common.py:79 | the ranking keeps exactly the mined rules, each as often as mined |
| Mining.RankIsStable | core/_common.py:79 | rules of equal lift keep the order the miner gave them |
| Mining.FormatRule | core/_common.py:80-83 | a rule row carries both sides joined by `", "`, the text `lhs -> rhs`, and the rule's support, confidence and lift |
| Mining.SideTextSplits | core/_common.py:80-81 | a side's text splits on `,` back into its items, each after the first with a leading space, when no item contains a comma |
| Mining.FormatAll | core/_common.py:79-83 | one formatted row per rule, in order |
| Mining.DropKwargsLeavesGroupItem | core/_common.py:63 | after `kwargs` is dropped the request has the columns `group, item`, and each row keeps its first two cells |
| Mining.AssociationRules | core/_common.py:57-100 | built on the corrected parameters, so an empty `kwargs` cell mines with no arguments; a miner failure and an empty rule set both fail, so the operation never answers an empty table; otherwise the rows are the mined rules ranked by lift, highest first, and the description announces the rule columns and the row count; the miner sees the transactions and the pass-on arguments |
| Inference.FeatureColumnIsNFeatures | core/_common.py:110-118 | in both call variants the feature column position points at `n_features` once `kwargs` is dropped |
| Inference.DropKwargsKeepsFeatureColumns | core/_common.py:110-118 | dropping `kwargs` keeps every request row minus its last cell |
| Inference.PredictionMethod | core/_common.py:125-127 | the method called is `predict` unless a `return` argument names another |
| Inference.PredictionMethodAsWritten | core/_common.py:125-127 | as written, choosing the method fails exactly when the pass-on arguments were never assigned |
| Inference.EmptyArgumentsPredictAsWritten | core/_common.py:121-127 | with an empty argument string, choosing the method as written fails; with the corrected parameters the method is `predict` |
| Inference.SplitFeatures | core/_common.py:139-144 | corrected check: the split succeeds exactly when every row's feature string has one field per declared feature, and then yields each row's fields; otherwise it fails with the arity error |
| Inference.SplitFeaturesRejoin | core/_common.py:139 | the split is lossless, and an accepted row holds one delimiter fewer than there are features |
| Inference.PerRowCheckIsStricter | core/_common.py:139-144 | every request the per-row check accepts is accepted as written too |
| Inference.RaggedFeatureRowsAsWritten | core/_common.py:139-144 | with two features, the feature strings `1\|2` and `3` pass the check as written and fail the per-row check |
| Inference.ShapeResult | core/_common.py:156-161 | a two-column output gives one `a\|b` text per row; a flat or one-column output is kept; any other width fails |
| Inference.PairedResultSplits | core/_common.py:158-159 | a two-output result splits on `\|` back into the text of its two outputs when neither contains the delimiter |
| Inference.LeftJoin | core/_common.py:165 | the join has at least as many rows as the request; where each request row's rows stand is stated by `Inference.LeftJoinRows` |
| Inference.LeftJoinAppend | core/_common.py:165 | the join works row by row: joining two runs of request rows in sequence is joining each run and concatenating |
| Inference.LeftJoinRows | core/_common.py:165 | every request row is kept: right after the rows of the request rows before it come one joined row per result carrying its label, in the results' order, each the request row followed by that result, or, when no result carries it, a single row ending in a missing value |
| Inference.LeftJoinUnmatched | core/_common.py:165 | a request row whose label no result carries is kept, with a missing value as its result |
| Inference.LeftJoinByLabel | core/_common.py:165 | with distinct result labels covering every request row, each request row gets exactly the result carrying its label, whatever the order of either side |
| Inference.LeftJoinSameLabels | core/_common.py:165 | rows and results carrying the same distinct labels in the same order join one to one, row `i` with result `i` |
| Inference.RequestLabels | core/_common.py:133-141 | the row labels are the keys for a load-script call and the positions `0, 1, …` in row order otherwise; positions never repeat, and keys repeat exactly when the caller's keys do |
| Inference.Preprocess | core/_common.py:149-151 | without a preprocessor the frame is kept; with one, the result is the preprocessor's `transform`, whose failure is the request's error |
| Inference.ConvertedFrame | core/_common.py:137-147 | a row whose feature string has the wrong number of fields fails with the arity error before typing; otherwise the frame is built exactly when the converter accepts the fields, with the feature names as columns and the request's row labels |
| Inference.CallModel | core/_common.py:153-161 | the named method is called on the frame; a non-text method name, a failing call, a frame without row labels, an output of unsupported width and an output of the wrong length each fail with their own error; otherwise the result is the frame's labels and the model's shaped output |
| Inference.EvaluateChecksArity | core/_common.py:139-154 | the model is called only when every feature string has one field per feature; otherwise evaluation fails with the arity error |
| Inference.Evaluate | core/_common.py:137-161 | the typed frame is preprocessed and handed to the model; the first failing step is the error; a success yields as many results as row labels, and without a preprocessor the labels are the request's own |
| Inference.ModelAnswersEveryRow | core/_common.py:137-161 | without a preprocessor, when every feature string has one field per feature, the converter accepts the fields and the model's output fits the request's rows, the evaluation succeeds with the request's labels and the model's shaped output |
| Inference.ModelSeesDescriptorFeatures | core/_common.py:139-141 | for a model resolved from its descriptor, the typed frame's columns are the descriptor's feature names in order, and every row has one field per declared feature |
| Inference.Respond | core/_common.py:163-182 | an expression call answers the bare results; a load-script call answers the columns `model_name, key, result` with a three-field description counting the rows; when the results carry distinct labels covering the request's keys, in any order, there is one row per request row, holding its model name, its key and the result labelled with that key; for results labelled with the request's own distinct keys, row `i` holds result `i` |
| Inference.WithoutFeatures | core/_common.py:165 | dropping `n_features` from a joined row keeps the model name, the key and the result |
| Inference.KeyedAlignment | core/_common.py:133-135 | results labelled with the request's own distinct keys join back one to one, in request order |
| Inference.KeyedByLabel | core/_common.py:133-165 | results with distinct labels covering the request's keys join back by key: each request row gets the result labelled with its key, wherever it stands, and rows sharing a key share it |
| Inference.KeyedRowsByKey | core/_common.py:165 | under the same condition, each response row is the request row's model name and key with the result labelled with that key |
| Inference.KeyedRowsInOrder | core/_common.py:165 | results labelled with the request's own distinct keys give response row `i` the model name, key and result `i` of request row `i` |
| Inference.Infer | core/_common.py:146-182 | inference succeeds exactly when evaluation does and fails with its error; an expression call answers the evaluated labels and results as a series; a load-script call answers the three keyed columns with their description; when the evaluated labels are distinct and cover the request's keys, in any order and whether or not a preprocessor relabelled the rows, each request row answers its model name, key and the result labelled with its key; without a preprocessor and with distinct keys, row `i` answers result `i` |
| Inference.Predict | core/_common.py:102-182 | built on the corrected parameters and the per-row feature check; a failure to set the parameters is the request's error with the path untouched; otherwise, when the model named in the first row fails to resolve, its error is the request's error, and when it resolves the answer is the inference with the method the `return` argument chooses; the answer is keyed exactly for a load-script call, and the search path only grows |

## Left out

- Logging (`_print_log`, the log counter and the log file) is not modelled. With `debug` on, the handler also writes each step to a log file under `logs/`, and a log file that cannot be opened fails the request; the model never fails for that reason.
- Sending the table description as gRPC metadata is left out; only the description itself is modelled.
- Decoding the gRPC request into a frame (`utils.request_df`, core/_common.py:193) is not modelled: the model starts from an already decoded, rectangular `Tables.Table`, and decoding errors are out of scope. Parsing the argument string, typing the arguments and converting feature types are opaque collaborators, because their code is not part of this model.
- YAML reading, unpickling, Keras loading (including `clear_session` and `_make_predict_function`) and `os.path.abspath`/`dirname` are opaque collaborators.
- The module-level append of the parent directory to the search path at import time is not modelled.
- Numbers are `real`, and the text form of a number is an opaque collaborator; a missing value prints as `nan`.
- Model outputs with three or more dimensions are not modelled; outputs are flat or two-dimensional.
- The Python exception classes are not distinguished: every failure is a value of `Data.Error`, and the message a caller sees is `Data.Message`.
- Running Python with `-O` strips the assertion on the model type; the model keeps the check.
- Text.Lower: folds only ASCII capitals and the Kelvin sign. This is exact for every comparison the handler makes, because each compares with an ASCII literal.
- Inference.Evaluate: a preprocessor's `transform` is opaque, so its row labels are only constrained when there is no preprocessor.
- Inference.ConvertedFrame: the feature-type converter is given the split fields and returns typed rows; the model then puts the request's row labels on them. This assumes the converter keeps the rows, their order and their labels, as a type cast does; a converter returning a different number of rows is not detected.
- Inference.Respond: the join is many-to-many, as in pandas; the response rows are pinned down one per request row only when the result labels are distinct and cover the request's keys.
- Inference.Infer: when the evaluated labels miss a request key or repeat one (a request that repeats a key, or a preprocessor that relabels the rows), the keyed rows are stated only by their columns and description; the layout of the join in that case is stated separately by `Inference.LeftJoinRows`.
- The predict description names its third field `prediction`, while the response column is `result`; the model keeps both names as written.

## Findings

| source | as written | input that shows it | evidently intended | confidence | as-written member | corrected member |
|---|---|---|---|---|---|---|
| core/_common.py:214-239 | the pass-on arguments are assigned only when the argument string is non-empty, and both operations then read them | a request whose `kwargs` cell is empty: the rule miner's call at line 73 and the `return` lookup at line 126 read an attribute that was never set | an empty argument string means no arguments: empty maps and `debug` off | high (not executed) | Params.SetParamsAsWritten, Params.EmptyArgumentsAsWritten, Inference.PredictionMethodAsWritten | Params.SetParams |
| core/_common.py:139-144 | the frame constructor pads short rows with missing values, so only the widest row is compared with the number of features | two features and the feature strings `1\|2` and `3`: the second row is accepted with a missing second feature | every row's feature string has exactly one field per feature, or the arity error is raised | medium (not executed) | Inference.RaggedFeatureRowsAsWritten | Inference.SplitFeatures |
