/** The entities the request-to-inference pipeline passes between its stages. */
module Data {
  import opened Wrappers

  /** A typed pass-on argument, as produced by the argument typer. */
  datatype Value = StrValue(s: string) | IntValue(i: int) | FloatValue(x: real) | BoolValue(b: bool)

  /** One cell of a frame: text, a number, or a missing value (`NaN`). */
  datatype Cell = Text(s: string) | Number(x: real) | Missing

  /** A row label of a frame: a position in the default range index, or the
      caller's key once the key column has been made the index. */
  datatype Label = Position(n: nat) | Key(k: string)

  /** A feature frame handed to a preprocessor or a model: column names, row
      labels and rows. `index` is `None` for a result that carries no row
      labels (a bare array). */
  datatype Frame = Frame(columns: seq<string>, index: Option<seq<Label>>, rows: seq<seq<Cell>>)

  /** The raw array a model returns: one-dimensional, or two-dimensional with
      `width` columns. */
  datatype RawOutput = Flat(values: seq<Cell>) | Grid(width: nat, cells: seq<seq<Cell>>)

  /** An array is rectangular: every row of a grid has the grid's width. */
  predicate Rectangular(o: RawOutput) {
    o.Grid? ==> forall i :: 0 <= i < |o.cells| ==> |o.cells[i]| == o.width
  }

  type Output = o: RawOutput | Rectangular(o) witness Flat([])

  /** An association rule as the mining library emits it. */
  datatype Rule = Rule(lhs: seq<string>, rhs: seq<string>, support: real, confidence: real, lift: real)

  /** A model descriptor as read from the model's YAML file; each entry is
      absent when the file has no such key. `features` keeps the file's order. */
  datatype Descriptor = Descriptor(
    path: Option<string>,
    modelType: Option<string>,
    features: Option<seq<(string, string)>>,
    preprocessor: Option<string>)

  /** One row of the feature table: name, declared type and role. */
  datatype FeatureRow = FeatureRow(name: string, dataType: string, variableType: string)

  /** The errors the pipeline raises. Errors of external collaborators carry
      the collaborator's own message. */
  datatype Error =
    | NoRequestRows                      // the first row of an empty request is looked up
    | ArgumentsUnset                     // the pass-on arguments were never assigned
    | ArgumentError(detail: string)      // the argument parser or typer failed
    | MiningError(detail: string)        // the rule-mining library failed
    | NoRulesFound
    | DescriptorNotFound
    | DescriptorKeyMissing(key: string)
    | UnsupportedModelType(given: string)
    | ArtifactLoadError(detail: string)
    | FeatureArityMismatch
    | TypeConversionError(detail: string)
    | PreprocessingError(detail: string)
    | MethodNameNotText                  // the prediction method name is not a string
    | InvocationError(detail: string)
    | NoIndex                            // the preprocessed features carry no row labels
    | OutputShapeError                   // the model output does not fit one column
    | LengthMismatch                     // the model output and the row labels differ in length

  /** The message the caller sees for the errors this core raises itself. */
  function Message(e: Error): string {
    match e
    case NoRulesFound =>
      "No association rules could be found. You may get results by lowering the limits imposed by "
      + "the min_support and min_confidence parameters.\ne.g. by passing min_support=0.2|float in the arguments."
    case DescriptorNotFound =>
      "Model definition file not found. A YAML file with the model path, type and features needs to be placed in ../models/"
    case UnsupportedModelType(t) => "Unsupported model type: " + t
    case FeatureArityMismatch =>
      "The number of input columns do not match feature definitions. Ensure you are using the | delimiter "
      + "and that the target is not included in your input to the prediction function."
    case ArgumentError(d) => d
    case MiningError(d) => d
    case ArtifactLoadError(d) => d
    case TypeConversionError(d) => d
    case PreprocessingError(d) => d
    case InvocationError(d) => d
    case DescriptorKeyMissing(k) => "'" + k + "'"   // a key error shows the key quoted
    case _ => ""
  }

  /** The outcome of a step that also updates the process-wide module search
      path: the path is returned whether or not the step succeeded, since an
      entry appended before a failure stays appended. */
  datatype Run<+T> = Run(outcome: Result<T, Error>, searchPath: seq<string>)

  /** Opaque collaborators of the pipeline, one field per external call.
      `M` is the type of a deserialised model or preprocessor. */
  datatype Env<!M> = Env(
    /** Parses the raw argument string into a key-value map. */
    parseArgs: string -> Result<map<string, string>, string>,
    /** Converts argument values to their declared types. */
    typeArgs: map<string, string> -> Result<map<string, Value>, string>,
    /** The association-rule miner, given the transactions and its arguments. */
    apriori: (seq<seq<string>>, map<string, Value>) -> Result<seq<Rule>, string>,
    /** Reads and parses the descriptor file at a path; `None` if absent. */
    readDescriptor: string -> Option<Descriptor>,
    /** The absolute directory of a file path. */
    modelDir: string -> string,
    /** Deserialises a pickled pipeline. */
    unpickle: string -> Result<M, string>,
    /** Loads a Keras model from a fresh session with its predict function built. */
    loadKeras: string -> Result<M, string>,
    /** Casts the split feature strings to the feature table's declared types. */
    convertTypes: (seq<seq<string>>, seq<FeatureRow>) -> Result<seq<seq<Cell>>, string>,
    /** Applies a preprocessor's `transform`. */
    transform: (M, Frame) -> Result<Frame, string>,
    /** Calls the named method of a model on a frame. */
    invoke: (M, string, Frame) -> Result<Output, string>,
    /** The text form of a number in a string-converted array. */
    numberText: real -> string)
}
