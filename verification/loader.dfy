/** Model resolution: read the model's descriptor, check its backend type,
    load the optional preprocessor and the model, and build the feature table.
    Loading a file first appends its directory to the module search path. */
module Loader {
  import opened Wrappers
  import opened Text
  import opened Data

  /** The two model families: pickled scikit-learn pipelines and Keras models. */
  datatype Backend = Sklearn | Keras

  /** The backend type names accepted, after lower-casing. */
  const Supported: seq<string> := ["sklearn", "scikit-learn", "keras"]

  /** The backend of a descriptor's `type` entry, matched case-insensitively:
      `sklearn` and `scikit-learn` name the pickle backend, `keras` the Keras
      one; any other type is unsupported. */
  function ParseBackend(modelType: string): (b: Option<Backend>)
    ensures b.Some? <==> Lower(modelType) in Supported
    ensures b == Some(Keras) <==> Lower(modelType) == "keras"
  {
    var t := Lower(modelType);
    if t == "sklearn" || t == "scikit-learn" then Some(Sklearn)
    else if t == "keras" then Some(Keras)
    else None
  }

  /** The backend check ignores case: a type and its lower-case form name the
      same backend. */
  lemma ParseBackendIgnoresCase(modelType: string)
    ensures ParseBackend(modelType) == ParseBackend(Lower(modelType))
  {
    LowerIdempotent(modelType);
  }

  /** Case-insensitive acceptance, stated without `Lower`: `Keras`, `KERAS`
      and a `keras` spelled with the Kelvin sign are all the Keras backend. */
  lemma KerasSpellings()
    ensures ParseBackend("Keras") == Some(Keras)
    ensures ParseBackend("KERAS") == Some(Keras)
    ensures ParseBackend([Kelvin] + "eras") == Some(Keras)
    ensures ParseBackend("Scikit-Learn") == Some(Sklearn)
    ensures ParseBackend("tensorflow") == None
  {
    assert Lower("Keras") == "keras";
    assert Lower("KERAS") == "keras";
    assert Lower([Kelvin] + "eras") == "keras";
    assert Lower("Scikit-Learn") == "scikit-learn";
    assert Lower("tensorflow") == "tensorflow";
  }

  /** Appends a model directory to the search path unless it is already there. */
  function AddModelPath(searchPath: seq<string>, dir: string): (r: seq<string>)
    ensures dir in r
    ensures searchPath <= r && |r| <= |searchPath| + 1
    ensures dir in searchPath <==> r == searchPath
    ensures forall x :: x in r ==> x in searchPath || x == dir
  {
    if dir in searchPath then searchPath else searchPath + [dir]
  }

  /** Adding a directory twice is adding it once. */
  lemma AddModelPathIdempotent(searchPath: seq<string>, dir: string)
    ensures AddModelPath(AddModelPath(searchPath, dir), dir) == AddModelPath(searchPath, dir)
  {
  }

  /** The search path only ever grows: every entry present before an update is
      present, at the same position, after it, and the only entry that can
      appear is the added directory. */
  lemma AddModelPathAppendOnly(searchPath: seq<string>, dir: string)
    ensures var r := AddModelPath(searchPath, dir);
      && (forall i :: 0 <= i < |searchPath| ==> r[i] == searchPath[i])
      && (forall x :: x in r ==> x in searchPath || x == dir)
  {
  }

  /** The feature table: one row per declared feature, in the descriptor's
      order, with the declared type and the role `feature`. */
  function FeatureTable(features: seq<(string, string)>): (table: seq<FeatureRow>)
    ensures |table| == |features|
    ensures forall i :: 0 <= i < |features| ==>
      table[i].name == features[i].0 && table[i].dataType == features[i].1 && table[i].variableType == "feature"
  {
    seq(|features|, i requires 0 <= i < |features| => FeatureRow(features[i].0, features[i].1, "feature"))
  }

  /** The feature names, in table order: the column names of the feature frame. */
  function FeatureNames(table: seq<FeatureRow>): (names: seq<string>)
    ensures |names| == |table|
  {
    seq(|table|, i requires 0 <= i < |table| => table[i].name)
  }

  /** Building the feature table keeps the descriptor's feature names in order. */
  lemma FeatureTableKeepsNames(features: seq<(string, string)>)
    ensures FeatureNames(FeatureTable(features)) == seq(|features|, i requires 0 <= i < |features| => features[i].0)
  {
  }

  /** Loads a pickled artifact (a scikit-learn model or any preprocessor),
      after adding its directory to the search path. */
  function LoadPickled<M>(env: Env<M>, path: string, searchPath: seq<string>): (r: Run<M>)
    ensures r.searchPath == AddModelPath(searchPath, env.modelDir(path))
    ensures r.outcome.Success? <==> env.unpickle(path).Success?
    ensures r.outcome.Success? ==> r.outcome.value == env.unpickle(path).value
  {
    Run(env.unpickle(path).MapFailure(d => ArtifactLoadError(d)), AddModelPath(searchPath, env.modelDir(path)))
  }

  /** Loads a Keras model, after adding its directory to the search path. */
  function LoadKeras<M>(env: Env<M>, path: string, searchPath: seq<string>): (r: Run<M>)
    ensures r.searchPath == AddModelPath(searchPath, env.modelDir(path))
    ensures r.outcome.Success? <==> env.loadKeras(path).Success?
    ensures r.outcome.Success? ==> r.outcome.value == env.loadKeras(path).value
  {
    Run(env.loadKeras(path).MapFailure(d => ArtifactLoadError(d)), AddModelPath(searchPath, env.modelDir(path)))
  }

  /** Loads the preprocessor when the descriptor declares one; without one
      nothing is loaded and the search path is left alone. */
  function LoadPreprocessor<M>(env: Env<M>, prepPath: Option<string>, searchPath: seq<string>): (r: Run<Option<M>>)
    ensures prepPath.None? ==> r == Run(Success(None), searchPath)
    ensures prepPath.Some? ==>
      && r.searchPath == AddModelPath(searchPath, env.modelDir(prepPath.value))
      && (r.outcome.Success? <==> env.unpickle(prepPath.value).Success?)
      && (r.outcome.Success? ==> r.outcome.value == Some(env.unpickle(prepPath.value).value))
  {
    match prepPath
    case None => Run(Success(None), searchPath)
    case Some(p) =>
      var loaded := LoadPickled(env, p, searchPath);
      match loaded.outcome
      case Success(v) => Run(Success(Some(v)), loaded.searchPath)
      case Failure(e) => Run(Failure(e), loaded.searchPath)
  }

  /** A resolved model: its name, backend, loaded model, optional loaded
      preprocessor and feature table. */
  datatype LoadedModel<M> = LoadedModel(
    name: string, backend: Backend, model: M, prep: Option<M>, features: seq<FeatureRow>)

  /** The path of the descriptor of model `name` under `basePath`. */
  function DescriptorPath(basePath: string, name: string): string {
    basePath + name + ".yaml"
  }

  /** Reads a required descriptor entry. */
  function Required<T>(entry: Option<T>, key: string): (r: Result<T, Error>)
    ensures r.Success? <==> entry.Some?
    ensures r.Success? ==> r.value == entry.value
    ensures r.Failure? ==> r.error == DescriptorKeyMissing(key)
  {
    match entry
    case Some(v) => Success(v)
    case None => Failure(DescriptorKeyMissing(key))
  }

  /** Whether `x` is a directory resolving a model may add to the search path:
      the model's or the declared preprocessor's directory. */
  predicate AddedDirectory<M>(env: Env<M>, descriptor: Option<Descriptor>, x: string) {
    && descriptor.Some?
    && ((descriptor.value.path.Some? && x == env.modelDir(descriptor.value.path.value))
        || (descriptor.value.preprocessor.Some? && x == env.modelDir(descriptor.value.preprocessor.value)))
  }

  /** Resolves model `name`: reads its descriptor, rejects an unsupported type
      naming the type as written, loads the preprocessor when one is declared,
      then the model through its backend's loader, and builds the feature
      table. The search path returned includes the directories added before a
      failure. */
  function GetModel<M>(env: Env<M>, name: string, basePath: string, searchPath: seq<string>): (r: Run<LoadedModel<M>>)
    ensures searchPath <= r.searchPath
    ensures forall x :: x in r.searchPath ==> x in searchPath || AddedDirectory(env, env.readDescriptor(DescriptorPath(basePath, name)), x)
    ensures env.readDescriptor(DescriptorPath(basePath, name)).None? ==>
      r == Run(Failure(DescriptorNotFound), searchPath)
    ensures env.readDescriptor(DescriptorPath(basePath, name)).Some? ==>
      var d := env.readDescriptor(DescriptorPath(basePath, name)).value;
      && (Checked(d).Failure? ==> r == Run(Failure(Checked(d).error), searchPath))
      && (Checked(d).Success? ==>
            var prepLoads := d.preprocessor.None? || env.unpickle(d.preprocessor.value).Success?;
            var load := if Checked(d).value.1 == Sklearn then env.unpickle(d.path.value) else env.loadKeras(d.path.value);
            var sp1 := if d.preprocessor.Some? then AddModelPath(searchPath, env.modelDir(d.preprocessor.value)) else searchPath;
            && (r.outcome.Success? <==> prepLoads && load.Success?)
            && (!prepLoads ==> r.searchPath == sp1)
            && (prepLoads ==> r.searchPath == AddModelPath(sp1, env.modelDir(d.path.value)))
            && (!prepLoads ==> r.outcome == Failure(ArtifactLoadError(env.unpickle(d.preprocessor.value).error)))
            && (prepLoads && load.Failure? ==> r.outcome == Failure(ArtifactLoadError(load.error))))
      && (r.outcome.Success? ==>
            var m := r.outcome.value;
            && d.path.Some? && d.modelType.Some? && d.features.Some?
            && m.name == name
            && Some(m.backend) == ParseBackend(d.modelType.value)
            && (m.backend == Sklearn ==> env.unpickle(d.path.value) == Success(m.model))
            && (m.backend == Keras ==> env.loadKeras(d.path.value) == Success(m.model))
            && (m.prep.Some? <==> d.preprocessor.Some?)
            && (m.prep.Some? ==> env.unpickle(d.preprocessor.value) == Success(m.prep.value)
                                 && env.modelDir(d.preprocessor.value) in r.searchPath)
            && env.modelDir(d.path.value) in r.searchPath
            && m.features == FeatureTable(d.features.value))
  {
    match env.readDescriptor(DescriptorPath(basePath, name))
    case None => Run(Failure(DescriptorNotFound), searchPath)
    case Some(d) =>
      var checked := Checked(d);
      if checked.Failure? then Run(checked.PropagateFailure(), searchPath)
      else
        var (path, backend, features) := checked.value;
        var prepRun := LoadPreprocessor(env, d.preprocessor, searchPath);
        var sp1 := prepRun.searchPath;
        if prepRun.outcome.Failure? then Run(prepRun.outcome.PropagateFailure(), sp1)
        else
          var prep := prepRun.outcome.value;
          var modelRun := if backend == Sklearn then LoadPickled(env, path, sp1) else LoadKeras(env, path, sp1);
          var sp2 := modelRun.searchPath;
          if modelRun.outcome.Failure? then Run(modelRun.outcome.PropagateFailure(), sp2)
          else Run(Success(LoadedModel(name, backend, modelRun.outcome.value, prep, FeatureTable(features))), sp2)
  }

  /** Resolving the same model again, from the search path the first
      resolution left, leaves that search path as it is: each directory is
      added at most once, however often the model is loaded. */
  lemma GetModelPathIdempotent<M>(env: Env<M>, name: string, basePath: string, searchPath: seq<string>)
    ensures var once := GetModel(env, name, basePath, searchPath).searchPath;
      GetModel(env, name, basePath, once).searchPath == once
  {
    var once := GetModel(env, name, basePath, searchPath).searchPath;
    match env.readDescriptor(DescriptorPath(basePath, name))
    case None =>
    case Some(d) =>
      if Checked(d).Success? {
        var path := Checked(d).value.0;
        var sp1 := LoadPreprocessor(env, d.preprocessor, searchPath).searchPath;
        assert sp1 <= once;
        if d.preprocessor.Some? {
          assert env.modelDir(d.preprocessor.value) in sp1;
          var again := LoadPreprocessor(env, d.preprocessor, once).searchPath;
          assert again == once;
        }
        if LoadPreprocessor(env, d.preprocessor, searchPath).outcome.Success? {
          assert env.modelDir(path) in once;
        }
      }
  }

  /** The descriptor's path, backend and features, read in the source's order
      (`path`, `type`, `features`) and checked against the supported types. */
  function Checked(d: Descriptor): (r: Result<(string, Backend, seq<(string, string)>), Error>)
    ensures r.Success? <==> d.path.Some? && d.modelType.Some? && d.features.Some? && ParseBackend(d.modelType.value).Some?
    ensures r.Success? ==> r.value == (d.path.value, ParseBackend(d.modelType.value).value, d.features.value)
    ensures d.path.None? ==> r == Failure(DescriptorKeyMissing("path")) && Message(r.error) == "'path'"
    ensures d.path.Some? && d.modelType.None? ==> r == Failure(DescriptorKeyMissing("type"))
    ensures d.path.Some? && d.modelType.Some? && d.features.None? ==> r == Failure(DescriptorKeyMissing("features"))
    ensures d.path.Some? && d.modelType.Some? && d.features.Some? && ParseBackend(d.modelType.value).None? ==>
      && r == Failure(UnsupportedModelType(d.modelType.value))
      && Message(r.error) == "Unsupported model type: " + d.modelType.value
  {
    var path :- Required(d.path, "path");
    var modelType :- Required(d.modelType, "type");
    var features :- Required(d.features, "features");
    match ParseBackend(modelType)
    case None => Failure(UnsupportedModelType(modelType))
    case Some(b) => Success((path, b, features))
  }
}
