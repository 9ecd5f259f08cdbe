/** Execution parameters: the argument string of the request's first row,
    split into the `debug` flag and the typed arguments passed on to the
    miner or the model. */
module Params {
  import opened Wrappers
  import opened Text
  import opened Data
  import opened Tables

  /** `kwargs` is the parsed argument map with `debug` removed; `passOn` is
      that map with its values typed. */
  datatype Params = Params(debug: bool, kwargs: map<string, string>, passOn: map<string, Value>)

  /** The `debug` flag of a parsed argument map: set only when the key is
      present and its value lower-cases to `"true"`. */
  predicate DebugRequested(kw: map<string, string>) {
    "debug" in kw && Lower(kw["debug"]) == "true"
  }

  /** Sets the parameters from the raw argument string. `debug` defaults to
      false and the `debug` key is popped before the rest is typed; an empty
      string yields no arguments at all. */
  function SetParams<M>(env: Env<M>, raw: string): (r: Result<Params, Error>)
    ensures |raw| == 0 ==> r == Success(Params(false, map[], map[]))
    ensures r.Success? ==> "debug" !in r.value.kwargs
    ensures r.Success? && |raw| > 0 ==>
      && env.parseArgs(raw).Success?
      && r.value.kwargs.Keys == env.parseArgs(raw).value.Keys - {"debug"}
      && (forall k :: k in r.value.kwargs ==> r.value.kwargs[k] == env.parseArgs(raw).value[k])
      && env.typeArgs(r.value.kwargs) == Success(r.value.passOn)
    ensures r.Success? ==> (r.value.debug <==> |raw| > 0 && DebugRequested(env.parseArgs(raw).value))
    ensures |raw| > 0 && env.parseArgs(raw).Failure? ==> r == Failure(ArgumentError(env.parseArgs(raw).error))
    ensures |raw| > 0 && env.parseArgs(raw).Success? ==>
      var typed := env.typeArgs(env.parseArgs(raw).value - {"debug"});
      && (r.Success? <==> typed.Success?)
      && (typed.Failure? ==> r == Failure(ArgumentError(typed.error)))
  {
    if |raw| == 0 then Success(Params(false, map[], map[]))
    else
      var kw :- env.parseArgs(raw).MapFailure(d => ArgumentError(d));
      var rest := kw - {"debug"};
      var passOn :- env.typeArgs(rest).MapFailure(d => ArgumentError(d));
      Success(Params(DebugRequested(kw), rest, passOn))
  }

  /** The debug flag, stated without `Lower`: it is on exactly when the
      argument string is non-empty and parses to a `debug` value that spells
      `true` in any mix of upper and lower case. */
  lemma DebugIsCaseInsensitiveTrue<M>(env: Env<M>, raw: string)
    requires SetParams(env, raw).Success?
    ensures SetParams(env, raw).value.debug <==>
      && |raw| > 0
      && "debug" in env.parseArgs(raw).value
      && var v := env.parseArgs(raw).value["debug"];
         |v| == 4 && LowersTo(v[0], 't') && LowersTo(v[1], 'r') && LowersTo(v[2], 'u') && LowersTo(v[3], 'e')
  {
    if |raw| > 0 && "debug" in env.parseArgs(raw).value {
      var v := env.parseArgs(raw).value["debug"];
      LowerEqualsLiteral(v, "true");
    }
  }

  /** The parameters exactly as the source assigns them: when the argument
      string is empty neither the parsed map nor the pass-on map is ever
      assigned, which `None` records. */
  datatype ParamsAsWritten = ParamsAsWritten(
    debug: bool, kwargs: Option<map<string, string>>, passOn: Option<map<string, Value>>)

  function SetParamsAsWritten<M>(env: Env<M>, raw: string): (r: Result<ParamsAsWritten, Error>)
    ensures |raw| == 0 ==> r == Success(ParamsAsWritten(false, None, None))
    ensures |raw| > 0 && r.Success? ==>
      && env.parseArgs(raw).Success?
      && r.value.kwargs == Some(env.parseArgs(raw).value - {"debug"})
      && r.value.passOn.Some?
  {
    if |raw| == 0 then Success(ParamsAsWritten(false, None, None))
    else
      var kw :- env.parseArgs(raw).MapFailure(d => ArgumentError(d));
      var rest := kw - {"debug"};
      var passOn :- env.typeArgs(rest).MapFailure(d => ArgumentError(d));
      Success(ParamsAsWritten(DebugRequested(kw), Some(rest), Some(passOn)))
  }

  /** Reading the pass-on arguments, which raises when they were never set. */
  function PassOnAsWritten(p: ParamsAsWritten): (r: Result<map<string, Value>, Error>)
    ensures r.Failure? <==> p.passOn.None?
    ensures r.Success? ==> r.value == p.passOn.value
  {
    match p.passOn
    case None => Failure(ArgumentsUnset)
    case Some(m) => Success(m)
  }

  /** The source as written fails on a request without arguments: its
      parameters never get a pass-on map, so the first read of it raises,
      while the corrected parameters hold the empty map. */
  lemma EmptyArgumentsAsWritten<M>(env: Env<M>)
    ensures PassOnAsWritten(SetParamsAsWritten(env, "").value) == Failure(ArgumentsUnset)
    ensures SetParams(env, "") == Success(Params(false, map[], map[]))
  {
  }

  /** On a non-empty argument string the corrected parameters and the
      parameters as written agree. */
  lemma AsWrittenAgreesWhenArgumentsGiven<M>(env: Env<M>, raw: string)
    requires |raw| > 0
    ensures SetParams(env, raw).Success? <==> SetParamsAsWritten(env, raw).Success?
    ensures SetParams(env, raw).Success? ==>
      var p := SetParams(env, raw).value;
      SetParamsAsWritten(env, raw).value == ParamsAsWritten(p.debug, Some(p.kwargs), Some(p.passOn))
  {
  }

  /** The first stage of both operations: read the argument string from the
      first row's `kwargs` cell, set the parameters from it and drop the
      `kwargs` column. */
  function Initiate<M>(env: Env<M>, t: Table, headers: seq<string>): (r: Result<(Params, Table), Error>)
    requires IsRequestTable(t, headers) && "kwargs" in headers
    ensures |t.rows| == 0 ==> r == Failure(NoRequestRows)
    ensures |t.rows| > 0 ==>
      var fromCell := SetParams(env, t.rows[0][ColumnIndex(headers, "kwargs")]);
      && (r.Success? <==> fromCell.Success?)
      && (fromCell.Failure? ==> r == Failure(fromCell.error))
    ensures r.Success? ==>
      && |t.rows| > 0
      && SetParams(env, t.rows[0][ColumnIndex(headers, "kwargs")]) == Success(r.value.0)
      && "kwargs" !in r.value.1.header
      && r.value.1 == DropColumn(t, "kwargs")
      && |r.value.1.rows| == |t.rows|
  {
    var raw :- FirstRowCell(t, "kwargs");
    var p :- SetParams(env, raw);
    Success((p, DropColumn(t, "kwargs")))
  }
}
