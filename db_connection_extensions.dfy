/**
 * The extension methods that run one SQL text on a connection: an optional input and an
 * optional output parameter set are merged, a missing command timeout becomes five seconds,
 * and the executor's affected-row count is handed back unchanged.
 *
 * A parameter set is a map from parameter name to value; the absence of a parameter object
 * is `None`.
 */
module DbConnectionExtensions {
  import opened Results
  import opened SqlCommands
  import opened SqlExecution

  type Parameters = map<string, string>

  /** The command timeout used when the caller gives none. */
  const DefaultCommandTimeoutSeconds := 5

  /** The timeout a statement is issued with. */
  function EffectiveTimeout(commandTimeout: Option<int>): (t: int)
    ensures commandTimeout.Some? ==> t == commandTimeout.value
    ensures commandTimeout.None? ==> t == DefaultCommandTimeoutSeconds
  {
    match commandTimeout
    case Some(seconds) => seconds
    case None => DefaultCommandTimeoutSeconds
  }

  /**
   * The parameter set after merging an output parameter set into the input one: without an
   * output set the input is kept, without an input set the output set is used, and with both
   * the result holds the entries of both. Which value a name present in both receives is left
   * open.
   */
  function Combined(param: Option<Parameters>, outParam: Option<Parameters>): (r: Option<Parameters>)
    ensures outParam.None? ==> r == param
    ensures param.None? && outParam.Some? ==> r == outParam
    ensures param.Some? && outParam.Some? ==>
      r.Some? &&
      r.value.Keys == param.value.Keys + outParam.value.Keys &&
      (forall name :: name in param.value && name !in outParam.value ==> r.value[name] == param.value[name]) &&
      (forall name :: name in outParam.value && name !in param.value ==> r.value[name] == outParam.value[name])
  {
    if outParam.None? then param
    else if param.None? then outParam
    else Some(param.value + outParam.value)
  }

  /** Merges the output parameter set into the input one, replacing the input reference. */
  method CombineParameters(param: Option<Parameters>, outParam: Option<Parameters>) returns (combined: Option<Parameters>)
    ensures combined == Combined(param, outParam)
  {
    combined := param;
    if outParam.Some? {
      if combined.Some? {
        var merged := combined.value;
        merged := merged + outParam.value;
        combined := Some(merged);
      } else {
        combined := outParam;
      }
    }
  }

  /** The parameters a statement carries; no parameter object binds nothing. */
  function Bound(param: Option<Parameters>): Parameters {
    if param.Some? then param.value else map[]
  }

  datatype ExecuteError = ArgumentNull | Raised(message: string)

  /**
   * Runs one statement: a missing connection is rejected before anything is issued; otherwise
   * the statement is issued once with the merged parameters and the effective timeout, and
   * the executor's exception or affected-row count is returned as it came.
   */
  method ExecuteSql(connection: Server?, sql: string, param: Option<Parameters>, outParam: Option<Parameters>,
                    commandTimeout: Option<int>) returns (r: Result<int, ExecuteError>)
    modifies connection
    ensures connection == null ==> r == Err(ArgumentNull)
    ensures connection != null ==>
      var cmd := Command(sql, Bound(Combined(param, outParam)), EffectiveTimeout(commandTimeout));
      var response := connection.respond(old(connection.log), cmd);
      connection.log == old(connection.log) + [Entry(cmd, response)] &&
      r == (if response.Failed? then Err(Raised(response.message)) else Ok(response.affected))
  {
    if connection == null {
      return Err(ArgumentNull);
    }
    var combined := CombineParameters(param, outParam);
    var response := connection.Execute(Command(sql, Bound(combined), EffectiveTimeout(commandTimeout)));
    if response.Failed? {
      return Err(Raised(response.message));
    }
    r := Ok(response.affected);
  }
}
