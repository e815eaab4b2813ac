/** Failure-carrying datatypes shared by every module of the model.

    PHP exceptions raised by the framework (most of them through `Log::exception`,
    which writes a log line and then always throws) become `Err` values, so that
    every operation of the model is a total function. */
module Wrappers {

  datatype Option<+T> = None | Some(value: T) {
    function GetOr(default: T): T {
      match this
      case Some(v) => v
      case None => default
    }
  }

  /** The kinds of exception the modelled code raises. */
  datatype Thrown =
    | InvalidOperator(operator: string)       // QueryBuilder::validateOperator
    | ConnectionNotInitialized                // DB::getConnection / getQueryBuilderInstance
    | DeleteWithoutTable                      // QueryBuilder::delete guard
    | DeleteWithoutWhere                      // QueryBuilder::delete guard
    | UndefinedMethod(name: string)           // Models::__callStatic on an unknown method
    | ServiceNotFound(key: string)            // Container::get of an unknown key
    | RouteNotFound(httpMethod: string, path: string)  // Router::resolve, HTTP 404
    | EnvFileNotFound(path: string)           // load_env without a .env file

  datatype Result<+T> = Ok(value: T) | Err(thrown: Thrown) {
    predicate IsFailure() {
      Err?
    }

    function PropagateFailure<U>(): Result<U>
      requires Err?
    {
      Err(thrown)
    }

    function Extract(): T
      requires Ok?
    {
      value
    }
  }
}
