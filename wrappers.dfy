/** Option and Result, the two sum types the Rust code returns everywhere. */
module Wrappers {

  datatype Option<+T> = None | Some(value: T)

  datatype Result<+T, +E> = Ok(value: T) | Err(error: E) {

    /** `Result::map_err`: keeps a success, rewraps a failure. */
    function MapErr<E2>(f: E -> E2): (r: Result<T, E2>)
      ensures r.Ok? <==> this.Ok?
      ensures r.Ok? ==> r.value == this.value
      ensures r.Err? ==> r.error == f(this.error)
    {
      match this
      case Ok(v) => Ok(v)
      case Err(e) => Err(f(e))
    }
  }
}
