/** Optional values and results with an error, used wherever the Python code
    returns None or raises an exception. */
module Results {

  datatype Option<+T> = None | Some(value: T)

  datatype Result<+T, +E> = Ok(value: T) | Err(error: E)

  /** The head of a queue, if there is one. */
  function First<T>(q: seq<T>): (r: Option<T>)
    ensures r.Some? <==> |q| > 0
    ensures r.Some? ==> r.value == q[0]
  {
    if |q| == 0 then None else Some(q[0])
  }

  /** The queue once its head, if any, is taken off. */
  function Rest<T>(q: seq<T>): (r: seq<T>)
    ensures |q| > 0 ==> [q[0]] + r == q
    ensures |q| == 0 ==> r == []
  {
    if |q| == 0 then [] else q[1..]
  }
}
