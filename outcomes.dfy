/** Option and Result, the failure-carrying values used in place of Python's
    `None` and of the exceptions the tool raises, and the property
    dictionary every input format produces per molecule. */
module Outcomes {

  datatype Option<+T> = None | Some(value: T)

  datatype Result<+T, +E> = Success(value: T) | Failure(error: E)

  /** One molecule's properties: property name to value. */
  type Props = map<string, string>

  /** `d.get(k)` on a Python dict: the value, or `None` when the key is absent. */
  function Get<K, V>(m: map<K, V>, k: K): (r: Option<V>)
    ensures r.Some? <==> k in m
    ensures r.Some? ==> r.value == m[k]
  {
    if k in m then Some(m[k]) else None
  }
}
