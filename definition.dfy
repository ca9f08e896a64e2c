/** `model_definition`: the document count and vocabulary size of a corpus. */
module Definition {

  datatype ModelDefinition = ModelDefinition(n: nat, v: nat)

  datatype Result<T> = Ok(value: T) | Err(message: string)

  /**
   * The constructor's two checks: no documents is refused with "no docs",
   * otherwise an empty vocabulary with "no terms".
   */
  function NewModelDefinition(n: nat, v: nat): (r: Result<ModelDefinition>)
    ensures r.Ok? <==> n > 0 && v > 0
    ensures r.Ok? ==> r.value.n == n && r.value.v == v
    ensures n == 0 ==> r == Err("no docs")
    ensures n > 0 && v == 0 ==> r == Err("no terms")
  {
    if n == 0 then Err("no docs")
    else if v == 0 then Err("no terms")
    else Ok(ModelDefinition(n, v))
  }
}
