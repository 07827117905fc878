/**
 * App/Lib/Controller.php: the base class of every controller. Its
 * constructor is empty on purpose, so creating a controller does not run
 * Core's dispatching constructor again; page404 is the one decision it makes.
 */
module BaseController {
  import opened Php

  /** What page404 does to the request. */
  datatype NotFound =
    | Continue                                                  // $dato is present: nothing happens
    | NotFoundAndStop                                           // http_response_code(404); die
    | RenderAndStop(view: string, title: string, message: string, trouble: string)  // view(...) . die()

  /**
   * The guard `empty($dato) || is_null($dato) || $dato == ""` as written;
   * the later two tests are subsumed by empty() (EmptyGuardIsEmpty).
   */
  predicate MissingRecord(dato: Value) {
    Empty(dato) || dato.Null? || LooselyEqualsEmptyString(dato)
  }

  /** The guard is exactly PHP's empty(). */
  lemma EmptyGuardIsEmpty(dato: Value)
    ensures MissingRecord(dato) <==> Empty(dato)
  {
    match dato
    case Str(s) =>
      assert s == "" ==> Empty(dato);
    case _ =>
  }

  /** Every falsy value PHP knows reaches the 404 path. */
  lemma FalsyValuesAreMissing()
    ensures MissingRecord(Null) && MissingRecord(Str("")) && MissingRecord(Str("0"))
    ensures MissingRecord(Int(0)) && MissingRecord(Bool(false)) && MissingRecord(Array([]))
    ensures !MissingRecord(Str("00")) && !MissingRecord(Int(-1)) && !MissingRecord(Array([Null]))
  {
  }

  /**
   * page404($dato): nothing for a present record; for a missing one, a POST
   * gets a bare 404 and any other method the AdminPages.404 view, and both
   * end the request.
   */
  function Page404(dato: Value, requestMethod: string): (r: NotFound)
    ensures r == Continue <==> !Empty(dato)
    ensures r == NotFoundAndStop <==> Empty(dato) && requestMethod == "POST"
    ensures r.RenderAndStop? ==>
      r == RenderAndStop("AdminPages.404", "Oops", "Este registro no existe", "Registro inexistente")
  {
    EmptyGuardIsEmpty(dato);
    if MissingRecord(dato) then
      if requestMethod == "POST" then NotFoundAndStop
      else RenderAndStop("AdminPages.404", "Oops", "Este registro no existe", "Registro inexistente")
    else Continue
  }
}
