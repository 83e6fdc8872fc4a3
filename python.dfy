/** The small part of Python's runtime that the user store relies on: the
    values a decoded request body can hold, a mutable dictionary passed by
    reference, and the binding of keyword arguments (`f(**data)`) to the
    parameters of a constructor. */
module Python {

  /** A value carried by a request body. The store never inspects these
      except for the integer it writes as an id. */
  datatype Value =
    | Null
    | Bool(b: bool)
    | Int(i: int)
    | Str(s: string)
    | List(items: seq<Value>)
    | Object(fields: map<string, Value>)

  datatype Result<+T, +E> = Ok(value: T) | Err(error: E)

  /** The outcome of a call that returns nothing or raises. */
  datatype Outcome<+E> = Pass | Fail(error: E)

  /** The `TypeError`s raised when keyword arguments do not match a
      parameter list. CPython checks for unknown keywords first and for
      missing parameters afterwards. */
  datatype BindError =
    | UnexpectedKeywords(names: set<string>)
    | MissingArguments(names: set<string>)

  /** A dictionary owned by the caller and updated in place. */
  class Dict {
    var items: map<string, Value>

    constructor (items: map<string, Value>)
      ensures this.items == items
    {
      this.items := items;
    }

    /** `d[key] = v` */
    method SetItem(key: string, v: Value)
      modifies this
      ensures items == old(items)[key := v]
    {
      items := items[key := v];
    }
  }

  /** The parameter names as a set. */
  function Names(params: seq<string>): set<string>
  {
    set p | p in params
  }

  /** The argument values of `params`, in parameter order, taken from a
      dictionary that supplies every one of them. */
  function Collect(params: seq<string>, kwargs: map<string, Value>): (args: seq<Value>)
    requires forall p :: p in params ==> p in kwargs
    ensures |args| == |params|
    ensures forall i :: 0 <= i < |params| ==> args[i] == kwargs[params[i]]
  {
    if params == [] then [] else [kwargs[params[0]]] + Collect(params[1..], kwargs)
  }

  /** Binds `f(**kwargs)` to the parameter list `params` of `f`: every
      parameter must be given exactly once and no other keyword may be
      present. The arguments come back in parameter order. */
  function BindArguments(params: seq<string>, kwargs: map<string, Value>): (r: Result<seq<Value>, BindError>)
    ensures r.Ok? <==> kwargs.Keys == Names(params)
    ensures r.Ok? ==> |r.value| == |params| && forall i :: 0 <= i < |params| ==> r.value[i] == kwargs[params[i]]
    ensures r.Err? && r.error.UnexpectedKeywords? ==> r.error.names == kwargs.Keys - Names(params) != {}
    ensures r.Err? && r.error.MissingArguments? ==>
              kwargs.Keys <= Names(params) && r.error.names == Names(params) - kwargs.Keys != {}
  {
    var expected := Names(params);
    if !(kwargs.Keys <= expected) then
      var extra :| extra in kwargs.Keys && extra !in expected;
      assert extra in kwargs.Keys - expected;
      Err(UnexpectedKeywords(kwargs.Keys - expected))
    else if kwargs.Keys != expected then
      var absent :| absent in expected && absent !in kwargs.Keys;
      assert absent in expected - kwargs.Keys;
      Err(MissingArguments(expected - kwargs.Keys))
    else
      Ok(Collect(params, kwargs))
  }
}
