/** The `Resource` value class of resource.py: a named, typed stock counter
    whose constructor validates its fields, with a guarded decrement, an
    increment, and conversion to and from a flat record dictionary. The
    manager stores its resources with the same four fields.
 */
module Resources {
  import opened Wrappers
  import opened Text
  import opened Numerals

  datatype Resource = Resource(resourceId: string, name: string, rtype: string, quantity: int)

  /** A dictionary value: the record dictionaries hold strings and integers. */
  datatype Field = Str(s: string) | Int(i: int)

  type Record = map<string, Field>

  /** What a successfully constructed resource always satisfies. */
  predicate Valid(r: Resource) {
    && r.resourceId != [] && Trimmed(r.resourceId)
    && r.name != [] && Trimmed(r.name)
    && r.rtype != [] && Trimmed(r.rtype)
    && r.quantity >= 0
  }

  /** A field the constructor's check lets through: a string with
      non-whitespace content. */
  predicate Accepted(v: Field) {
    v.Str? && !AllSpace(v.s)
  }

  /** `if not v.strip(): raise ValueError`, then `v.strip()`. A non-string has
      no `strip` and raises AttributeError. */
  function StripField(v: Field): (r: Result<string>)
    ensures r.Ok? <==> v.Str? && !AllSpace(v.s)
    ensures r.Ok? ==> r.value == Trim(v.s) && r.value != [] && Trimmed(r.value)
    ensures v.Int? ==> r == Fail(AttributeError)
    ensures v.Str? && AllSpace(v.s) ==> r == Fail(ValueError)
  {
    match v
    case Int(_) => Fail(AttributeError)
    case Str(s) => if Trim(s) == [] then Fail(ValueError) else Ok(Trim(s))
  }

  /** `Resource.__init__`: fields are checked in order (id, name, type,
      quantity) and stored stripped; the quantity must be an integer >= 0. */
  function NewResource(resourceId: Field, name: Field, rtype: Field, quantity: Field): (r: Result<Resource>)
    ensures r.Ok? <==>
      && resourceId.Str? && !AllSpace(resourceId.s)
      && name.Str? && !AllSpace(name.s)
      && rtype.Str? && !AllSpace(rtype.s)
      && quantity.Int? && quantity.i >= 0
    ensures r.Ok? ==>
      && Valid(r.value)
      && r.value == Resource(Trim(resourceId.s), Trim(name.s), Trim(rtype.s), quantity.i)
    ensures resourceId.Str? && name.Str? && rtype.Str? && quantity.Int? && r.Fail? ==>
      r.error == ValueError
    // the first field that fails decides the error
    ensures resourceId.Int? ==> r == Fail(AttributeError)
    ensures resourceId.Str? && AllSpace(resourceId.s) ==> r == Fail(ValueError)
    ensures Accepted(resourceId) && name.Int? ==> r == Fail(AttributeError)
    ensures Accepted(resourceId) && name.Str? && AllSpace(name.s) ==> r == Fail(ValueError)
    ensures Accepted(resourceId) && Accepted(name) && rtype.Int? ==> r == Fail(AttributeError)
    ensures Accepted(resourceId) && Accepted(name) && rtype.Str? && AllSpace(rtype.s) ==> r == Fail(ValueError)
    ensures Accepted(resourceId) && Accepted(name) && Accepted(rtype) && (quantity.Str? || quantity.i < 0) ==>
      r == Fail(ValueError)
  {
    var id :- StripField(resourceId);
    var nm :- StripField(name);
    var ty :- StripField(rtype);
    if !quantity.Int? || quantity.i < 0 then Fail(ValueError)
    else Ok(Resource(id, nm, ty, quantity.i))
  }

  /** `is_available`. */
  predicate IsAvailable(r: Resource) {
    r.quantity > 0
  }

  /** Availability follows the stock: a resource can lend a unit exactly
      when it is available, stays available after lending exactly when it
      held two or more, and is available again after any return. */
  lemma AvailabilityTracksStock(r: Resource)
    requires Valid(r)
    ensures IsAvailable(r) <==> BorrowOne(r).1
    ensures BorrowOne(r).1 ==> (IsAvailable(BorrowOne(r).0) <==> r.quantity >= 2)
    ensures IsAvailable(ReturnOne(r))
  {
  }

  /** `borrow_one`: the updated resource and whether a unit was taken. */
  function BorrowOne(r: Resource): (out: (Resource, bool))
    ensures out.1 <==> IsAvailable(r)
    ensures !out.1 ==> out.0 == r
    ensures out.1 ==> out.0 == r.(quantity := r.quantity - 1) && out.0.quantity >= 0
  {
    if r.quantity <= 0 then (r, false) else (r.(quantity := r.quantity - 1), true)
  }

  /** `return_one`. */
  function ReturnOne(r: Resource): (out: Resource)
    ensures out.quantity == r.quantity + 1
    ensures out.(quantity := r.quantity) == r
  {
    r.(quantity := r.quantity + 1)
  }

  /** A successful borrow followed by a return restores the resource; a
      refused borrow changes nothing. */
  lemma BorrowThenReturn(r: Resource)
    ensures BorrowOne(r).1 ==> ReturnOne(BorrowOne(r).0) == r
    ensures !BorrowOne(r).1 ==> BorrowOne(r).0 == r
  {
  }

  /** Borrowing and returning keep a resource valid: the count never goes
      below zero. */
  lemma StockStaysValid(r: Resource)
    requires Valid(r)
    ensures Valid(BorrowOne(r).0)
    ensures Valid(ReturnOne(r))
  {
  }

  /** `to_dict`: the type is stored under the key "type". */
  function ToDict(r: Resource): (d: Record)
    ensures d.Keys == {"resource_id", "name", "type", "quantity"}
    ensures d["resource_id"] == Str(r.resourceId) && d["name"] == Str(r.name)
    ensures d["type"] == Str(r.rtype) && d["quantity"] == Int(r.quantity)
  {
    map["resource_id" := Str(r.resourceId), "name" := Str(r.name),
        "type" := Str(r.rtype), "quantity" := Int(r.quantity)]
  }

  /** Python's `int(v)` for the values a record holds: an integer is itself;
      a string is read as an optionally signed decimal numeral between
      optional whitespace, anything else is a ValueError. */
  function ToInt(v: Field): (r: Result<int>)
    ensures v.Int? ==> r == Ok(v.i)
    ensures r.Fail? ==> r.error == ValueError
  {
    match v
    case Int(i) => Ok(i)
    case Str(s) =>
      var t := Trim(s);
      if IsDigits(t) then Ok(Value(t))
      else if |t| >= 2 && t[0] == '-' && IsDigits(t[1..]) then Ok(-(Value(t[1..]) as int))
      else if |t| >= 2 && t[0] == '+' && IsDigits(t[1..]) then Ok(Value(t[1..]))
      else Fail(ValueError)
  }

  /** `from_dict`: the arguments are read first (a missing key is a KeyError,
      a missing "type" reads as ""), then the constructor validates them. */
  function FromDict(d: Record): (r: Result<Resource>)
    ensures "resource_id" !in d || "name" !in d || "quantity" !in d ==> r == Fail(KeyError)
    ensures "type" !in d ==> r.Fail?
    ensures r.Ok? ==>
      && Valid(r.value)
      && d["resource_id"].Str? && r.value.resourceId == Trim(d["resource_id"].s)
      && d["name"].Str? && r.value.name == Trim(d["name"].s)
      && d["type"].Str? && r.value.rtype == Trim(d["type"].s)
      && ToInt(d["quantity"]) == Ok(r.value.quantity)
  {
    if "resource_id" !in d || "name" !in d then Fail(KeyError)
    else
      var rtype := if "type" in d then d["type"] else Str("");
      if "quantity" !in d then Fail(KeyError)
      else
        var q :- ToInt(d["quantity"]);
        NewResource(d["resource_id"], d["name"], rtype, Int(q))
  }

  /** Converting a valid resource to a dictionary and back gives it back
      unchanged. */
  lemma FromDictToDict(r: Resource)
    requires Valid(r)
    ensures FromDict(ToDict(r)) == Ok(r)
  {
  }

  /** Reading a record normalises it: writing the result and reading again
      gives the same resource. */
  lemma FromDictIdempotent(d: Record)
    requires FromDict(d).Ok?
    ensures FromDict(ToDict(FromDict(d).value)) == FromDict(d)
  {
    FromDictToDict(FromDict(d).value);
  }
}
