/** Shared vocabulary of the inventory service: the category and unit
    constants, the loosely typed values a request item carries, the error
    kinds the core raises and the results that carry them. */
module Globals {

  /** The category and kilogram constants of the application's enum. */
  const FRUIT: string := "fruit"
  const VEGETABLE: string := "vegetable"
  const KILOGRAMS: string := "kg"

  /** A scalar held by a PHP array: null, a string or a number
      (integers and floats both become `real`). */
  datatype Value = Null | Str(s: string) | Num(n: real)

  /** A PHP associative array such as the item handed to `add`, or the
      document body sent to the search index. */
  type Item = map<string, Value>

  /** Reading `$item[key]`: a missing key reads as null. */
  function Get(item: Item, key: string): (v: Value)
    ensures key !in item ==> v == Null
    ensures key in item ==> v == item[key]
  {
    if key in item then item[key] else Null
  }

  /** PHP's `isset($item[key])`: the key is present and not null. */
  predicate IsSet(item: Item, key: string) {
    Get(item, key) != Null
  }

  /** The two item categories; each owns one repository and one index. */
  datatype Category = Fruit | Vegetable {
    function Name(): (s: string)
      ensures s == FRUIT || s == VEGETABLE
    {
      match this
      case Fruit => FRUIT
      case Vegetable => VEGETABLE
    }
  }

  /** Strict (`===`) recognition of a category name: only the two exact
      lower-case strings are categories; null, numbers, the empty string
      and other spellings are not. */
  function CategoryOf(v: Value): (c: Option<Category>)
    ensures c.Some? ==> v == Str(c.value.Name())
    ensures c.None? ==> v != Str(FRUIT) && v != Str(VEGETABLE)
  {
    if v == Str(FRUIT) then Some(Fruit)
    else if v == Str(VEGETABLE) then Some(Vegetable)
    else None
  }

  /** Naming a category and recognising the name again gives it back,
      and the two categories have different names. */
  lemma CategoryNameRoundTrip(c: Category, d: Category)
    ensures CategoryOf(Str(c.Name())) == Some(c)
    ensures c != d ==> c.Name() != d.Name()
  {
  }

  /** The error kinds of the core.  `Generic` is a plain exception that
      carries only a message; `QuantityTypeError` is the type error PHP
      raises when a non-number is passed where a float is declared. */
  datatype Error =
    | InvalidItem
    | InvalidItemType
    | NoItem
    | Generic(msg: string)
    | NoAliveNodes
    | QuantityTypeError

  /** The message each error carries (the exception classes append an
      empty detail message to their fixed text).  PHP's type error goes
      on to name the type given and the calling file and line; only its
      fixed beginning is kept here. */
  function Message(e: Error): (m: string)
    ensures e.Generic? ==> m == e.msg
    ensures e == NoAliveNodes ==> m == "No alive nodes found in the cluster"
  {
    match e
    case InvalidItem => "Invalid item provided. "
    case InvalidItemType => "Invalid item type provided. "
    case NoItem => "No item found. "
    case Generic(msg) => msg
    case NoAliveNodes => "No alive nodes found in the cluster"
    case QuantityTypeError => "App\\Helper\\UnitConverter::convertToGrams(): Argument #1 ($quantity) must be of type float"
  }

  datatype Option<+T> = None | Some(value: T)

  datatype Result<+T> = Ok(value: T) | Err(error: Error)

  /** The outcome of an operation that returns nothing. */
  datatype Status = Done | Failed(error: Error)
}
