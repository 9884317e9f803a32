/**
 * The federated type signatures that the serialization tests exercise: tensors
 * (a dtype and a shape), sequences, named tuples and functions.
 */
module Types {
  import opened Wrappers

  /** The tensor element types used by the tests; the full dtype enumeration is not modelled. */
  datatype DType = Int32 | Int64 | Float32 | String | Bool

  /** One dimension of a tensor shape: a known size, or undefined (`None`). */
  datatype Dim = Known(size: nat) | Unknown

  datatype Type =
    | Tensor(dtype: DType, shape: seq<Dim>)
    | Sequence(element: Type)
    | NamedTuple(elements: seq<Element>)
    | Function(parameter: Option<Type>, result: Type)

  /** A named-tuple element: an optional name and the element's type. */
  datatype Element = Element(name: Option<string>, value: Type)

  /** A scalar tensor type: a dtype with the empty shape. */
  function Scalar(d: DType): Type
  {
    Tensor(d, [])
  }

  /** Every name given to a tuple element, at any depth, is a non-empty string. */
  predicate WellFormed(t: Type)
    decreases t, 1
  {
    match t
    case Tensor(_, _) => true
    case Sequence(e) => WellFormed(e)
    case NamedTuple(es) => WellFormedElements(es)
    case Function(p, r) => (p.Some? ==> WellFormed(p.value)) && WellFormed(r)
  }

  predicate WellFormedElements(es: seq<Element>)
    decreases es, 0
  {
    es != [] ==> WellFormedElement(es[0]) && WellFormedElements(es[1..])
  }

  predicate WellFormedElement(e: Element)
    decreases e, 2
  {
    (e.name.Some? ==> e.name.value != "") && WellFormed(e.value)
  }
}
