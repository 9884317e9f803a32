/**
 * The wire encoding of type signatures that the serialization tests pin down,
 * and its inverse. A wire type is the structure of the protocol message (its
 * oneof variants and fields), not its text rendering.
 */
module TypeSerialization {
  import opened Wrappers
  import opened Types

  /** The protocol message for a type: one of its four variants is set. */
  datatype WireType =
    | WireTensor(dtype: DType, dims: seq<int>)
    | WireSequence(element: WireType)
    | WireTuple(elements: seq<WireElement>)
    | WireFunction(parameter: Option<WireType>, result: WireType)

  /** A tuple element on the wire; the string field `name` is empty when the element has no name. */
  datatype WireElement = WireElement(name: string, value: WireType)

  /** The size written for a dimension whose size is undefined. */
  const UnknownSize: int := -1

  /** A dimension is written as its size, or as `UnknownSize` when its size is undefined. */
  function EncodeDim(d: Dim): (n: int)
    ensures n >= UnknownSize
    ensures n == UnknownSize <==> d.Unknown?
    ensures d.Known? ==> n == d.size
    ensures DecodeDim(n) == Ok(d)
  {
    match d
    case Known(size) => size
    case Unknown => UnknownSize
  }

  /** A tensor shape is written as one dimension size per entry, in order. */
  function EncodeShape(shape: seq<Dim>): (dims: seq<int>)
    ensures |dims| == |shape|
    ensures forall i :: 0 <= i < |shape| ==>
      dims[i] == (if shape[i].Unknown? then UnknownSize else shape[i].size)
  {
    if shape == [] then [] else [EncodeDim(shape[0])] + EncodeShape(shape[1..])
  }

  /** A size is read back as a known size when it is not negative, as undefined when it is `UnknownSize`. */
  function DecodeDim(n: int): (r: Result<Dim>)
    ensures r.Ok? <==> n >= UnknownSize
    ensures n == UnknownSize ==> r == Ok(Unknown)
    ensures n >= 0 ==> r == Ok(Known(n))
  {
    if n == UnknownSize then Ok(Unknown)
    else if n >= 0 then Ok(Known(n))
    else Err("negative dimension size")
  }

  /** A shape is read back size by size, in order, and fails when any size fails. */
  function DecodeShape(dims: seq<int>): (r: Result<seq<Dim>>)
    ensures r.Ok? ==> |r.value| == |dims|
    ensures r.Ok? ==> forall i :: 0 <= i < |dims| ==> DecodeDim(dims[i]) == Ok(r.value[i])
    ensures (forall i :: 0 <= i < |dims| ==> DecodeDim(dims[i]).Ok?) ==> r.Ok?
  {
    if dims == [] then Ok([])
    else
      var d :- DecodeDim(dims[0]);
      var rest :- DecodeShape(dims[1..]);
      Ok([d] + rest)
  }

  /** A name on the wire: the name itself, or the empty string for an unnamed element. */
  function EncodeName(name: Option<string>): (s: string)
    ensures s == "" <==> name.None? || name == Some("")
  {
    match name
    case Some(n) => n
    case None => ""
  }

  /** The empty name reads back as no name; any other name reads back as itself. */
  function DecodeName(s: string): (name: Option<string>)
    ensures name.Some? ==> name.value != ""
    ensures EncodeName(name) == s
  {
    if s == "" then None else Some(s)
  }

  /** `serialize_type`: every message it writes is one that can be read back. */
  function Serialize(t: Type): (w: WireType)
    ensures ValidWire(w)
    decreases t, 1
  {
    match t
    case Tensor(d, shape) => WireTensor(d, EncodeShape(shape))
    case Sequence(e) => WireSequence(Serialize(e))
    case NamedTuple(es) => WireTuple(SerializeElements(es))
    case Function(None, r) => WireFunction(None, Serialize(r))
    case Function(Some(p), r) => WireFunction(Some(Serialize(p)), Serialize(r))
  }

  /** Tuple elements are written in order, each with its name when it has one. */
  function SerializeElements(es: seq<Element>): (ws: seq<WireElement>)
    ensures |ws| == |es|
    ensures forall i :: 0 <= i < |es| ==> ws[i] == SerializeElement(es[i])
    ensures ValidWireElements(ws)
    decreases es, 0
  {
    if es == [] then [] else [SerializeElement(es[0])] + SerializeElements(es[1..])
  }

  /** An element's name reads back as written, except that the empty name reads back as no name. */
  function SerializeElement(e: Element): (w: WireElement)
    ensures DecodeName(w.name) == (if e.name == Some("") then None else e.name)
    ensures ValidWire(w.value)
    decreases e, 2
  {
    WireElement(EncodeName(e.name), Serialize(e.value))
  }

  /** `deserialize_type`: whatever it reads back is a well-formed type. */
  function Deserialize(w: WireType): (r: Result<Type>)
    ensures r.Ok? ==> WellFormed(r.value)
    decreases w, 1
  {
    match w
    case WireTensor(d, dims) =>
      var shape :- DecodeShape(dims);
      Ok(Tensor(d, shape))
    case WireSequence(e) =>
      var et :- Deserialize(e);
      Ok(Sequence(et))
    case WireTuple(ws) =>
      var es :- DeserializeElements(ws);
      Ok(NamedTuple(es))
    case WireFunction(None, r) =>
      var rt :- Deserialize(r);
      Ok(Function(None, rt))
    case WireFunction(Some(p), r) =>
      var pt :- Deserialize(p);
      var rt :- Deserialize(r);
      Ok(Function(Some(pt), rt))
  }

  function DeserializeElements(ws: seq<WireElement>): (r: Result<seq<Element>>)
    ensures r.Ok? ==> |r.value| == |ws| && WellFormedElements(r.value)
    decreases ws, 0
  {
    if ws == [] then Ok([])
    else
      var e :- DeserializeElement(ws[0]);
      var rest :- DeserializeElements(ws[1..]);
      Ok([e] + rest)
  }

  function DeserializeElement(w: WireElement): (r: Result<Element>)
    ensures r.Ok? ==> r.value.name == DecodeName(w.name) && WellFormedElement(r.value)
    decreases w, 2
  {
    var v :- Deserialize(w.value);
    Ok(Element(DecodeName(w.name), v))
  }

  /** Every dimension size in the message, at any depth, is a size or the undefined marker. */
  predicate ValidWire(w: WireType)
    decreases w, 1
  {
    match w
    case WireTensor(_, dims) => forall i :: 0 <= i < |dims| ==> dims[i] >= UnknownSize
    case WireSequence(e) => ValidWire(e)
    case WireTuple(ws) => ValidWireElements(ws)
    case WireFunction(p, r) => (p.Some? ==> ValidWire(p.value)) && ValidWire(r)
  }

  predicate ValidWireElements(ws: seq<WireElement>)
    decreases ws, 0
  {
    ws != [] ==> ValidWire(ws[0].value) && ValidWireElements(ws[1..])
  }

  // ---------------------------------------------------------------------------
  // Round trip: deserializing a serialized type gives back the same type.
  // ---------------------------------------------------------------------------

  lemma {:induction false} ShapeRoundTrip(shape: seq<Dim>)
    ensures DecodeShape(EncodeShape(shape)) == Ok(shape)
  {
    if shape != [] {
      ShapeRoundTrip(shape[1..]);
      assert EncodeShape(shape)[1..] == EncodeShape(shape[1..]);
      assert [shape[0]] + shape[1..] == shape;
    }
  }

  lemma {:induction false} RoundTrip(t: Type)
    requires WellFormed(t)
    ensures Deserialize(Serialize(t)) == Ok(t)
    decreases t, 1
  {
    match t
    case Tensor(d, shape) => ShapeRoundTrip(shape);
    case Sequence(e) => RoundTrip(e);
    case NamedTuple(es) => ElementsRoundTrip(es);
    case Function(None, r) => RoundTrip(r);
    case Function(Some(p), r) => RoundTrip(p); RoundTrip(r);
  }

  lemma {:induction false} ElementsRoundTrip(es: seq<Element>)
    requires WellFormedElements(es)
    ensures DeserializeElements(SerializeElements(es)) == Ok(es)
    decreases es, 0
  {
    if es != [] {
      ElementRoundTrip(es[0]);
      ElementsRoundTrip(es[1..]);
      assert SerializeElements(es)[1..] == SerializeElements(es[1..]);
      assert [es[0]] + es[1..] == es;
    }
  }

  lemma {:induction false} ElementRoundTrip(e: Element)
    requires WellFormedElement(e)
    ensures DeserializeElement(SerializeElement(e)) == Ok(e)
    decreases e, 2
  {
    RoundTrip(e.value);
  }

  /**
   * The round trip of the tests: serialize, deserialize and serialize again;
   * the type comes back structurally equal and the second message is identical
   * to the first.
   */
  lemma Reserialize(t: Type)
    requires WellFormed(t)
    ensures Deserialize(Serialize(t)).Ok?
    ensures Deserialize(Serialize(t)).value == t
    ensures Serialize(Deserialize(Serialize(t)).value) == Serialize(t)
  {
    RoundTrip(t);
  }

  // ---------------------------------------------------------------------------
  // The other direction: a message that deserializes is re-created exactly.
  // ---------------------------------------------------------------------------

  lemma {:induction false} ShapeWireRoundTrip(dims: seq<int>)
    ensures DecodeShape(dims).Ok? <==> forall i :: 0 <= i < |dims| ==> dims[i] >= UnknownSize
    ensures DecodeShape(dims).Ok? ==> EncodeShape(DecodeShape(dims).value) == dims
  {
    if dims != [] {
      ShapeWireRoundTrip(dims[1..]);
      if DecodeShape(dims).Ok? {
        var shape := DecodeShape(dims).value;
        assert shape[1..] == DecodeShape(dims[1..]).value;
        assert EncodeShape(shape) == [EncodeDim(shape[0])] + EncodeShape(shape[1..]);
        assert [dims[0]] + dims[1..] == dims;
      } else if DecodeDim(dims[0]).Ok? {
        assert !DecodeShape(dims[1..]).Ok?;
        var i :| 0 <= i < |dims[1..]| && dims[1..][i] < UnknownSize;
        assert dims[i + 1] < UnknownSize;
      }
    }
  }

  lemma {:induction false} WireRoundTrip(w: WireType)
    ensures Deserialize(w).Ok? <==> ValidWire(w)
    ensures Deserialize(w).Ok? ==>
      WellFormed(Deserialize(w).value) && Serialize(Deserialize(w).value) == w
    decreases w, 1
  {
    match w
    case WireTensor(d, dims) => ShapeWireRoundTrip(dims);
    case WireSequence(e) => WireRoundTrip(e);
    case WireTuple(ws) => WireElementsRoundTrip(ws);
    case WireFunction(None, r) => WireRoundTrip(r);
    case WireFunction(Some(p), r) => WireRoundTrip(p); WireRoundTrip(r);
  }

  lemma {:induction false} WireElementsRoundTrip(ws: seq<WireElement>)
    ensures DeserializeElements(ws).Ok? <==> ValidWireElements(ws)
    ensures DeserializeElements(ws).Ok? ==>
      WellFormedElements(DeserializeElements(ws).value) &&
      SerializeElements(DeserializeElements(ws).value) == ws
    decreases ws, 0
  {
    if ws != [] {
      assert ws[0] in ws;
      WireRoundTrip(ws[0].value);
      WireElementsRoundTrip(ws[1..]);
      if DeserializeElements(ws).Ok? {
        var es := DeserializeElements(ws).value;
        assert es[1..] == DeserializeElements(ws[1..]).value;
        assert SerializeElements(es) == [SerializeElement(es[0])] + SerializeElements(es[1..]);
        assert [ws[0]] + ws[1..] == ws;
      }
    }
  }

  // ---------------------------------------------------------------------------
  // What the encoding writes.
  // ---------------------------------------------------------------------------

  /** A tuple is written element by element, in order; a name is written exactly for the named elements. */
  lemma {:induction false} TupleEncoding(es: seq<Element>)
    requires WellFormedElements(es)
    ensures Serialize(NamedTuple(es)).WireTuple?
    ensures |Serialize(NamedTuple(es)).elements| == |es|
    ensures forall i :: 0 <= i < |es| ==>
      Serialize(NamedTuple(es)).elements[i].value == Serialize(es[i].value) &&
      (Serialize(NamedTuple(es)).elements[i].name != "" <==> es[i].name.Some?)
  {
    forall i | 0 <= i < |es|
      ensures Serialize(NamedTuple(es)).elements[i].name != "" <==> es[i].name.Some?
    {
      WellFormedAt(es, i);
    }
  }

  lemma {:induction false} WellFormedAt(es: seq<Element>, i: nat)
    requires WellFormedElements(es) && i < |es|
    ensures WellFormedElement(es[i])
  {
    if i > 0 {
      WellFormedAt(es[1..], i - 1);
      assert es[1..][i - 1] == es[i];
    }
  }

  /**
   * An element named with the empty string cannot be told apart on the wire
   * from an unnamed one, so it comes back unnamed: the round trip needs the
   * names to be non-empty.
   */
  lemma EmptyNameIsDropped()
    ensures Serialize(NamedTuple([Element(Some(""), Scalar(Int32))]))
         == Serialize(NamedTuple([Element(None, Scalar(Int32))]))
    ensures Deserialize(Serialize(NamedTuple([Element(Some(""), Scalar(Int32))])))
         == Ok(NamedTuple([Element(None, Scalar(Int32))]))
  {
    RoundTrip(NamedTuple([Element(None, Scalar(Int32))]));
  }

  // The messages the serialization tests expect for their example types.

  lemma TensorVectors()
    ensures Serialize(Scalar(Int32)) == WireTensor(Int32, [])
    ensures Serialize(Tensor(Int32, [Known(10), Known(20)])) == WireTensor(Int32, [10, 20])
    ensures Serialize(Tensor(Int32, [Unknown])) == WireTensor(Int32, [-1])
  {
  }

  lemma SequenceVector()
    ensures Serialize(Sequence(Scalar(String))) == WireSequence(WireTensor(String, []))
  {
  }

  lemma TupleVector()
    ensures Serialize(NamedTuple([Element(Some("x"), Scalar(Int32)), Element(Some("y"), Scalar(String)),
                                  Element(None, Scalar(Float32)), Element(Some("z"), Scalar(Bool))]))
         == WireTuple([WireElement("x", WireTensor(Int32, [])), WireElement("y", WireTensor(String, [])),
                       WireElement("", WireTensor(Float32, [])), WireElement("z", WireTensor(Bool, []))])
  {
  }

  lemma NestedTupleVector()
    ensures Serialize(NamedTuple([Element(Some("x"), NamedTuple([Element(Some("y"),
                        NamedTuple([Element(Some("z"), Scalar(Bool))]))]))]))
         == WireTuple([WireElement("x", WireTuple([WireElement("y",
              WireTuple([WireElement("z", WireTensor(Bool, []))]))]))])
  {
    var z := NamedTuple([Element(Some("z"), Scalar(Bool))]);
    assert Serialize(z) == WireTuple([WireElement("z", WireTensor(Bool, []))]);
    var y := NamedTuple([Element(Some("y"), z)]);
    assert Serialize(y) == WireTuple([WireElement("y", Serialize(z))]);
  }

  lemma FunctionVector()
    ensures Serialize(Function(Some(NamedTuple([Element(None, Scalar(Int32)), Element(None, Scalar(Int32))])),
                               Scalar(Bool)))
         == WireFunction(Some(WireTuple([WireElement("", WireTensor(Int32, [])),
                                         WireElement("", WireTensor(Int32, []))])),
                         WireTensor(Bool, []))
  {
    var pair := NamedTuple([Element(None, Scalar(Int32)), Element(None, Scalar(Int32))]);
    assert Serialize(pair) == WireTuple([WireElement("", WireTensor(Int32, [])), WireElement("", WireTensor(Int32, []))]);
  }

  /**
   * `( -> bool)`: a function without a parameter is written with the parameter
   * field unset, and reads back as a function without a parameter.
   */
  lemma NoParameterFunctionRoundTrip()
    ensures Serialize(Function(None, Scalar(Bool))) == WireFunction(None, WireTensor(Bool, []))
    ensures Deserialize(WireFunction(None, WireTensor(Bool, []))) == Ok(Function(None, Scalar(Bool)))
  {
    assert DecodeShape([]) == Ok([]);
  }
}
