/**
 * The two kinds of computation message the identity-lambda helper builds: a
 * reference to a named value and a lambda. Each carries its serialized type.
 */
module IdentityLambda {
  import opened Wrappers
  import opened Types
  import opened TypeSerialization

  datatype Computation = Computation(typeSig: WireType, body: Body)

  datatype Body =
    | Reference(name: string)
    | Lambda(parameterName: string, result: Computation)

  /** `type_factory.unary_op`: the type of a function from `t` to `t`. */
  function UnaryOp(t: Type): (f: Type)
    ensures WellFormed(f) <==> WellFormed(t)
  {
    Function(Some(t), t)
  }

  /**
   * A computation is well typed in an environment of named types when every
   * reference names a bound parameter of the type it claims, and every lambda
   * has a function type whose parameter type is bound to the lambda's
   * parameter in the body and whose result type is the body's type.
   */
  ghost predicate WellTyped(c: Computation, env: map<string, WireType>)
    decreases c
  {
    match c.body
    case Reference(n) => n in env && env[n] == c.typeSig
    case Lambda(p, r) =>
      c.typeSig.WireFunction? && c.typeSig.result == r.typeSig &&
      WellTyped(r, if c.typeSig.parameter.Some? then env[p := c.typeSig.parameter.value] else env)
  }

  /** `create_dummy_identity_lambda_computation`: the lambda `(a -> a)` over `t`, by default `int32`. */
  function DummyIdentityLambda(t: Type := Scalar(Int32)): (c: Computation)
    ensures c.body.Lambda? && c.body.result.body.Reference?
    ensures c.body.result.body.name == c.body.parameterName == "a"
    ensures WellTyped(c, map[])
    ensures WellFormed(t) ==>
      Deserialize(c.typeSig) == Ok(UnaryOp(t)) && Deserialize(c.body.result.typeSig) == Ok(t)
  {
    assert WellFormed(t) ==>
      Deserialize(Serialize(UnaryOp(t))) == Ok(UnaryOp(t)) && Deserialize(Serialize(t)) == Ok(t) by {
      if WellFormed(t) {
        RoundTrip(t);
        RoundTrip(UnaryOp(t));
      }
    }
    var result := Computation(Serialize(t), Reference("a"));
    Computation(Serialize(UnaryOp(t)), Lambda("a", result))
  }
}
