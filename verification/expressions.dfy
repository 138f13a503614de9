/** The slice of a LINQ expression tree that the navigation-path walker looks at,
    and the outcome of walking it.

    Every node carries the full name of its static type (`Expression.Type.FullName`),
    because that name is what an unsupported lambda body is reported with.
    Nodes the walker does not recognise (parameters, constants, binary and unary
    operators, `Convert` and `Quote` wrappers, a null receiver) are all `Other`. */
module Expressions {

  datatype Expr =
      /** `inner.name`: a property or field access. */
    | Member(inner: Expr, name: string, typeName: string)
      /** `obj.methodName(args)`; a static or extension method has `Other` as its object. */
    | Call(obj: Expr, methodName: string, args: seq<Expr>, typeName: string)
      /** `x => body`; the parameter is not needed, it appears in the body as `Other`. */
    | Lambda(body: Expr, typeName: string)
      /** Any other node kind. */
    | Other(typeName: string)

  /** The outcome of a walk: a value, or the `NotSupportedException` raised for a
      lambda whose body is neither a member access nor a method call, carrying the
      full type name of that body. */
  datatype Result<+T> = Ok(value: T) | Unsupported(typeName: string)
}
