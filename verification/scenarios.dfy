/** The walker on the lambda shapes its callers write. Each shape is stated for any
    member chains, and then on concrete names. */
module Scenarios {
  import opened Expressions
  import opened LinqExtensions

  /** The lambda parameter `x` (or `y`), a node the walker does not recognise. */
  const X: Expr := Other("Customer")
  const Y: Expr := Other("Order")

  function Prop(inner: Expr, name: string): (r: Expr) {
    Member(inner, name, "System.Object")
  }

  function Fn(body: Expr): (r: Expr) {
    Lambda(body, "System.Func`2")
  }

  /** A static extension method such as `Enumerable.Select`: its object is null and
      its receiver is the first argument. */
  function Ext(methodName: string, args: seq<Expr>): (r: Expr) {
    Call(Other("null"), methodName, args, "System.Collections.Generic.IEnumerable`1")
  }

  /** The first argument, a member access, starts the path with its own path. */
  lemma FirstMemberArgument(call: Expr)
    requires call.Call? && 0 < |call.args| && call.args[0].Member?
    ensures ParseArguments(call, 1) == Ok(ParseMember(call.args[0]))
  {
    assert "" + ParseMember(call.args[0]) == ParseMember(call.args[0]);
  }

  /** An unrecognised argument after a non-empty path adds only the separator. */
  lemma OtherArgumentAfterPath(call: Expr, n: nat, acc: string)
    requires call.Call? && 0 < n <= |call.args| && call.args[n - 1].Other?
    requires ParseArguments(call, n - 1) == Ok(acc) && acc != ""
    ensures ParseArguments(call, n) == Ok(acc + ".")
  {
  }

  /** A member argument after a non-empty path adds the separator and its path. */
  lemma MemberArgumentAfterPath(call: Expr, n: nat, acc: string)
    requires call.Call? && 0 < n <= |call.args| && call.args[n - 1].Member?
    requires ParseArguments(call, n - 1) == Ok(acc) && acc != ""
    ensures ParseArguments(call, n) == Ok(acc + "." + ParseMember(call.args[n - 1]))
  {
  }

  /** `x => a.Select(y => b)`: the projection's path follows the source's path. */
  lemma ProjectionPath(a: Expr, b: Expr)
    requires a.Member? && b.Member? && ParseMember(a) != ""
    ensures ParseLambda(Fn(Ext("Select", [a, Fn(b)]))) == Ok(ParseMember(a) + "." + ParseMember(b))
  {
    var call := Ext("Select", [a, Fn(b)]);
    var pa := ParseMember(a);
    assert call.args[0] == a && call.args[1] == Fn(b);
    assert ParseArguments(call, 1) == Ok(pa) by {
      assert "" + pa == pa;
    }
    assert ParseLambda(Fn(b)) == Ok(ParseMember(b));
    assert ParseArguments(call, 2) == Ok(pa + "." + ParseMember(b));
  }

  /** `x => a.Take(5)`: an unrecognised argument after a non-empty path leaves a
      trailing dot. */
  lemma TrailingDot(a: Expr, other: Expr)
    requires a.Member? && other.Other? && ParseMember(a) != ""
    ensures ParseLambda(Fn(Ext("Take", [a, other]))) == Ok(ParseMember(a) + ".")
  {
    var call := Ext("Take", [a, other]);
    var pa := ParseMember(a);
    assert call.args[0] == a && call.args[1] == other;
    assert ParseArguments(call, 1) == Ok(pa) by {
      assert "" + pa == pa;
    }
    assert ParseArguments(call, 2) == Ok(pa + ".");
  }

  /** An unrecognised argument between two member arguments doubles the dot. */
  lemma DoubledDot(a: Expr, other: Expr, b: Expr)
    requires a.Member? && other.Other? && b.Member? && ParseMember(a) != ""
    ensures ParseMethodCall(Ext("M", [a, other, b])) == Ok(ParseMember(a) + ".." + ParseMember(b))
  {
    var call := Ext("M", [a, other, b]);
    var pa, pb := ParseMember(a), ParseMember(b);
    assert call.args[0] == a && call.args[1] == other && call.args[2] == b;
    FirstMemberArgument(call);
    OtherArgumentAfterPath(call, 2, pa);
    MemberArgumentAfterPath(call, 3, pa + ".");
    assert (pa + ".") + "." + pb == pa + ".." + pb;
  }

  /** One more link on a chain with a non-empty path adds "." and the name. */
  lemma ExtendChain(m: Expr, name: string, typeName: string)
    requires m.Member? && ParseMember(m) != ""
    ensures ParseMember(Member(m, name, typeName)) == ParseMember(m) + "." + name
  {
  }

  /** `x => x.Foo`. */
  lemma SingleMember()
    ensures ParseLambda(Fn(Prop(X, "Foo"))) == Ok("Foo")
  {
  }

  /** `x => x.Foo.Bar.Baz`. */
  lemma MemberChain()
    ensures ParseLambda(Fn(Prop(Prop(Prop(X, "Foo"), "Bar"), "Baz"))) == Ok("Foo.Bar.Baz")
  {
    ExtendChain(Prop(X, "Foo"), "Bar", "System.Object");
    assert "Foo" + "." + "Bar" == "Foo.Bar";
    ExtendChain(Prop(Prop(X, "Foo"), "Bar"), "Baz", "System.Object");
    assert "Foo.Bar" + "." + "Baz" == "Foo.Bar.Baz";
  }

  /** `x => x.Foo.Select(y => y.Bar)` and `x => x.Foo.Select(y => y.Bar.Baz)`. */
  lemma SelectProjection()
    ensures ParseLambda(Fn(Ext("Select", [Prop(X, "Foo"), Fn(Prop(Y, "Bar"))]))) == Ok("Foo.Bar")
    ensures ParseLambda(Fn(Ext("Select", [Prop(X, "Foo"), Fn(Prop(Prop(Y, "Bar"), "Baz"))]))) == Ok("Foo.Bar.Baz")
  {
    ProjectionPath(Prop(X, "Foo"), Prop(Y, "Bar"));
    assert "Foo" + "." + "Bar" == "Foo.Bar";
    ExtendChain(Prop(Y, "Bar"), "Baz", "System.Object");
    assert "Bar" + "." + "Baz" == "Bar.Baz";
    ProjectionPath(Prop(X, "Foo"), Prop(Prop(Y, "Bar"), "Baz"));
    assert "Foo" + "." + "Bar.Baz" == "Foo.Bar.Baz";
  }

  /** `x => x.Items.Take(5)` gives "Items." and `[A, 5, B]` gives "A..B". */
  lemma StrayDots()
    ensures ParseLambda(Fn(Ext("Take", [Prop(X, "Items"), Other("System.Int32")]))) == Ok("Items.")
    ensures ParseMethodCall(Ext("M", [Prop(X, "A"), Other("System.Int32"), Prop(X, "B")])) == Ok("A..B")
  {
    TrailingDot(Prop(X, "Items"), Other("System.Int32"));
    assert "Items" + "." == "Items.";
    DoubledDot(Prop(X, "A"), Other("System.Int32"), Prop(X, "B"));
    assert "A" + ".." + "B" == "A..B";
  }

  /** `x => x.Foo.First().Bar`: the path below the call is dropped. */
  lemma MemberOfCallDropsPrefix()
    ensures ParseLambda(Fn(Prop(Ext("First", [Prop(X, "Foo")]), "Bar"))) == Ok("Bar")
  {
  }

  /** Bodies the walker rejects, each reported with the rejected body's own type:
      - `x => x.Count() > 0` as an include lambda: its body is the comparison boxed to
        `object` by a `Convert` node, so the failure names "System.Object";
      - `o => o.Total > 5` met as a lambda argument: its body is the comparison itself,
        so the failure names "System.Boolean";
      - a lambda whose body is itself a lambda node: the inner lambda's type. */
  lemma UnsupportedBodies()
    ensures ParseLambda(Fn(Other("System.Object"))) == Unsupported("System.Object")
    ensures ParseLambda(Fn(Other("System.Boolean"))) == Unsupported("System.Boolean")
    ensures ParseLambda(Fn(Fn(Prop(X, "Foo")))) == Unsupported("System.Func`2")
  {
  }

  /** `x => x.Orders.Select(o => o.Total > 5)`: the failing lambda argument fails the
      whole walk; `x => x.Orders.Take(5)` does not fail. */
  lemma FailureInsideCall()
    ensures ParseLambda(Fn(Ext("Select", [Prop(X, "Orders"), Fn(Other("System.Boolean"))])))
         == Unsupported("System.Boolean")
    ensures ParseLambda(Fn(Ext("Take", [Prop(X, "Orders"), Other("System.Int32")]))).Ok?
  {
    var call := Ext("Select", [Prop(X, "Orders"), Fn(Other("System.Boolean"))]);
    assert call.args[1] == Fn(Other("System.Boolean"));
    assert ParseArguments(call, 1).Ok?;
    assert ParseArguments(call, 2) == Unsupported("System.Boolean");
  }
}
