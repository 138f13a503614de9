/** The navigation-path walker of `LinqExtensions`: a lambda such as
    `x => x.Orders.Select(o => o.Items)` becomes the include path "Orders.Items".

    The three walkers are mutually recursive. Their `requires` clauses stand for the
    static parameter types of the source (`LambdaExpression`, `MemberExpression`,
    `MethodCallExpression`). Each `decreases` tuple starts with the node, so the
    walk terminates because every call goes to a sub-node, or to a later stage of
    the same node. */
module LinqExtensions {
  import opened Expressions
  import opened Paths

  /** The path of a lambda: its body's path when the body is a member access or a
      method call, and a failure naming the body's type otherwise. */
  function ParseLambda(e: Expr): (r: Result<string>)
    requires e.Lambda?
    ensures e.body.Member? ==> r.Ok? && EndsWith(r.value, e.body.name)
    ensures !e.body.Member? && !e.body.Call? ==> r == Unsupported(e.body.typeName)
    ensures e.body.Call? && |e.body.args| == 0 ==> r == Ok("")
    decreases e, 0, 0
  {
    if e.body.Member? then Ok(ParseMember(e.body))
    else if e.body.Call? then ParseMethodCall(e.body)
    else Unsupported(e.body.typeName)
  }

  /** The dotted path of a member-access chain, ending in this member's name. The
      chain is followed only through member accesses: whatever lies below the first
      non-member link (the parameter, a method call) contributes nothing. */
  function ParseMember(e: Expr): (r: string)
    requires e.Member?
    ensures EndsWith(r, e.name)
    ensures !e.inner.Member? ==> r == e.name
    decreases e, 0, 0
  {
    var sb := if e.inner.Member? then ParseMember(e.inner) else "";
    var sb' := if |sb| > 0 then sb + [Dot] else sb;
    assert (sb' + e.name)[|sb'|..] == e.name;
    sb' + e.name
  }

  /** The path of a method call: the paths of its arguments in order. The call's
      own object and method name are never looked at. */
  function ParseMethodCall(e: Expr): (r: Result<string>)
    requires e.Call?
    ensures |e.args| == 0 ==> r == Ok("")
    ensures (forall i :: 0 <= i < |e.args| ==> e.args[i].Member? || e.args[i].Other?) ==> r.Ok?
    decreases e, 1, 0
  {
    ParseArguments(e, |e.args|)
  }

  /** The text built from the first `n` arguments of `call`. Before each argument a
      "." is appended when the text so far is non-empty, whatever kind the argument
      turns out to be; then a member, lambda or nested call adds its path and any
      other argument adds nothing. A lambda argument that fails makes the whole walk
      fail; earlier arguments are walked first, so the first failure is reported. */
  function ParseArguments(call: Expr, n: nat): (r: Result<string>)
    requires call.Call? && n <= |call.args|
    ensures n == 0 ==> r == Ok("")
    ensures (forall i :: 0 <= i < n ==> call.args[i].Member? || call.args[i].Other?) ==> r.Ok?
    decreases call, 0, n
  {
    if n == 0 then Ok("")
    else
      match ParseArguments(call, n - 1)
      case Unsupported(t) => Unsupported(t)
      case Ok(acc) =>
        var sb := if |acc| > 0 then acc + [Dot] else acc;
        var item := call.args[n - 1];
        if item.Member? then Ok(sb + ParseMember(item))
        else if item.Lambda? then
          (match ParseLambda(item)
           case Ok(p) => Ok(sb + p)
           case Unsupported(t) => Unsupported(t))
        else if item.Call? then
          (match ParseMethodCall(item)
           case Ok(p) => Ok(sb + p)
           case Unsupported(t) => Unsupported(t))
        else Ok(sb)
  }

  /** `Include(path)` on a query, abstracted to the list of include paths attached to it. */
  function Include(query: seq<string>, path: string): (r: seq<string>)
    ensures |r| == |query| + 1 && r[..|query|] == query && r[|query|] == path
  {
    query + [path]
  }

  /** Attaches the path of every lambda to the query, in order, exactly once each.
      The whole call fails with the first lambda that fails. */
  method IncludeEntities(source: seq<string>, includedEntities: seq<Expr>) returns (r: Result<seq<string>>)
    requires forall i :: 0 <= i < |includedEntities| ==> includedEntities[i].Lambda?
    ensures |includedEntities| == 0 ==> r == Ok(source)
    ensures r.Ok? <==> forall i :: 0 <= i < |includedEntities| ==> ParseLambda(includedEntities[i]).Ok?
    ensures r.Ok? ==> |r.value| == |source| + |includedEntities| && r.value[..|source|] == source
    ensures r.Ok? ==> forall i :: 0 <= i < |includedEntities| ==>
                        r.value[|source| + i] == ParseLambda(includedEntities[i]).value
    ensures r.Unsupported? ==>
              exists k :: 0 <= k < |includedEntities|
                && ParseLambda(includedEntities[k]) == Unsupported(r.typeName)
                && forall j :: 0 <= j < k ==> ParseLambda(includedEntities[j]).Ok?
  {
    var query := source;
    var i := 0;
    while i < |includedEntities|
      invariant 0 <= i <= |includedEntities|
      invariant |query| == |source| + i && query[..|source|] == source
      invariant forall j :: 0 <= j < i ==>
                  ParseLambda(includedEntities[j]).Ok? && query[|source| + j] == ParseLambda(includedEntities[j]).value
    {
      var path := ParseLambda(includedEntities[i]);
      if path.Unsupported? {
        return Unsupported(path.typeName);
      }
      query := Include(query, path.value);
      i := i + 1;
    }
    if |includedEntities| == 0 {
      assert query == query[..|source|];
    }
    return Ok(query);
  }
}
