/** What the walker computes, stated against definitions that do not walk strings:
    the name chain of a member access, the set of lambda bodies that cannot be
    parsed, and the per-argument pieces of a method call. */
module ParserProperties {
  import opened Expressions
  import opened Paths
  import opened LinqExtensions

  // ---------------------------------------------------------------------------
  // Member chains
  // ---------------------------------------------------------------------------

  /** The member names of an access chain, root first, down to the first link
      that is not a member access. */
  function Chain(e: Expr): (r: seq<string>)
    requires e.Member?
    ensures |r| >= 1 && r[|r| - 1] == e.name
    decreases e
  {
    if e.inner.Member? then Chain(e.inner) + [e.name] else [e.name]
  }

  /** With non-empty names, the path of a member access is its name chain joined by ".". */
  lemma {:induction false} ParseMemberJoinsChain(e: Expr)
    requires e.Member?
    requires forall i :: 0 <= i < |Chain(e)| ==> Chain(e)[i] != ""
    ensures ParseMember(e) == Join(Chain(e))
    decreases e
  {
    if e.inner.Member? {
      var c := Chain(e.inner);
      assert Chain(e) == c + [e.name];
      forall i | 0 <= i < |c|
        ensures c[i] != ""
      {
        assert Chain(e)[i] == c[i];
      }
      ParseMemberJoinsChain(e.inner);
      assert Chain(e)[..|Chain(e)| - 1] == c;
    }
  }

  /** With valid names, splitting the path of a member access on "." gives back the
      names of the chain from root to leaf. */
  lemma SplitParseMemberGivesChain(e: Expr)
    requires e.Member?
    requires forall i :: 0 <= i < |Chain(e)| ==> ValidSegment(Chain(e)[i])
    ensures Split(ParseMember(e)) == Chain(e)
  {
    ParseMemberJoinsChain(e);
    SplitJoin(Chain(e));
  }

  /** A member access whose object is not itself a member access drops everything
      below it: the path is the member's name alone, whatever the object is. */
  lemma ChainStopsAtNonMember(e: Expr, below: Expr)
    requires e.Member? && !e.inner.Member? && !below.Member?
    ensures ParseMember(Member(below, e.name, e.typeName)) == ParseMember(e) == e.name
    ensures Chain(e) == [e.name]
  {
  }

  // ---------------------------------------------------------------------------
  // Failure
  // ---------------------------------------------------------------------------

  /** The type names of the bodies that the walk of `e` reaches and cannot parse:
      bodies of lambdas (reached through lambda bodies and method-call arguments)
      that are neither member accesses nor method calls. Member chains, call objects
      and other nodes reach nothing. */
  function Failures(e: Expr): (r: set<string>)
    decreases e, 1, 0
  {
    match e
    case Lambda(body, _) =>
      if body.Member? then {}
      else if body.Call? then ArgumentFailures(body, |body.args|)
      else {body.typeName}
    case Call(_, _, args, _) => ArgumentFailures(e, |args|)
    case _ => {}
  }

  /** `Failures` of the first `n` arguments of `call`. */
  function ArgumentFailures(call: Expr, n: nat): (r: set<string>)
    requires call.Call? && n <= |call.args|
    decreases call, 0, n
  {
    if n == 0 then {} else ArgumentFailures(call, n - 1) + Failures(call.args[n - 1])
  }

  /** A lambda's path exists exactly when no unparseable body is reachable from it,
      and a failure names one of those bodies. */
  lemma {:induction false} ParseLambdaFailsIffUnsupportedBody(e: Expr)
    requires e.Lambda?
    ensures ParseLambda(e).Ok? <==> Failures(e) == {}
    ensures ParseLambda(e).Unsupported? ==> ParseLambda(e).typeName in Failures(e)
    decreases e, 1, 0
  {
    if e.body.Call? {
      ParseArgumentsFailsIffUnsupportedBody(e.body, |e.body.args|);
    }
  }

  /** The same for the first `n` arguments of a method call: only lambda arguments
      (directly or inside nested calls) can make the call fail. */
  lemma {:induction false} ParseArgumentsFailsIffUnsupportedBody(call: Expr, n: nat)
    requires call.Call? && n <= |call.args|
    ensures ParseArguments(call, n).Ok? <==> ArgumentFailures(call, n) == {}
    ensures ParseArguments(call, n).Unsupported? ==> ParseArguments(call, n).typeName in ArgumentFailures(call, n)
    decreases call, 0, n
  {
    if n > 0 {
      ParseArgumentsFailsIffUnsupportedBody(call, n - 1);
      var item := call.args[n - 1];
      if item.Lambda? {
        ParseLambdaFailsIffUnsupportedBody(item);
      } else if item.Call? {
        ParseArgumentsFailsIffUnsupportedBody(item, |item.args|);
      }
    }
  }

  /** A method call's path exists exactly when no unparseable lambda body is
      reachable from its arguments. */
  lemma ParseMethodCallFailsIffUnsupportedBody(e: Expr)
    requires e.Call?
    ensures ParseMethodCall(e).Ok? <==> Failures(e) == {}
    ensures ParseMethodCall(e).Unsupported? ==> ParseMethodCall(e).typeName in Failures(e)
  {
    ParseArgumentsFailsIffUnsupportedBody(e, |e.args|);
  }

  // ---------------------------------------------------------------------------
  // Method calls as separated pieces
  // ---------------------------------------------------------------------------

  /** What one argument contributes on its own, before any separator. */
  function Piece(arg: Expr): (r: Result<string>)
    ensures arg.Other? ==> r == Ok("")
    ensures !arg.Lambda? && !arg.Call? ==> r.Ok?
  {
    match arg
    case Member(_, _, _) => Ok(ParseMember(arg))
    case Lambda(_, _) => ParseLambda(arg)
    case Call(_, _, _, _) => ParseMethodCall(arg)
    case Other(_) => Ok("")
  }

  /** The pieces of the first `n` arguments of `call`, in order. */
  function Pieces(call: Expr, n: nat): (r: seq<Result<string>>)
    requires call.Call? && n <= |call.args|
    ensures |r| == n && forall i :: 0 <= i < n ==> r[i] == Piece(call.args[i])
  {
    if n == 0 then [] else Pieces(call, n - 1) + [Piece(call.args[n - 1])]
  }

  /** All values when every result is a value; otherwise the first failure. */
  function Collect(rs: seq<Result<string>>): (r: Result<seq<string>>)
    ensures r.Ok? <==> forall i :: 0 <= i < |rs| ==> rs[i].Ok?
    ensures r.Ok? ==> |r.value| == |rs| && forall i :: 0 <= i < |rs| ==> r.value[i] == rs[i].value
    ensures r.Unsupported? ==> Unsupported(r.typeName) in rs
  {
    if |rs| == 0 then Ok([])
    else
      var init := rs[..|rs| - 1];
      match Collect(init)
      case Unsupported(t) => Unsupported(t)
      case Ok(vs) =>
        match rs[|rs| - 1]
        case Ok(v) => Ok(vs + [v])
        case Unsupported(t) => Unsupported(t)
  }

  /** The failure `Collect` reports is the first one. */
  lemma {:induction false} CollectReportsFirstFailure(rs: seq<Result<string>>)
    requires Collect(rs).Unsupported?
    ensures exists k :: 0 <= k < |rs| && rs[k] == Unsupported(Collect(rs).typeName)
              && forall j :: 0 <= j < k ==> rs[j].Ok?
    decreases |rs|
  {
    var init := rs[..|rs| - 1];
    var t := Collect(rs).typeName;
    if Collect(init).Unsupported? {
      CollectReportsFirstFailure(init);
      assert Collect(init).typeName == t;
      var k :| 0 <= k < |init| && init[k] == Unsupported(t)
                && forall j :: 0 <= j < k ==> init[j].Ok?;
      assert rs[k] == init[k];
      assert forall j :: 0 <= j < k ==> rs[j] == init[j];
    } else {
      var k := |rs| - 1;
      assert rs[k] == Unsupported(t);
      assert forall j :: 0 <= j < k ==> rs[j] == init[j];
    }
  }

  /** The reference reading of a method call's path: the first failing piece, or the
      pieces with leading empty ones dropped and the rest, empty or not, joined by ".". */
  function SeparatedPath(rs: seq<Result<string>>): (r: Result<string>)
  {
    match Collect(rs)
    case Ok(vs) => Ok(Join(DropLeadingEmpty(vs)))
    case Unsupported(t) => Unsupported(t)
  }

  /** One step of the builder: the "." goes in exactly when the text so far is
      non-empty, and the new piece follows it. */
  lemma SeparatorStep(vs: seq<string>, p: string)
    ensures var acc := Join(DropLeadingEmpty(vs));
            Join(DropLeadingEmpty(vs + [p])) == (if |acc| > 0 then acc + [Dot] else acc) + p
  {
    if DropLeadingEmpty(vs) == [] {
      FirstPiece(vs, p);
    } else {
      LaterPiece(vs, p);
    }
  }

  /** While everything so far was empty, the next piece is the whole path. */
  lemma FirstPiece(vs: seq<string>, p: string)
    requires DropLeadingEmpty(vs) == []
    ensures Join(DropLeadingEmpty(vs)) == ""
    ensures Join(DropLeadingEmpty(vs + [p])) == p
  {
    DropLeadingEmptyAppend(vs, p);
    if p == "" {
      assert DropLeadingEmpty(vs + [p]) == [];
    } else {
      assert DropLeadingEmpty(vs + [p]) == [p];
    }
  }

  /** Once a non-empty piece was seen, every later piece comes after a ".". */
  lemma LaterPiece(vs: seq<string>, p: string)
    requires DropLeadingEmpty(vs) != []
    ensures |Join(DropLeadingEmpty(vs))| > 0
    ensures Join(DropLeadingEmpty(vs + [p])) == Join(DropLeadingEmpty(vs)) + [Dot] + p
  {
    var ds := DropLeadingEmpty(vs);
    DropLeadingEmptyAppend(vs, p);
    assert DropLeadingEmpty(vs + [p]) == ds + [p];
    assert |ds[0]| > 0;
    JoinAppend(ds, p);
  }

  /** The builder text after one more argument, given the text so far and the
      argument's piece. */
  function Extend(acc: Result<string>, piece: Result<string>): (r: Result<string>)
  {
    match acc
    case Unsupported(t) => Unsupported(t)
    case Ok(a) =>
      match piece
      case Unsupported(t) => Unsupported(t)
      case Ok(p) => Ok((if |a| > 0 then a + [Dot] else a) + p)
  }

  lemma ParseArgumentsStep(call: Expr, n: nat)
    requires call.Call? && 0 < n <= |call.args|
    ensures ParseArguments(call, n) == Extend(ParseArguments(call, n - 1), Piece(call.args[n - 1]))
  {
    var item := call.args[n - 1];
    match ParseArguments(call, n - 1)
    case Unsupported(t) =>
    case Ok(acc) =>
      if item.Lambda? {
        assert Piece(item) == ParseLambda(item);
      } else if item.Call? {
        assert Piece(item) == ParseMethodCall(item);
      } else if item.Other? {
        var sb := if |acc| > 0 then acc + [Dot] else acc;
        assert sb + "" == sb;
      }
  }

  lemma SeparatedPathStep(rs: seq<Result<string>>, x: Result<string>)
    ensures SeparatedPath(rs + [x]) == Extend(SeparatedPath(rs), x)
  {
    assert (rs + [x])[..|rs|] == rs;
    match Collect(rs)
    case Unsupported(t) =>
    case Ok(vs) =>
      match x
      case Unsupported(t) =>
      case Ok(p) =>
        SeparatorStep(vs, p);
  }

  lemma {:induction false} ParseArgumentsIsSeparatedPath(call: Expr, n: nat)
    requires call.Call? && n <= |call.args|
    ensures ParseArguments(call, n) == SeparatedPath(Pieces(call, n))
    decreases n
  {
    if n > 0 {
      ParseArgumentsIsSeparatedPath(call, n - 1);
      ParseArgumentsStep(call, n);
      SeparatedPathStep(Pieces(call, n - 1), Piece(call.args[n - 1]));
    }
  }

  /** The path of a method call is its arguments' pieces with the leading empty ones
      dropped and the rest joined by "." -- so a recognised-but-empty or unrecognised
      argument after the first non-empty piece still brings its ".". */
  lemma ParseMethodCallIsSeparatedPath(e: Expr)
    requires e.Call?
    ensures ParseMethodCall(e) == SeparatedPath(Pieces(e, |e.args|))
  {
    ParseArgumentsIsSeparatedPath(e, |e.args|);
  }

  /** When every argument contributes a non-empty piece, the path is exactly the
      pieces joined by "." -- the tidy reading and the source agree. */
  lemma ParseMethodCallJoinsNonEmptyPieces(e: Expr)
    requires e.Call?
    requires forall i :: 0 <= i < |e.args| ==> Piece(e.args[i]).Ok? && Piece(e.args[i]).value != ""
    ensures ParseMethodCall(e).Ok?
    ensures |e.args| > 0 ==> ParseMethodCall(e).value == Join(Collect(Pieces(e, |e.args|)).value)
  {
    ParseMethodCallIsSeparatedPath(e);
    var c := Collect(Pieces(e, |e.args|));
    assert c.Ok?;
    if |e.args| > 0 {
      assert c.value[0] != "";
    }
  }

  // ---------------------------------------------------------------------------
  // What does not matter
  // ---------------------------------------------------------------------------

  lemma {:induction false} ParseArgumentsSeesOnlyArguments(c1: Expr, c2: Expr, n: nat)
    requires c1.Call? && c2.Call? && c1.args == c2.args && n <= |c1.args|
    ensures ParseArguments(c1, n) == ParseArguments(c2, n)
    decreases n
  {
    if n > 0 {
      ParseArgumentsSeesOnlyArguments(c1, c2, n - 1);
    }
  }

  /** The object, method name and type of a call never influence its path. */
  lemma ParseMethodCallIgnoresReceiver(e: Expr, obj: Expr, methodName: string, typeName: string)
    requires e.Call?
    ensures ParseMethodCall(Call(obj, methodName, e.args, typeName)) == ParseMethodCall(e)
  {
    ParseArgumentsSeesOnlyArguments(Call(obj, methodName, e.args, typeName), e, |e.args|);
  }

  lemma {:induction false} LeadingOthersBuildNothing(call: Expr, k: nat)
    requires call.Call? && k <= |call.args|
    requires forall i :: 0 <= i < k ==> call.args[i].Other?
    ensures ParseArguments(call, k) == Ok("")
    decreases k
  {
    if k > 0 {
      LeadingOthersBuildNothing(call, k - 1);
    }
  }

  lemma {:induction false} ShiftPastLeadingOthers(call: Expr, k: nat, n: nat)
    requires call.Call? && k + n <= |call.args|
    requires forall i :: 0 <= i < k ==> call.args[i].Other?
    ensures ParseArguments(call, k + n)
         == ParseArguments(Call(call.obj, call.methodName, call.args[k..], call.typeName), n)
    decreases n
  {
    if n == 0 {
      LeadingOthersBuildNothing(call, k);
    } else {
      ShiftPastLeadingOthers(call, k, n - 1);
      assert call.args[k..][n - 1] == call.args[k + n - 1];
    }
  }

  /** Unrecognised arguments before the first recognised one add nothing, not even
      a separator. */
  lemma LeadingOthersIgnored(e: Expr, k: nat)
    requires e.Call? && k <= |e.args|
    requires forall i :: 0 <= i < k ==> e.args[i].Other?
    ensures ParseMethodCall(e) == ParseMethodCall(Call(e.obj, e.methodName, e.args[k..], e.typeName))
  {
    var shifted := Call(e.obj, e.methodName, e.args[k..], e.typeName);
    var m := |e.args| - k;
    assert |shifted.args| == m;
    ShiftPastLeadingOthers(e, k, m);
    calc {
      ParseMethodCall(e);
      ParseArguments(e, k + m);
      ParseArguments(shifted, m);
      ParseMethodCall(shifted);
    }
  }
}
