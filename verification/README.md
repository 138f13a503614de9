# Navigation-path walker of `LinqExtensions`, in Dafny

`LinqExtensions.IncludeEntities` lets a caller of an Entity Framework Core query
write eager-loading directives as lambdas (`q.IncludeEntities(x => x.Orders.Select(o => o.Items))`)
and turns every lambda into the dotted string path that `Include(string)` accepts
(`"Orders.Items"`), so that `Include` / `ThenInclude` ordering never matters. Three
mutually recursive walkers do the work: `ParseLambda` dispatches on the lambda's body,
`ParseMember` builds the path of a property-access chain, and `ParseMethodCall`
concatenates the paths of a call's arguments.

The model:

- `expressions.dfy` (module `Expressions`): the expression tree as an inductive
  datatype `Expr = Member | Call | Lambda | Other`, every node carrying its type's
  full name, and `Result = Ok(value) | Unsupported(typeName)` in place of the
  `NotSupportedException`.
- `paths.dfy` (module `Paths`): `Join` and `Split` on ".", and `DropLeadingEmpty`.
- `linq_extensions.dfy` (module `LinqExtensions`): the walkers as pure functions, the
  argument loop as the prefix fold `ParseArguments`, and `IncludeEntities` as a loop
  over the lambdas that appends to the list of include paths attached to the query.
- `parser_properties.dfy` (module `ParserProperties`): the walkers against independent
  definitions — the name chain of a member access, the set of unparseable lambda
  bodies reachable from a node, and the per-argument pieces of a call.
- `scenarios.dfy` (module `Scenarios`): the lambda shapes callers write
  (`x.Foo.Bar.Baz`, `x.Foo.Select(y => y.Bar)`, `x.Items.Take(5)`, `x.Foo.First().Bar`,
  and comparisons, boxed at the top level or bare inside a call, which cannot be walked), for arbitrary member chains and on concrete names.

The walk is reproduced as written, including its separator rule: in `ParseMethodCall`
the "." is appended before the argument's kind is looked at, so the result is not a
join of the non-empty pieces. A call path drops only the leading empty pieces and
keeps a "." for every later argument: `[x.Items, 5]` gives `"Items."` and
`[x.A, 5, x.B]` gives `"A..B"`. A tidier reading -- join only the non-empty pieces,
never a leading or trailing dot or an empty segment -- is not what the code does; the
model follows the code (`ParserProperties.ParseMethodCallIsSeparatedPath`,
`Scenarios.StrayDots`). The two readings agree whenever every argument contributes a
non-empty piece (`ParserProperties.ParseMethodCallJoinsNonEmptyPieces`).

## Model

| member | source | states |
|---|---|---|
| `LinqExtensions.ParseLambda` | HoloBlock.EntityFramework.Extensions/LinqExtensions.cs:38-51 | a member-access body never fails and its path ends in that member's name; a body that is neither a member access nor a method call (a constant, a `Convert` node, a comparison, another lambda) fails with the body's type name; a call body without arguments gives "" |
| `LinqExtensions.ParseMember` | HoloBlock.EntityFramework.Extensions/LinqExtensions.cs:58-75 | the path of a member access never fails and always ends in the member's own name; when the object is not a member access (parameter, null, method call) the path is the name alone |
| `LinqExtensions.ParseMethodCall` | HoloBlock.EntityFramework.Extensions/LinqExtensions.cs:82-108 | a call without arguments gives ""; a call whose arguments are only member accesses and unrecognised nodes never fails |
| `LinqExtensions.ParseArguments` | HoloBlock.EntityFramework.Extensions/LinqExtensions.cs:86-105 | the argument loop over the first n arguments: no arguments give ""; when those arguments are only member accesses and unrecognised nodes the loop never fails |
| `LinqExtensions.IncludeEntities` | HoloBlock.EntityFramework.Extensions/LinqExtensions.cs:19-29 | no lambdas leave the query unchanged; otherwise the call succeeds exactly when every lambda's path exists, keeps the query's earlier paths and attaches the i-th lambda's path at position |source| + i, after the query's earlier paths, once each and in order; a failure is that of the first failing lambda |
| `ParserProperties.ParseMemberJoinsChain` | HoloBlock.EntityFramework.Extensions/LinqExtensions.cs:62-72 | with non-empty names, the path of a member access is its name chain, root first, joined by "." |
| `ParserProperties.SplitParseMemberGivesChain` | HoloBlock.EntityFramework.Extensions/LinqExtensions.cs:58-75 | with non-empty, dot-free names, splitting the path on "." gives back the chain's names from root to leaf |
| `ParserProperties.ChainStopsAtNonMember` | HoloBlock.EntityFramework.Extensions/LinqExtensions.cs:62-72 | below a non-member link nothing contributes: swapping the object for any other non-member node keeps the path equal to the name |
| `ParserProperties.ParseLambdaFailsIffUnsupportedBody` | HoloBlock.EntityFramework.Extensions/LinqExtensions.cs:40-50 | a lambda's path exists if and only if no lambda body reachable through lambda bodies and call arguments is neither a member access nor a call; a failure names one of those bodies' types |
| `ParserProperties.ParseArgumentsFailsIffUnsupportedBody` | HoloBlock.EntityFramework.Extensions/LinqExtensions.cs:93-104 | the same for the first n arguments of a call: unrecognised non-lambda arguments never cause failure, a lambda argument with an unsupported body always does |
| `ParserProperties.ParseMethodCallFailsIffUnsupportedBody` | HoloBlock.EntityFramework.Extensions/LinqExtensions.cs:82-108 | a call's path exists if and only if no unsupported lambda body is reachable from its arguments |
| `ParserProperties.CollectReportsFirstFailure` | HoloBlock.EntityFramework.Extensions/LinqExtensions.cs:86-104 | when the arguments' pieces fail, the failure reported is that of the first failing argument, every earlier one having succeeded |
| `ParserProperties.FirstPiece` | HoloBlock.EntityFramework.Extensions/LinqExtensions.cs:88-91 | while every piece so far was empty the text is still "", and the next piece becomes the whole text with no separator |
| `ParserProperties.LaterPiece` | HoloBlock.EntityFramework.Extensions/LinqExtensions.cs:88-91 | once a non-empty piece was seen the text is non-empty, and every later piece, empty or not, comes after a "." |
| `ParserProperties.ParseArgumentsIsSeparatedPath` | HoloBlock.EntityFramework.Extensions/LinqExtensions.cs:86-105 | the loop over the first n arguments equals the reference reading: the first failing piece, or the pieces with leading empty ones dropped and all later ones, empty or not, joined by "." |
| `ParserProperties.ParseMethodCallIsSeparatedPath` | HoloBlock.EntityFramework.Extensions/LinqExtensions.cs:82-108 | the path of a whole call is that reference reading of all of its arguments' pieces |
| `ParserProperties.ParseMethodCallJoinsNonEmptyPieces` | HoloBlock.EntityFramework.Extensions/LinqExtensions.cs:86-104 | when every argument contributes a non-empty piece, the call succeeds and its path is exactly the pieces joined by "." |
| `ParserProperties.SeparatedPathStep` | HoloBlock.EntityFramework.Extensions/LinqExtensions.cs:88-91 | the reference reading takes the same step as the loop when one more piece is added |
| `ParserProperties.ParseMethodCallIgnoresReceiver` | HoloBlock.EntityFramework.Extensions/LinqExtensions.cs:84-107 | the call's object, method name and type never influence its path: only the arguments are walked |
| `ParserProperties.LeadingOthersIgnored` | HoloBlock.EntityFramework.Extensions/LinqExtensions.cs:86-104 | unrecognised arguments before the first recognised one add nothing, not even a separator: dropping them leaves the path unchanged |
| `Scenarios.ProjectionPath` | HoloBlock.EntityFramework.Extensions/LinqExtensions.cs:86-99 | `x => a.Select(y => b)` gives a's path, ".", b's path for any member chains a and b, with a non-empty path for a |
| `Scenarios.TrailingDot` | HoloBlock.EntityFramework.Extensions/LinqExtensions.cs:88-104 | for any member chain a with a non-empty path, an unrecognised argument after a leaves a trailing "." |
| `Scenarios.DoubledDot` | HoloBlock.EntityFramework.Extensions/LinqExtensions.cs:88-104 | for any member chains a (with a non-empty path) and b, an unrecognised argument between them gives ".." between their paths |
| `Scenarios.MemberChain` | HoloBlock.EntityFramework.Extensions/LinqExtensions.cs:58-75 | `x => x.Foo.Bar.Baz` gives "Foo.Bar.Baz" |
| `Scenarios.SelectProjection` | HoloBlock.EntityFramework.Extensions/LinqExtensions.cs:82-108 | `x => x.Foo.Select(y => y.Bar)` gives "Foo.Bar" and `x => x.Foo.Select(y => y.Bar.Baz)` gives "Foo.Bar.Baz" |
| `Scenarios.StrayDots` | HoloBlock.EntityFramework.Extensions/LinqExtensions.cs:88-104 | `x => x.Items.Take(5)` gives "Items." and arguments `[x.A, 5, x.B]` give "A..B" |
| `Scenarios.FailureInsideCall` | HoloBlock.EntityFramework.Extensions/LinqExtensions.cs:97-100 | `x => x.Orders.Select(o => o.Total > 5)` fails with the comparison's type, while `x => x.Orders.Take(5)` succeeds |
| `Scenarios.SingleMember` | HoloBlock.EntityFramework.Extensions/LinqExtensions.cs:40-43 | `x => x.Foo` gives "Foo" |
| `Scenarios.MemberOfCallDropsPrefix` | HoloBlock.EntityFramework.Extensions/LinqExtensions.cs:62-72 | `x => x.Foo.First().Bar` gives "Bar": the path below the call is dropped |
| `Scenarios.UnsupportedBodies` | HoloBlock.EntityFramework.Extensions/LinqExtensions.cs:50 | `x => x.Count() > 0` fails with "System.Object", the type of the boxing `Convert` node that is its body; a lambda argument `o => o.Total > 5` fails with "System.Boolean"; a lambda whose body is a lambda node fails with the inner lambda's type |

## Left out

- EF Core's `Include(string)` and `IQueryable<T>` are foreign library calls: the query is
  only the list of include paths attached to it (`LinqExtensions.Include` appends one),
  and nothing is claimed about what EF does with them, such as the order of paths not
  affecting the loaded records. `Include` may itself reject a path (an empty one, or
  one with an empty segment such as "Items."); the success condition of
  `LinqExtensions.IncludeEntities` covers only the walk of each lambda.
- The exception's message text ("Unknown body type: " followed by the type name) is
  reduced to the type name it carries.
- How the C# compiler builds expression trees (`Convert` wrappers around value-type
  members, `Quote` around lambdas passed to `Queryable` methods, parameter nodes) is
  not modelled: all such nodes are `Other`, with their type name.
- Reflection (`Type.FullName`, `Member.Name`) is reduced to strings stored in the nodes;
  lambda parameters are not represented.
- `StringBuilder` is plain string concatenation in the same append order.
- A null `includedEntities` array or a null lambda in it (a `NullReferenceException` in
  the source) cannot be expressed: sequences and datatype values are never null.
- Determinism and re-entrancy hold by construction (the walkers are pure functions)
  and get no lemma of their own.
