/** What the PHP parser yields for a PHP file, reduced to what the command
    looks at, and the traversal with the anonymous visitor whose `leaveNode`
    collects translation keys (src/Commands/Translate.php:233-252, 424-428). */
module PhpAst {
  import opened Wrappers

  /** The function names whose calls carry a translation key, in the order the
      command tries them. */
  const TranslationFunctions: seq<string> := ["__", "trans", "trans_choice"]

  /** A `Name` node; `first` is its `parts[0]`. */
  datatype Name = Name(first: string, rest: seq<string>)

  /** A PHP syntax node. The argument list of a call holds the values of its
      `Arg` nodes; every other node keeps its sub-nodes in traversal order. */
  datatype PhpNode =
    | StringLit(value: string)
    | FuncCall(callee: Callee, args: seq<PhpNode>)
    | ExpressionStmt(expr: PhpNode)
    | OtherNode(children: seq<PhpNode>)

  /** What a function call calls: a name, or a computed expression such as `$f`. */
  datatype Callee = Named(name: Name) | Computed(expr: PhpNode)

  predicate IsTranslationCall(n: PhpNode) {
    n.FuncCall? && n.callee.Named? && n.callee.name.first in TranslationFunctions
  }

  /** The value of the first string-literal argument, wherever it sits. */
  function FirstStringArgument(args: seq<PhpNode>): (r: Option<string>)
    ensures r.Some? <==> exists i :: 0 <= i < |args| && args[i].StringLit?
    ensures r.Some? ==> exists i :: 0 <= i < |args| && args[i] == StringLit(r.value)
                                    && forall j :: 0 <= j < i ==> !args[j].StringLit?
  {
    if |args| == 0 then None
    else if args[0].StringLit? then Some(args[0].value)
    else
      var r := FirstStringArgument(args[1..]);
      assert forall i :: 1 <= i < |args| ==> args[i] == args[1..][i - 1];
      r
  }

  /** What `leaveNode` pushes onto the key accumulator when it leaves `n`
      (src/Commands/Translate.php:237-251). */
  function LeaveNode(n: PhpNode): seq<string> {
    if IsTranslationCall(n) then
      match FirstStringArgument(n.args)
      case Some(v) => [v]
      case None => []
    else []
  }

  /** The node traverser running the visitor over `n`: sub-nodes are left before
      their parent (a call's callee before its arguments), and every push goes
      onto the accumulator `acc` (src/Commands/Translate.php:428). */
  function Traverse(n: PhpNode, acc: seq<string>): seq<string>
    decreases n
  {
    match n
    case StringLit(_) => acc
    case FuncCall(callee, args) =>
      var afterCallee := match callee
        case Named(_) => acc
        case Computed(e) => Traverse(e, acc);
      TraverseAll(args, afterCallee) + LeaveNode(n)
    case ExpressionStmt(e) => Traverse(e, acc)
    case OtherNode(cs) => TraverseAll(cs, acc)
  }

  function TraverseAll(ns: seq<PhpNode>, acc: seq<string>): seq<string>
    decreases ns
  {
    if |ns| == 0 then acc else TraverseAll(ns[1..], Traverse(ns[0], acc))
  }

  // ---------------------------------------------------------------------------
  // Reference: the nodes in the order they are left, and their contributions.
  // ---------------------------------------------------------------------------

  function PostOrder(n: PhpNode): seq<PhpNode>
    decreases n
  {
    match n
    case StringLit(_) => [n]
    case FuncCall(callee, args) =>
      var calleeNodes := match callee
        case Named(_) => []
        case Computed(e) => PostOrder(e);
      calleeNodes + PostOrderAll(args) + [n]
    case ExpressionStmt(e) => PostOrder(e) + [n]
    case OtherNode(cs) => PostOrderAll(cs) + [n]
  }

  function PostOrderAll(ns: seq<PhpNode>): seq<PhpNode>
    decreases ns
  {
    if |ns| == 0 then [] else PostOrder(ns[0]) + PostOrderAll(ns[1..])
  }

  /** The keys the visitor would push for this sequence of left nodes. */
  function LeaveEach(nodes: seq<PhpNode>): seq<string> {
    if |nodes| == 0 then [] else LeaveNode(nodes[0]) + LeaveEach(nodes[1..])
  }

  lemma {:induction false} LeaveEachAppend(a: seq<PhpNode>, b: seq<PhpNode>)
    ensures LeaveEach(a + b) == LeaveEach(a) + LeaveEach(b)
  {
    if |a| == 0 {
      assert a + b == b;
    } else {
      assert (a + b)[1..] == a[1..] + b;
      LeaveEachAppend(a[1..], b);
    }
  }

  lemma LeaveEachSingle(n: PhpNode)
    ensures LeaveEach([n]) == LeaveNode(n)
  {
    assert LeaveEach([n]) == LeaveNode(n) + LeaveEach([]);
  }

  /** The traversal appends, to whatever the accumulator held, exactly the
      contributions of the translation calls in post-order. */
  lemma {:induction false} TraverseIsPostOrder(n: PhpNode, acc: seq<string>)
    ensures Traverse(n, acc) == acc + LeaveEach(PostOrder(n))
    decreases n, 1
  {
    LeaveEachSingle(n);
    match n
    case StringLit(_) =>
    case FuncCall(callee, args) =>
      TraverseCallIsPostOrder(n, acc);
    case ExpressionStmt(e) =>
      TraverseIsPostOrder(e, acc);
      LeaveEachAppend(PostOrder(e), [n]);
    case OtherNode(cs) =>
      TraverseAllIsPostOrder(cs, acc);
      LeaveEachAppend(PostOrderAll(cs), [n]);
  }

  lemma {:induction false} TraverseCallIsPostOrder(n: PhpNode, acc: seq<string>)
    requires n.FuncCall?
    ensures Traverse(n, acc) == acc + LeaveEach(PostOrder(n))
    decreases n, 0
  {
    var calleeNodes := CalleeNodes(n.callee);
    var afterCallee := AfterCallee(n.callee, acc);
    if n.callee.Computed? {
      TraverseIsPostOrder(n.callee.expr, acc);
    }
    TraverseAllIsPostOrder(n.args, afterCallee);
    LeaveEachOfCall(calleeNodes, PostOrderAll(n.args), n);
    CallRegroup(acc, LeaveEach(calleeNodes), LeaveEach(PostOrderAll(n.args)), LeaveNode(n));
  }

  function CalleeNodes(callee: Callee): seq<PhpNode> {
    match callee
    case Named(_) => []
    case Computed(e) => PostOrder(e)
  }

  function AfterCallee(callee: Callee, acc: seq<string>): seq<string> {
    match callee
    case Named(_) => acc
    case Computed(e) => Traverse(e, acc)
  }

  lemma CallRegroup(acc: seq<string>, c: seq<string>, a: seq<string>, l: seq<string>)
    ensures (acc + c) + a + l == acc + (c + a + l)
  {
  }

  lemma LeaveEachOfCall(calleeNodes: seq<PhpNode>, argNodes: seq<PhpNode>, n: PhpNode)
    ensures LeaveEach(calleeNodes + argNodes + [n]) == LeaveEach(calleeNodes) + LeaveEach(argNodes) + LeaveNode(n)
  {
    LeaveEachAppend(calleeNodes + argNodes, [n]);
    LeaveEachAppend(calleeNodes, argNodes);
    LeaveEachSingle(n);
  }

  lemma {:induction false} TraverseAllIsPostOrder(ns: seq<PhpNode>, acc: seq<string>)
    ensures TraverseAll(ns, acc) == acc + LeaveEach(PostOrderAll(ns))
    decreases ns, 2
  {
    if |ns| > 0 {
      TraverseIsPostOrder(ns[0], acc);
      TraverseAllIsPostOrder(ns[1..], Traverse(ns[0], acc));
      LeaveEachAppend(PostOrder(ns[0]), PostOrderAll(ns[1..]));
    }
  }

  /** The keys a PHP file contributes, traversed with an empty accumulator. */
  function FileCallKeys(ast: seq<PhpNode>): seq<string> {
    TraverseAll(ast, [])
  }

  lemma {:induction false} LeaveEachMembership(nodes: seq<PhpNode>, k: string)
    ensures k in LeaveEach(nodes) <==>
      exists i :: 0 <= i < |nodes| && IsTranslationCall(nodes[i])
                  && FirstStringArgument(nodes[i].args) == Some(k)
  {
    if |nodes| > 0 {
      LeaveEachMembership(nodes[1..], k);
      assert forall i :: 1 <= i < |nodes| ==> nodes[i] == nodes[1..][i - 1];
      if k in LeaveEach(nodes[1..]) {
        var i :| 0 <= i < |nodes[1..]| && IsTranslationCall(nodes[1..][i])
                 && FirstStringArgument(nodes[1..][i].args) == Some(k);
        assert nodes[i + 1] == nodes[1..][i];
      }
    }
  }

  /** A key is collected from a file exactly when some call named `__`, `trans`
      or `trans_choice` in it has `k` as its first string-literal argument. */
  lemma FileCallKeysAreTranslationCalls(ast: seq<PhpNode>, k: string)
    ensures k in FileCallKeys(ast) <==>
      exists n :: n in PostOrderAll(ast) && IsTranslationCall(n)
                  && FirstStringArgument(n.args) == Some(k)
  {
    TraverseAllIsPostOrder(ast, []);
    LeaveEachMembership(PostOrderAll(ast), k);
    var nodes := PostOrderAll(ast);
    if exists n :: n in nodes && IsTranslationCall(n) && FirstStringArgument(n.args) == Some(k) {
      var n :| n in nodes && IsTranslationCall(n) && FirstStringArgument(n.args) == Some(k);
      var i :| 0 <= i < |nodes| && nodes[i] == n;
    }
  }

  function Call(name: string, args: seq<PhpNode>): PhpNode {
    FuncCall(Named(Name(name, [])), args)
  }

  /** The three controller actions of the fixture: each call sits inside a
      method-call chain; `trans_choice` also has an integer and an array
      argument holding the literal `"count"`. */
  lemma BookControllerKeys(saved: string, updated: string, deleted: string)
    ensures FileCallKeys([OtherNode([
      OtherNode([Call("__", [StringLit(saved)])]),
      OtherNode([Call("trans", [StringLit(updated)])]),
      OtherNode([Call("trans_choice", [StringLit(deleted), OtherNode([]),
                                       OtherNode([StringLit("count"), OtherNode([])])])])])])
      == [saved, updated, deleted]
  {
    var c1 := Call("__", [StringLit(saved)]);
    var c2 := Call("trans", [StringLit(updated)]);
    var c3 := Call("trans_choice", [StringLit(deleted), OtherNode([]),
                                    OtherNode([StringLit("count"), OtherNode([])])]);
    ChoiceArgumentsPushNothing(deleted, [saved, updated]);
    WrappedCallKeys(c1, [], saved);
    WrappedCallKeys(c2, [saved], updated);
    WrappedCallKeys(c3, [saved, updated], deleted);
    TraverseThree(OtherNode([c1]), OtherNode([c2]), OtherNode([c3]), []);
    assert [] + [saved] == [saved];
    assert [saved] + [updated] == [saved, updated];
    assert [saved, updated] + [deleted] == [saved, updated, deleted];
    assert TraverseAll([OtherNode([OtherNode([c1]), OtherNode([c2]), OtherNode([c3])])], [])
        == TraverseAll([OtherNode([c1]), OtherNode([c2]), OtherNode([c3])], []);
  }

  lemma ChoiceArgumentsPushNothing(deleted: string, acc: seq<string>)
    ensures TraverseAll([StringLit(deleted), OtherNode([]),
                         OtherNode([StringLit("count"), OtherNode([])])], acc) == acc
  {
    var args := [StringLit(deleted), OtherNode([]), OtherNode([StringLit("count"), OtherNode([])])];
    var inner := [StringLit("count"), OtherNode([])];
    assert inner[1..] == [OtherNode([])] && inner[1..][1..] == [];
    assert TraverseAll(inner[1..], acc) == TraverseAll([], Traverse(OtherNode([]), acc));
    assert TraverseAll(inner, acc) == acc;
    assert args[1..] == [OtherNode([]), OtherNode(inner)];
    assert args[1..][1..] == [OtherNode(inner)] && args[1..][1..][1..] == [];
    assert TraverseAll(args[1..][1..], acc) == acc;
    assert TraverseAll(args[1..], acc) == acc;
  }

  lemma TraverseThree(x: PhpNode, y: PhpNode, z: PhpNode, acc: seq<string>)
    ensures TraverseAll([x, y, z], acc) == Traverse(z, Traverse(y, Traverse(x, acc)))
  {
    var ax := Traverse(x, acc);
    var ay := Traverse(y, ax);
    assert [x, y, z][1..] == [y, z];
    assert [y, z][1..] == [z];
    assert [z][1..] == [];
    assert TraverseAll([z], ay) == TraverseAll([], Traverse(z, ay));
    assert TraverseAll([y, z], ax) == TraverseAll([z], ay);
    assert TraverseAll([x, y, z], acc) == TraverseAll([y, z], ax);
  }

  /** A translation call whose arguments hold no call, wrapped in a node,
      pushes its first string literal. */
  lemma WrappedCallKeys(c: PhpNode, acc: seq<string>, v: string)
    requires IsTranslationCall(c) && c.callee.Named? && |c.args| > 0 && c.args[0] == StringLit(v)
    requires TraverseAll(c.args, acc) == acc
    ensures Traverse(OtherNode([c]), acc) == acc + [v]
  {
    assert TraverseAll([c], acc) == TraverseAll([], Traverse(c, acc));
  }

  /** The first string literal is taken wherever it sits, a call without one
      contributes nothing, and a call under a namespace is named by its first
      part. */
  lemma CallShapes()
    ensures FileCallKeys([Call("__", [OtherNode([]), StringLit("Hello")])]) == ["Hello"]
    ensures FileCallKeys([Call("trans", [OtherNode([])])]) == []
    ensures FileCallKeys([FuncCall(Named(Name("App", ["trans"])), [StringLit("x")])]) == []
    ensures FileCallKeys([Call("__", [Call("trans", [StringLit("a")]), StringLit("b")])]) == ["a", "b"]
  {
  }
}
