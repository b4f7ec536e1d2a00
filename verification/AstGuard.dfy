/** validator.go's inspectAST: an iterative walk over an arbitrary heap graph of nodes
    that accepts exactly the bounded trees, whatever cycles or sharing it meets. */
module AstGuard {
  import opened Common
  import opened Strings
  import opened Ast
  import opened Schema
  import Grammar

  // An Expr interface value: nothing, a typed nil pointer, or a node.
  datatype Ref = NilRef | TypedNil | To(node: Node)

  // A node's fields; Foreign is an Expr type the library does not know.
  datatype Payload =
    | ComparisonNode(field: string, op: CompareOp, literal: Literal, literals: seq<Literal>)
    | LogicalNode(logical: LogicalOp, left: Ref, right: Ref)
    | NotNode(operand: Ref)
    | QuantifierNode(relationship: string, quantifier: QuantifierOp, variable: string, body: Ref)
    | Foreign

  class Node {
    var payload: Payload

    constructor (payload: Payload)
      ensures this.payload == payload
    {
      this.payload := payload;
    }
  }

  // ---- trees in the heap ----

  /** The nodes of the tree t, if the graph at ref is t: no nil, no node reached twice. */
  ghost function Spells(ref: Ref, t: Expr): Option<set<Node>>
    reads *
    decreases t
  {
    if !ref.To? then None
    else
      var node := ref.node;
      match t
      case Comparison(field, op, literal, literals) =>
        if node.payload == ComparisonNode(field, op, literal, literals) then Some({node}) else None
      case Logical(op, left, right) =>
        if !node.payload.LogicalNode? || node.payload.logical != op then None
        else With(node, Apart(Spells(node.payload.left, left), Spells(node.payload.right, right)))
      case Not(operand) =>
        if !node.payload.NotNode? then None else With(node, Spells(node.payload.operand, operand))
      case Quantifier(relationship, quantifier, variable, body) =>
        if !node.payload.QuantifierNode?
          || node.payload.(body := NilRef) != QuantifierNode(relationship, quantifier, variable, NilRef)
        then None
        else With(node, Spells(node.payload.body, body))
  }

  ghost function With(node: Node, below: Option<set<Node>>): Option<set<Node>> {
    if below.None? || node in below.value then None else Some({node} + below.value)
  }

  ghost function Apart(a: Option<set<Node>>, b: Option<set<Node>>): Option<set<Node>> {
    if a.None? || b.None? || a.value * b.value != {} then None else Some(a.value + b.value)
  }

  lemma WithSizes()
    ensures forall node, below :: With(node, below).Some? ==>
      below.Some? && |With(node, below).value| == 1 + |below.value|
    ensures forall a, b :: Apart(a, b).Some? ==> a.Some? && b.Some? && |Apart(a, b).value| == |a.value| + |b.value|
  {
    forall a, b | Apart(a, b).Some?
      ensures |Apart(a, b).value| == |a.value| + |b.value|
    {
      assert |a.value + b.value| == |a.value| + |b.value| - |a.value * b.value|;
    }
  }

  /** A graph is at most one tree, of as many nodes as it has. */
  lemma {:induction false} SpellsOneTree(ref: Ref, t: Expr, u: Expr)
    requires Spells(ref, t).Some?
    ensures Spells(ref, u).Some? ==> t == u
    ensures |Spells(ref, t).value| == Grammar.Size(t)
    decreases t
  {
    hide With, Apart;
    WithSizes();
    var payload := ref.node.payload;
    if t.Logical? {
      SpellsOneTree(payload.left, t.left, if u.Logical? then u.left else u);
      SpellsOneTree(payload.right, t.right, if u.Logical? then u.right else u);
    } else if t.Not? {
      SpellsOneTree(payload.operand, t.operand, if u.Not? then u.operand else u);
    } else if t.Quantifier? {
      SpellsOneTree(payload.body, t.body, if u.Quantifier? then u.body else u);
    }
  }

  // ---- what the guard demands of a tree ----

  function LiteralBytes(literal: Literal): nat {
    if literal.value.StringValue? && |literal.value.text| > |literal.raw| then |literal.value.text| else |literal.raw|
  }

  function PathDepth(path: string): nat {
    if ValidPath(path).None? then 0 else |ValidPath(path).value|
  }

  predicate ComparisonFits(field: string, literal: Literal, literals: seq<Literal>, limits: Limits) {
    && LiteralBytes(literal) <= limits.maxLiteralBytes
    && |literals| <= limits.maxInValues
    && (forall i :: 0 <= i < |literals| ==> LiteralBytes(literals[i]) <= limits.maxLiteralBytes)
    && PathDepth(field) <= limits.maxPathDepth + 1
  }

  predicate QuantifierFits(relationship: string, quantifier: QuantifierOp, variable: string, limits: Limits) {
    quantifier != OtherQuantifier && IsPublicName(variable) && PathDepth(relationship) <= limits.maxPathDepth + 1
  }

  predicate NodesFit(t: Expr, limits: Limits) {
    match t
    case Comparison(field, _, literal, literals) => ComparisonFits(field, literal, literals, limits)
    case Logical(_, left, right) => NodesFit(left, limits) && NodesFit(right, limits)
    case Not(operand) => NodesFit(operand, limits)
    case Quantifier(relationship, quantifier, variable, body) =>
      QuantifierFits(relationship, quantifier, variable, limits) && NodesFit(body, limits)
  }

  function QuantifierNesting(t: Expr): nat {
    match t
    case Comparison(_, _, _, _) => 0
    case Logical(_, left, right) =>
      if QuantifierNesting(left) > QuantifierNesting(right) then QuantifierNesting(left) else QuantifierNesting(right)
    case Not(operand) => QuantifierNesting(operand)
    case Quantifier(_, _, _, body) => 1 + QuantifierNesting(body)
  }

  predicate Admissible(t: Expr, limits: Limits) {
    && Grammar.Size(t) <= limits.maxNodes
    && Grammar.Height(t) <= limits.maxExpressionDepth
    && QuantifierNesting(t) <= limits.maxQuantifierDepth
    && NodesFit(t, limits)
  }

  // ---- the walk ----

  datatype Frame = Frame(ref: Ref, depth: int, quantDepth: int)

  // What the switch on a node's type answers when it rejects the node.
  function Defect(payload: Payload, limits: Limits): Option<ErrorCode> {
    match payload
    case ComparisonNode(field, _, literal, literals) =>
      if ComparisonFits(field, literal, literals, limits) then None else Some(LimitExceeded)
    case QuantifierNode(relationship, quantifier, variable, _) =>
      if quantifier == OtherQuantifier || !IsPublicName(variable) then Some(InvalidSyntax)
      else if PathDepth(relationship) > limits.maxPathDepth + 1 then Some(LimitExceeded)
      else None
    case LogicalNode(_, _, _) => None
    case NotNode(_) => None
    case Foreign => Some(InvalidSyntax)
  }

  // The frames pushed for a node's children; the last is visited first.
  function Children(payload: Payload, depth: int, quantDepth: int): seq<Frame> {
    match payload
    case LogicalNode(_, left, right) => [Frame(right, depth + 1, quantDepth), Frame(left, depth + 1, quantDepth)]
    case NotNode(operand) => [Frame(operand, depth + 1, quantDepth)]
    case QuantifierNode(_, _, _, body) => [Frame(body, depth + 1, quantDepth + 1)]
    case ComparisonNode(_, _, _, _) => []
    case Foreign => []
  }

  // The first reason to reject a frame, in the order of the checks.
  function FrameDefect(f: Frame, seen: set<Node>, limits: Limits): Option<ErrorCode>
    reads if f.ref.To? then {f.ref.node} else {}
  {
    if f.ref == NilRef || (f.ref.To? && f.ref.node in seen) then Some(InvalidSyntax)
    else if |seen| + 1 > limits.maxNodes
      || f.depth > limits.maxExpressionDepth || f.quantDepth > limits.maxQuantifierDepth
    then Some(LimitExceeded)
    else if f.ref == TypedNil then Some(InvalidSyntax)
    else Defect(f.ref.node.payload, limits)
  }

  predicate Passes(f: Frame, seen: set<Node>, limits: Limits)
    reads if f.ref.To? then {f.ref.node} else {}
  {
    FrameDefect(f, seen, limits).None?
  }

  // The walk's answer from a stack of frames on.
  ghost function Verdict(stack: seq<Frame>, seen: set<Node>, limits: Limits): Option<ErrorCode>
    reads *
    decreases if limits.maxNodes > |seen| then limits.maxNodes - |seen| else 0
  {
    if stack == [] then None
    else
      var f, rest := stack[|stack| - 1], stack[..|stack| - 1];
      if !Passes(f, seen, limits) then FrameDefect(f, seen, limits)
      else Verdict(rest + Children(f.ref.node.payload, f.depth, f.quantDepth), seen + {f.ref.node}, limits)
  }

  ghost predicate Accepts(stack: seq<Frame>, seen: set<Node>, limits: Limits)
    reads *
  {
    Verdict(stack, seen, limits).None?
  }

  method ComparisonDefect(field: string, literal: Literal, literals: seq<Literal>, limits: Limits) returns (ok: bool)
    ensures ok == ComparisonFits(field, literal, literals, limits)
  {
    if LiteralBytes(literal) > limits.maxLiteralBytes || |literals| > limits.maxInValues {
      return false;
    }
    for i := 0 to |literals|
      invariant forall k :: 0 <= k < i ==> LiteralBytes(literals[k]) <= limits.maxLiteralBytes
    {
      if LiteralBytes(literals[i]) > limits.maxLiteralBytes {
        return false;
      }
    }
    return PathDepth(field) <= limits.maxPathDepth + 1;
  }

  /** inspectAST: None when it accepts. It looks at no more than maxNodes + 1 frames,
      and accepts exactly the graphs that are admissible trees. */
  method InspectAst(root: Ref, limits: Limits) returns (rejected: Option<ErrorCode>, ghost visits: nat)
    ensures rejected.None? <==> exists t :: Spells(root, t).Some? && Admissible(t, limits)
    ensures rejected == Verdict([Frame(root, 1, 0)], {}, limits)
    ensures visits <= Max(limits.maxNodes, 0) + 1
  {
    AcceptsExactlyTrees(root, limits);
    visits := 0;
    var stack := [Frame(root, 1, 0)];
    var seen: set<Node> := {};
    var nodes := 0;
    while stack != []
      invariant Verdict(stack, seen, limits) == Verdict([Frame(root, 1, 0)], {}, limits)
      invariant nodes == |seen| == visits <= Max(limits.maxNodes, 0)
      decreases Max(limits.maxNodes, 0) - nodes
    {
      visits := visits + 1;
      var current := stack[|stack| - 1];
      stack := stack[..|stack| - 1];
      if current.ref == NilRef {
        return Some(InvalidSyntax), visits;
      }
      if current.ref.To? {
        if current.ref.node in seen {
          return Some(InvalidSyntax), visits;
        }
        seen := seen + {current.ref.node};
      }
      nodes := nodes + 1;
      if nodes > limits.maxNodes {
        return Some(LimitExceeded), visits;
      }
      if current.depth > limits.maxExpressionDepth {
        return Some(LimitExceeded), visits;
      }
      if current.quantDepth > limits.maxQuantifierDepth {
        return Some(LimitExceeded), visits;
      }
      if current.ref == TypedNil {
        return Some(InvalidSyntax), visits;
      }
      var payload := current.ref.node.payload;
      if payload.ComparisonNode? {
        var ok := ComparisonDefect(payload.field, payload.literal, payload.literals, limits);
        if !ok {
          return Some(LimitExceeded), visits;
        }
      } else {
        var defect := Defect(payload, limits);
        if defect.Some? {
          return defect, visits;
        }
      }
      stack := stack + Children(payload, current.depth, current.quantDepth);
    }
    return None, visits;
  }

  // ---- accepting is being a tree ----

  // The demands on a tree at a given depth and quantifier depth.
  predicate FitsAt(t: Expr, depth: int, quantDepth: int, limits: Limits) {
    && depth <= limits.maxExpressionDepth && quantDepth <= limits.maxQuantifierDepth
    && match t
       case Comparison(field, _, literal, literals) => ComparisonFits(field, literal, literals, limits)
       case Logical(_, left, right) =>
         FitsAt(left, depth + 1, quantDepth, limits) && FitsAt(right, depth + 1, quantDepth, limits)
       case Not(operand) => FitsAt(operand, depth + 1, quantDepth, limits)
       case Quantifier(relationship, quantifier, variable, body) =>
         QuantifierFits(relationship, quantifier, variable, limits) && FitsAt(body, depth + 1, quantDepth + 1, limits)
  }

  lemma {:induction false} FitsAtMeans(t: Expr, depth: int, quantDepth: int, limits: Limits)
    ensures FitsAt(t, depth, quantDepth, limits) <==>
      && depth + Grammar.Height(t) - 1 <= limits.maxExpressionDepth
      && quantDepth + QuantifierNesting(t) <= limits.maxQuantifierDepth
      && NodesFit(t, limits)
  {
    match t
    case Comparison(_, _, _, _) =>
    case Logical(_, left, right) =>
      FitsAtMeans(left, depth + 1, quantDepth, limits);
      FitsAtMeans(right, depth + 1, quantDepth, limits);
    case Not(operand) => FitsAtMeans(operand, depth + 1, quantDepth, limits);
    case Quantifier(_, _, _, body) => FitsAtMeans(body, depth + 1, quantDepth + 1, limits);
  }

  // The graph at f is the tree t, apart from what was seen, and within the limits.
  ghost predicate TreeAt(f: Frame, seen: set<Node>, t: Expr, limits: Limits)
    reads *
  {
    var below := Spells(f.ref, t);
    && below.Some? && below.value * seen == {} && |seen + below.value| <= limits.maxNodes
    && FitsAt(t, f.depth, f.quantDepth, limits)
  }

  ghost function SeenAfter(f: Frame, seen: set<Node>, t: Expr): set<Node>
    reads *
  {
    if Spells(f.ref, t).None? then seen else seen + Spells(f.ref, t).value
  }

  lemma AcceptsStep(rest: seq<Frame>, f: Frame, seen: set<Node>, limits: Limits)
    ensures Accepts(rest + [f], seen, limits) <==>
      Passes(f, seen, limits)
        && Accepts(rest + Children(f.ref.node.payload, f.depth, f.quantDepth), seen + {f.ref.node}, limits)
  {
    assert (rest + [f])[..|rest|] == rest;
  }

  lemma Larger(a: set<Node>, b: set<Node>)
    requires a <= b
    ensures |a| <= |b|
  {
    assert b == a + (b - a);
    assert |b| == |a| + |b - a|;
  }

  lemma TreeIsPassed(f: Frame, seen: set<Node>, t: Expr, limits: Limits)
    requires TreeAt(f, seen, t, limits)
    ensures Passes(f, seen, limits)
  {
    var below := Spells(f.ref, t).value;
    assert f.ref.node in below && f.ref.node !in below * seen;
    Larger(seen + {f.ref.node}, seen + below);
    TreePayload(f, seen, t, limits);
    hide Spells;
  }

  lemma PassedFacts(f: Frame, seen: set<Node>, limits: Limits)
    requires Passes(f, seen, limits)
    ensures f.ref.To? && f.ref.node !in seen
    ensures f.depth <= limits.maxExpressionDepth && f.quantDepth <= limits.maxQuantifierDepth
  {}

  lemma LeafTree(f: Frame, seen: set<Node>, limits: Limits)
    requires Passes(f, seen, limits) && f.ref.node.payload.ComparisonNode?
    ensures var p := f.ref.node.payload; var t := Comparison(p.field, p.op, p.literal, p.literals);
      TreeAt(f, seen, t, limits) && SeenAfter(f, seen, t) == seen + {f.ref.node}
  {}

  lemma SpellsUnary(node: Node, t: Expr)
    ensures node.payload.NotNode? && t.Not? ==>
      Spells(To(node), t) == With(node, Spells(node.payload.operand, t.operand))
    ensures node.payload.QuantifierNode? && t.Quantifier?
      && node.payload.(body := NilRef) == QuantifierNode(t.relationship, t.quantifier, t.variable, NilRef)
      ==> Spells(To(node), t) == With(node, Spells(node.payload.body, t.body))
  {}

  lemma UnarySets(node: Node, below: set<Node>, seen: set<Node>)
    requires node !in seen
    ensures node !in below && ({node} + below) * seen == {} <==> below * (seen + {node}) == {}
    ensures seen + ({node} + below) == (seen + {node}) + below
  {
    if below * (seen + {node}) == {} {
      forall x | x in below ensures x !in seen && x != node {
        assert x !in below * (seen + {node});
      }
    }
    if node !in below && ({node} + below) * seen == {} {
      forall x | x in below ensures x !in seen {
        assert x !in ({node} + below) * seen;
      }
    }
  }

  lemma NotTree(f: Frame, g: Frame, seen: set<Node>, t: Expr, limits: Limits)
    requires Passes(f, seen, limits) && f.ref.node.payload.NotNode? && t.Not?
    requires g == Frame(f.ref.node.payload.operand, f.depth + 1, f.quantDepth)
    ensures var now := seen + {f.ref.node};
      && (TreeAt(f, seen, t, limits) <==> TreeAt(g, now, t.operand, limits))
      && (TreeAt(f, seen, t, limits) ==> SeenAfter(f, seen, t) == SeenAfter(g, now, t.operand))
  {
    hide Spells, Defect, NodesFit;
    assert Spells(f.ref, t) == With(f.ref.node, Spells(g.ref, t.operand)) by { SpellsUnary(f.ref.node, t); }
    if Spells(g.ref, t.operand).Some? {
      UnarySets(f.ref.node, Spells(g.ref, t.operand).value, seen);
    }
  }

  lemma QuantifierTree(f: Frame, g: Frame, seen: set<Node>, t: Expr, limits: Limits)
    requires Passes(f, seen, limits) && f.ref.node.payload.QuantifierNode? && t.Quantifier?
    requires f.ref.node.payload.(body := NilRef) == QuantifierNode(t.relationship, t.quantifier, t.variable, NilRef)
    requires g == Frame(f.ref.node.payload.body, f.depth + 1, f.quantDepth + 1)
    ensures var now := seen + {f.ref.node};
      && (TreeAt(f, seen, t, limits) <==> TreeAt(g, now, t.body, limits))
      && (TreeAt(f, seen, t, limits) ==> SeenAfter(f, seen, t) == SeenAfter(g, now, t.body))
  {
    hide Spells, PathDepth, IsPublicName, NodesFit;
    assert Spells(f.ref, t) == With(f.ref.node, Spells(g.ref, t.body)) by { SpellsUnary(f.ref.node, t); }
    if Spells(g.ref, t.body).Some? {
      UnarySets(f.ref.node, Spells(g.ref, t.body).value, seen);
    }
  }

  lemma LogicalTree(f: Frame, l: Frame, r: Frame, seen: set<Node>, t: Expr, limits: Limits)
    requires Passes(f, seen, limits) && f.ref.node.payload.LogicalNode? && t.Logical?
      && f.ref.node.payload.logical == t.logical
    requires l == Frame(f.ref.node.payload.left, f.depth + 1, f.quantDepth)
    requires r == Frame(f.ref.node.payload.right, f.depth + 1, f.quantDepth)
    ensures var now := seen + {f.ref.node};
      && (TreeAt(f, seen, t, limits) <==>
            TreeAt(l, now, t.left, limits) && TreeAt(r, SeenAfter(l, now, t.left), t.right, limits))
      && (TreeAt(f, seen, t, limits) ==> SeenAfter(f, seen, t) == SeenAfter(r, SeenAfter(l, now, t.left), t.right))
  {
    hide Spells, Passes, NodesFit;
    PassedFacts(f, seen, limits);
    SpellsLogical(f.ref.node, t);
    var a, b := Spells(l.ref, t.left), Spells(r.ref, t.right);
    if a.Some? && b.Some? {
      ApartSets(f.ref.node, a.value, b.value, seen);
      Larger(seen + {f.ref.node} + a.value, seen + {f.ref.node} + a.value + b.value);
    }
  }

  lemma SpellsLogical(node: Node, t: Expr)
    requires node.payload.LogicalNode? && t.Logical? && node.payload.logical == t.logical
    ensures Spells(To(node), t) ==
      With(node, Apart(Spells(node.payload.left, t.left), Spells(node.payload.right, t.right)))
  {}

  lemma ApartSets(node: Node, a: set<Node>, b: set<Node>, seen: set<Node>)
    requires node !in seen
    ensures a * b == {} && node !in a + b && ({node} + (a + b)) * seen == {} <==>
      a * (seen + {node}) == {} && b * (seen + {node} + a) == {}
    ensures seen + ({node} + (a + b)) == seen + {node} + a + b
  {
    if a * (seen + {node}) == {} && b * (seen + {node} + a) == {} {
      forall x | x in a ensures x !in b && x !in seen && x != node {
        assert x !in a * (seen + {node}) && x !in b * (seen + {node} + a);
      }
      forall x | x in b ensures x !in a && x !in seen && x != node {
        assert x !in b * (seen + {node} + a);
      }
    }
    if a * b == {} && node !in a + b && ({node} + (a + b)) * seen == {} {
      forall x | x in a + b ensures x !in seen {
        assert x !in ({node} + (a + b)) * seen;
      }
      forall x | x in a ensures x !in b { assert x !in a * b; }
    }
  }

  lemma {:induction false} AcceptedTopIsTree(rest: seq<Frame>, f: Frame, seen: set<Node>, limits: Limits)
    returns (t: Expr)
    requires Accepts(rest + [f], seen, limits)
    ensures TreeAt(f, seen, t, limits) && Accepts(rest, SeenAfter(f, seen, t), limits)
    decreases if limits.maxNodes > |seen| then limits.maxNodes - |seen| else 0
  {
    hide Accepts, TreeAt, Defect, SeenAfter;
    AcceptsStep(rest, f, seen, limits);
    var payload := f.ref.node.payload;
    var now := seen + {f.ref.node};
    if payload.ComparisonNode? {
      LeafTree(f, seen, limits);
      assert rest + [] == rest;
      t := Comparison(payload.field, payload.op, payload.literal, payload.literals);
    } else if payload.NotNode? {
      var g := Frame(payload.operand, f.depth + 1, f.quantDepth);
      var below := AcceptedTopIsTree(rest, g, now, limits);
      t := Not(below);
      NotTree(f, g, seen, t, limits);
    } else if payload.QuantifierNode? {
      var g := Frame(payload.body, f.depth + 1, f.quantDepth + 1);
      var below := AcceptedTopIsTree(rest, g, now, limits);
      t := Quantifier(payload.relationship, payload.quantifier, payload.variable, below);
      QuantifierTree(f, g, seen, t, limits);
    } else {
      ForeignFails(payload, limits);
      var l, r := Frame(payload.left, f.depth + 1, f.quantDepth), Frame(payload.right, f.depth + 1, f.quantDepth);
      assert rest + [r, l] == (rest + [r]) + [l];
      var first := AcceptedTopIsTree(rest + [r], l, now, limits);
      var later := SeenAfter(l, now, first);
      SeenGrows(l, now, first);
      var second := AcceptedTopIsTree(rest, r, later, limits);
      t := Logical(payload.logical, first, second);
      LogicalTree(f, l, r, seen, t, limits);
    }
  }

  lemma ForeignFails(payload: Payload, limits: Limits)
    ensures Defect(payload, limits).None? ==> !payload.Foreign?
  {}

  lemma SeenGrows(f: Frame, seen: set<Node>, t: Expr)
    ensures |seen| <= |SeenAfter(f, seen, t)|
  {
    Larger(seen, SeenAfter(f, seen, t));
  }

  lemma {:induction false} TreeOnTopIsAccepted(rest: seq<Frame>, f: Frame, seen: set<Node>, t: Expr, limits: Limits)
    requires TreeAt(f, seen, t, limits) && Accepts(rest, SeenAfter(f, seen, t), limits)
    ensures Accepts(rest + [f], seen, limits)
    decreases t
  {
    hide Accepts, TreeAt, Defect, SeenAfter;
    TreeIsPassed(f, seen, t, limits);
    AcceptsStep(rest, f, seen, limits);
    TreePayload(f, seen, t, limits);
    var payload := f.ref.node.payload;
    var now := seen + {f.ref.node};
    if t.Comparison? {
      LeafTree(f, seen, limits);
      assert rest + [] == rest;
    } else if t.Not? {
      var g := Frame(payload.operand, f.depth + 1, f.quantDepth);
      NotTree(f, g, seen, t, limits);
      TreeOnTopIsAccepted(rest, g, now, t.operand, limits);
    } else if t.Quantifier? {
      var g := Frame(payload.body, f.depth + 1, f.quantDepth + 1);
      QuantifierTree(f, g, seen, t, limits);
      TreeOnTopIsAccepted(rest, g, now, t.body, limits);
    } else {
      var l, r := Frame(payload.left, f.depth + 1, f.quantDepth), Frame(payload.right, f.depth + 1, f.quantDepth);
      LogicalTree(f, l, r, seen, t, limits);
      TreeOnTopIsAccepted(rest, r, SeenAfter(l, now, t.left), t.right, limits);
      TreeOnTopIsAccepted(rest + [r], l, now, t.left, limits);
      assert rest + [r, l] == (rest + [r]) + [l];
    }
  }

  lemma TreePayload(f: Frame, seen: set<Node>, t: Expr, limits: Limits)
    requires TreeAt(f, seen, t, limits)
    ensures var p := f.ref.node.payload;
      if t.Comparison? then p == ComparisonNode(t.field, t.op, t.literal, t.literals)
      else if t.Not? then p.NotNode?
      else if t.Logical? then p.LogicalNode? && p.logical == t.logical
      else p.QuantifierNode? && p.(body := NilRef) == QuantifierNode(t.relationship, t.quantifier, t.variable, NilRef)
  {}

  /** The walk accepts a graph if and only if it is a tree the limits admit. */
  lemma AcceptsExactlyTrees(root: Ref, limits: Limits)
    ensures Accepts([Frame(root, 1, 0)], {}, limits) <==> exists t :: Spells(root, t).Some? && Admissible(t, limits)
  {
    var f := Frame(root, 1, 0);
    assert [] + [f] == [f];
    if Accepts([f], {}, limits) {
      var t := AcceptedTopIsTree([], f, {}, limits);
      FitsAtMeans(t, 1, 0, limits);
      SpellsOneTree(root, t, t);
      assert {} + Spells(root, t).value == Spells(root, t).value;
    }
    forall t | Spells(root, t).Some? && Admissible(t, limits)
      ensures Accepts([f], {}, limits)
    {
      FitsAtMeans(t, 1, 0, limits);
      SpellsOneTree(root, t, t);
      assert {} + Spells(root, t).value == Spells(root, t).value;
      TreeOnTopIsAccepted([], f, {}, t, limits);
    }
  }

  // ---- the answer on a tree ----

  function TreeDefect(t: Expr, limits: Limits): Option<ErrorCode> {
    match t
    case Comparison(field, op, literal, literals) => Defect(ComparisonNode(field, op, literal, literals), limits)
    case Logical(op, _, _) => None
    case Not(_) => None
    case Quantifier(relationship, quantifier, variable, _) =>
      Defect(QuantifierNode(relationship, quantifier, variable, NilRef), limits)
  }

  /** inspectAST on a tree, node by node from the left: the first defect, or the number
      of nodes counted when it starts from count. */
  function Inspect(t: Expr, depth: int, quantDepth: int, count: nat, limits: Limits): Result<nat> {
    if count + 1 > limits.maxNodes || depth > limits.maxExpressionDepth || quantDepth > limits.maxQuantifierDepth
    then Err(LimitExceeded)
    else if TreeDefect(t, limits).Some? then Err(TreeDefect(t, limits).value)
    else
      match t
      case Comparison(_, _, _, _) => Ok(count + 1)
      case Not(operand) => Inspect(operand, depth + 1, quantDepth, count + 1, limits)
      case Quantifier(_, _, _, body) => Inspect(body, depth + 1, quantDepth + 1, count + 1, limits)
      case Logical(_, left, right) =>
        var counted :- Inspect(left, depth + 1, quantDepth, count + 1, limits);
        Inspect(right, depth + 1, quantDepth, counted, limits)
  }

  function InspectTree(t: Expr, limits: Limits): Option<ErrorCode> {
    var counted := Inspect(t, 1, 0, 0, limits);
    if counted.Ok? then None else Some(counted.code)
  }

  lemma {:induction false} InspectAccepts(t: Expr, depth: int, quantDepth: int, count: nat, limits: Limits)
    ensures var counted := Inspect(t, depth, quantDepth, count, limits);
      && (counted.Ok? <==> FitsAt(t, depth, quantDepth, limits) && count + Grammar.Size(t) <= limits.maxNodes)
      && (counted.Ok? ==> counted.value == count + Grammar.Size(t))
  {
    hide ComparisonFits, PathDepth;
    match t
    case Comparison(_, _, _, _) =>
    case Logical(_, left, right) =>
      InspectAccepts(left, depth + 1, quantDepth, count + 1, limits);
      InspectAccepts(right, depth + 1, quantDepth, count + 1 + Grammar.Size(left), limits);
    case Not(operand) => InspectAccepts(operand, depth + 1, quantDepth, count + 1, limits);
    case Quantifier(_, _, _, body) => InspectAccepts(body, depth + 1, quantDepth + 1, count + 1, limits);
  }

  lemma TreesAccepted(t: Expr, limits: Limits)
    ensures InspectTree(t, limits).None? <==> Admissible(t, limits)
  {
    InspectAccepts(t, 1, 0, 0, limits);
    FitsAtMeans(t, 1, 0, limits);
  }

  lemma VerdictStep(rest: seq<Frame>, f: Frame, seen: set<Node>, limits: Limits)
    ensures Verdict(rest + [f], seen, limits) ==
      if Passes(f, seen, limits)
      then Verdict(rest + Children(f.ref.node.payload, f.depth, f.quantDepth), seen + {f.ref.node}, limits)
      else FrameDefect(f, seen, limits)
  {
    assert (rest + [f])[..|rest|] == rest;
  }

  // The walk over a tree on top of the stack, apart from what was seen.
  lemma {:induction false} VerdictOnTop(rest: seq<Frame>, f: Frame, seen: set<Node>, t: Expr, limits: Limits)
    requires Spells(f.ref, t).Some? && Spells(f.ref, t).value * seen == {}
    ensures Verdict(rest + [f], seen, limits) ==
      var counted := Inspect(t, f.depth, f.quantDepth, |seen|, limits);
      if counted.Err? then Some(counted.code) else Verdict(rest, SeenAfter(f, seen, t), limits)
    decreases t
  {
    hide Verdict, Defect, SeenAfter, Spells;
    VerdictStep(rest, f, seen, limits);
    SpellsFrame(f, seen, t, limits);
    var payload := f.ref.node.payload;
    var now := seen + {f.ref.node};
    if Passes(f, seen, limits) {
      if t.Comparison? {
        assert rest + [] == rest;
      } else if t.Not? {
        VerdictOnTop(rest, Frame(payload.operand, f.depth + 1, f.quantDepth), now, t.operand, limits);
      } else if t.Quantifier? {
        VerdictOnTop(rest, Frame(payload.body, f.depth + 1, f.quantDepth + 1), now, t.body, limits);
      } else {
        var l, r := Frame(payload.left, f.depth + 1, f.quantDepth), Frame(payload.right, f.depth + 1, f.quantDepth);
        assert rest + [r, l] == (rest + [r]) + [l];
        VerdictOnTop(rest + [r], l, now, t.left, limits);
        var later := SeenAfter(l, now, t.left);
        InspectAccepts(t.left, l.depth, l.quantDepth, |now|, limits);
        VerdictOnTop(rest, r, later, t.right, limits);
      }
    }
  }

  // What a frame on a tree has to do with the tree's top.
  lemma SpellsFrame(f: Frame, seen: set<Node>, t: Expr, limits: Limits)
    requires Spells(f.ref, t).Some? && Spells(f.ref, t).value * seen == {}
    ensures f.ref.To? && f.ref.node !in seen && |seen + {f.ref.node}| == |seen| + 1
    ensures TreeDefect(t, limits) == Defect(f.ref.node.payload, limits)
    ensures var p := f.ref.node.payload; var now := seen + {f.ref.node};
      if t.Comparison? then Children(p, f.depth, f.quantDepth) == [] && SeenAfter(f, seen, t) == now
      else if t.Not? then
        && p.NotNode? && Spells(p.operand, t.operand).Some? && Spells(p.operand, t.operand).value * now == {}
        && SeenAfter(f, seen, t) == SeenAfter(Frame(p.operand, f.depth + 1, f.quantDepth), now, t.operand)
      else if t.Quantifier? then
        && p.QuantifierNode? && Spells(p.body, t.body).Some? && Spells(p.body, t.body).value * now == {}
        && SeenAfter(f, seen, t) == SeenAfter(Frame(p.body, f.depth + 1, f.quantDepth + 1), now, t.body)
      else
        && p.LogicalNode? && Spells(p.left, t.left).Some? && Spells(p.left, t.left).value * now == {}
        && var later := SeenAfter(Frame(p.left, f.depth + 1, f.quantDepth), now, t.left);
           && |later| == |now| + Grammar.Size(t.left)
           && Spells(p.right, t.right).Some? && Spells(p.right, t.right).value * later == {}
           && SeenAfter(f, seen, t) == SeenAfter(Frame(p.right, f.depth + 1, f.quantDepth), later, t.right)
  {
    SpellsRoot(f.ref, t, limits);
    hide TreeDefect, Defect;
    var node := f.ref.node;
    assert node !in seen by { assert node !in Spells(f.ref, t).value * seen; }
    if t.Logical? {
      SpellsLogicalFrame(f, seen, t);
    } else if !t.Comparison? {
      SpellsUnaryFrame(f, seen, t);
    }
  }

  lemma SpellsRoot(ref: Ref, t: Expr, limits: Limits)
    requires Spells(ref, t).Some?
    ensures ref.To? && ref.node in Spells(ref, t).value
    ensures TreeDefect(t, limits) == Defect(ref.node.payload, limits)
    ensures t.Comparison? ==> Spells(ref, t).value == {ref.node}
  {
    hide PathDepth, ComparisonFits;
  }

  lemma SpellsUnaryFrame(f: Frame, seen: set<Node>, t: Expr)
    requires Spells(f.ref, t).Some? && Spells(f.ref, t).value * seen == {} && f.ref.node !in seen
    ensures var p := f.ref.node.payload; var now := seen + {f.ref.node};
      && (t.Not? ==>
            && p.NotNode? && Spells(p.operand, t.operand).Some? && Spells(p.operand, t.operand).value * now == {}
            && SeenAfter(f, seen, t) == SeenAfter(Frame(p.operand, f.depth + 1, f.quantDepth), now, t.operand))
      && (t.Quantifier? ==>
            && p.QuantifierNode? && Spells(p.body, t.body).Some? && Spells(p.body, t.body).value * now == {}
            && SeenAfter(f, seen, t) == SeenAfter(Frame(p.body, f.depth + 1, f.quantDepth + 1), now, t.body))
  {
    var node := f.ref.node;
    SpellsUnary(node, t);
    if t.Not? {
      UnarySets(node, Spells(node.payload.operand, t.operand).value, seen);
    } else if t.Quantifier? {
      UnarySets(node, Spells(node.payload.body, t.body).value, seen);
    }
  }

  lemma SpellsLogicalFrame(f: Frame, seen: set<Node>, t: Expr)
    requires t.Logical? && Spells(f.ref, t).Some? && Spells(f.ref, t).value * seen == {} && f.ref.node !in seen
    ensures var p := f.ref.node.payload; var now := seen + {f.ref.node};
      && p.LogicalNode? && Spells(p.left, t.left).Some? && Spells(p.left, t.left).value * now == {}
      && var later := SeenAfter(Frame(p.left, f.depth + 1, f.quantDepth), now, t.left);
         && |later| == |now| + Grammar.Size(t.left)
         && Spells(p.right, t.right).Some? && Spells(p.right, t.right).value * later == {}
         && SeenAfter(f, seen, t) == SeenAfter(Frame(p.right, f.depth + 1, f.quantDepth), later, t.right)
  {
    var node := f.ref.node;
    assert node.payload.LogicalNode? && node.payload.logical == t.logical;
    SpellsLogical(node, t);
    hide Spells;
    var a, b := Spells(node.payload.left, t.left).value, Spells(node.payload.right, t.right).value;
    ApartSets(node, a, b, seen);
    SpellsOneTree(node.payload.left, t.left, t.left);
    assert |seen + {node} + a| == |seen + {node}| + |a| - |(seen + {node}) * a|;
  }

  /** On a tree the walk answers what the preorder inspection answers, code included. */
  lemma VerdictOnTree(root: Ref, t: Expr, limits: Limits)
    requires Spells(root, t).Some?
    ensures Verdict([Frame(root, 1, 0)], {}, limits) == InspectTree(t, limits)
  {
    hide Inspect;
    assert [] + [Frame(root, 1, 0)] == [Frame(root, 1, 0)];
    VerdictOnTop([], Frame(root, 1, 0), {}, t, limits);
  }
}
