/** What the two tests of the engine answer, said of names, node types, ancestors and siblings alone. */
module SizzleAnswers {
  import opened Wrappers
  import opened Dom
  import opened Sizzle

  // ---------- where a search stops ----------

  ghost predicate InTree(engine: Engine, e: Node?)
    reads engine, engine.nodes
  {
    Tree(engine.nodes) && (e != null ==> e in engine.nodes)
  }

  /** x is the first node from e upwards at which the goal stops. */
  ghost predicate IsFirstStop(engine: Engine, e: Node?, goal: Goal, left: map<Node, nat>, x: Node)
    requires InTree(engine, e)
    reads engine, engine.nodes
  {
    && x in engine.nodes && engine.Above(x, e) && At(goal, x, left).Some?
    && forall y | y in engine.nodes && engine.Above(y, e) && engine.Above(x, y) && y != x :: At(goal, y, left).None?
  }

  lemma {:induction false} FirstStopAnswers(engine: Engine, e: Node?, goal: Goal, left: map<Node, nat>, x: Node)
    requires InTree(engine, e) && IsFirstStop(engine, e, goal, left, x)
    ensures Some(engine.Search(e, goal, left)) == At(goal, x, left)
    decreases if e == null then 0 else e.depth + 1
  {
    if e != null && x != e {
      assert engine.Above(e, e) && engine.Above(x, e);
      assert IsFirstStop(engine, e.parentNode, goal, left, x);
      FirstStopAnswers(engine, e.parentNode, goal, left, x);
    }
  }

  lemma {:induction false} HasFirstStop(engine: Engine, e: Node?, goal: Goal, left: map<Node, nat>) returns (x: Node?)
    requires InTree(engine, e)
    ensures x == null <==> engine.Search(e, goal, left) == No
    ensures x != null ==> IsFirstStop(engine, e, goal, left, x)
    ensures x == null ==> forall y | y in engine.nodes && engine.Above(y, e) :: At(goal, y, left).None?
    decreases if e == null then 0 else e.depth + 1
  {
    if e == null {
      x := null;
    } else if At(goal, e, left).Some? {
      x := e;
      forall y | y in engine.nodes && engine.Above(y, e) && engine.Above(e, y) && y != e ensures false {
        engine.AboveIsHigher(y);
        assert engine.Above(y, e.parentNode);
        var parent: Node := e.parentNode;
        engine.AboveIsHigher(parent);
      }
    } else {
      x := HasFirstStop(engine, e.parentNode, goal, left);
    }
  }

  /** x is an ancestor of n, its parent included, that fits, and none between the two does. */
  ghost predicate IsNearest(engine: Engine, n: Node, fits: set<Node>, x: Node)
    requires InTree(engine, n) && fits <= engine.nodes
    reads engine, engine.nodes
  {
    && x in fits && engine.Above(x, n.parentNode)
    && forall y | y in fits && engine.Above(y, n.parentNode) && engine.Above(x, y) :: y == x
  }

  ghost predicate HasNone(engine: Engine, n: Node, fits: set<Node>)
    requires InTree(engine, n) && fits <= engine.nodes
    reads engine, engine.nodes
  {
    forall y | y in fits :: !engine.Above(y, n.parentNode)
  }

  /** The answer is the nearest ancestor of n that fits, and `false` exactly if there is none. */
  ghost predicate AnswersNearest(engine: Engine, n: Node, fits: set<Node>, answer: Slot)
    requires InTree(engine, n) && fits <= engine.nodes
    reads engine, engine.nodes
  {
    && (forall x | x in engine.nodes :: answer == Found(x) <==> IsNearest(engine, n, fits, x))
    && (answer == No <==> HasNone(engine, n, fits))
    && (answer.Found? ==> answer.node in engine.nodes) && answer != Yes
  }

  lemma NearestIsFound(engine: Engine, n: Node, goal: Goal, left: map<Node, nat>, fits: set<Node>)
    requires InTree(engine, n) && fits <= engine.nodes
    requires forall x | x in engine.nodes :: At(goal, x, left) == if x in fits then Some(Found(x)) else None
    ensures AnswersNearest(engine, n, fits, engine.Answer(Found(n), goal, left))
  {
    var answer := engine.Answer(Found(n), goal, left);
    var stop := HasFirstStop(engine, n.parentNode, goal, left);
    if stop != null {
      FirstStopAnswers(engine, n.parentNode, goal, left, stop);
    }
    forall x | x in engine.nodes
      ensures answer == Found(x) <==> IsNearest(engine, n, fits, x)
    {
      if IsNearest(engine, n, fits, x) {
        assert IsFirstStop(engine, n.parentNode, goal, left, x);
        FirstStopAnswers(engine, n.parentNode, goal, left, x);
      }
    }
  }

  // ---------- the three goals ----------

  ghost function Named(engine: Engine, z: string): set<Node> {
    set x | x in engine.nodes && x.nodeName == z
  }

  /** A search by name, from a slot that holds n. */
  lemma NameIsFound(engine: Engine, n: Node, z: string, left: map<Node, nat>)
    requires InTree(engine, n)
    ensures AnswersNearest(engine, n, Named(engine, z), engine.Answer(Found(n), Name(z), left))
  {
    NearestIsFound(engine, n, Name(z), left, Named(engine, z));
  }

  /** A search for one node: `true` exactly if that is an element above n, `false` otherwise. */
  lemma NodeIsFound(engine: Engine, n: Node, node: Node, left: map<Node, nat>)
    requires InTree(engine, n)
    ensures engine.Answer(Found(n), Same(node), left) ==
            if node in engine.nodes && node.nodeType == 1 && engine.Above(node, n.parentNode) then Yes else No
  {
    var stop := HasFirstStop(engine, n.parentNode, Same(node), left);
    if stop != null {
      FirstStopAnswers(engine, n.parentNode, Same(node), left, stop);
    }
  }

  /** x is a child at a position a*n+b, as the filter decides it: by the elements before it, or outside any
      parent by the index left over. */
  ghost predicate IsChildAt(x: Node, a: int, b: int, left: map<Node, nat>)
    reads x`parentNode, Parents(x)`childNodes
  {
    || (a == 1 && b == 0)
    || (if x.parentNode != null then
          exists i: nat :: i < |x.parentNode.childNodes| && x.parentNode.childNodes[i] == x && x.nodeType == 1
                           && exists n: nat :: 1 + |ElementsBefore(x.parentNode.childNodes, i)| == a * n + b
        else
          x in left && left[x] > 0 && exists n: nat :: left[x] == a * n + b)
  }

  lemma ChildAtIsExact(engine: Engine, x: Node, a: int, b: int, left: map<Node, nat>)
    requires InTree(engine, x)
    ensures IsChildAt(x, a, b, left) <==> (a == 1 && b == 0) || IsNthByIndex(x, a, b, left)
  {
    if x.parentNode != null {
      var s := x.parentNode.childNodes;
      forall i | 0 <= i < |s| && s[i] == x && x.nodeType == 1
        ensures PositionIn(s, x) == 1 + |ElementsBefore(s, i)|
      {
        PositionIsCount(s, i);
      }
    }
  }

  /** The elements that a part accepts: of its name, or of any for the star, and at its position. */
  ghost function Accepted(engine: Engine, part: Part, left: map<Node, nat>): set<Node>
    requires InTree(engine, null)
    reads engine, engine.nodes
  {
    set x | && x in engine.nodes && x.nodeType == 1 && (part.name == "*" || x.nodeName == part.name)
            && (part.nth.Some? ==> IsChildAt(x, part.nth.value.0, part.nth.value.1, left))
  }

  /** A search by a part. */
  lemma PartIsFound(engine: Engine, n: Node, part: Part, left: map<Node, nat>)
    requires InTree(engine, n)
    ensures AnswersNearest(engine, n, Accepted(engine, part, left), engine.Answer(Found(n), Matching(part), left))
  {
    forall x | x in engine.nodes
      ensures At(Matching(part), x, left) == if x in Accepted(engine, part, left) then Some(Found(x)) else None
    {
      if part.nth.Some? {
        ChildAtIsExact(engine, x, part.nth.value.0, part.nth.value.1, left);
      }
    }
    NearestIsFound(engine, n, Matching(part), left, Accepted(engine, part, left));
  }

  // ---------- slots and replies ----------

  /** What a slot holds after a search. */
  ghost predicate IsAnswer(engine: Engine, slot: Slot, goal: Goal, left: map<Node, nat>, answer: Slot)
    requires Tree(engine.nodes) && (slot.Found? ==> slot.node in engine.nodes)
    reads engine, engine.nodes
  {
    match slot
    case Found(n) =>
      (match goal
       case Name(z) => AnswersNearest(engine, n, Named(engine, z), answer)
       case Matching(part) => AnswersNearest(engine, n, Accepted(engine, part, left), answer)
       case Same(node) =>
         var isAbove := node in engine.nodes && node.nodeType == 1 && engine.Above(node, n.parentNode);
         answer == if isAbove then Yes else No)
    case _ => answer == No
  }

  lemma SlotIsAnswered(engine: Engine, slot: Slot, goal: Goal, left: map<Node, nat>)
    requires Tree(engine.nodes) && (slot.Found? ==> slot.node in engine.nodes)
    ensures IsAnswer(engine, slot, goal, left, engine.Answer(slot, goal, left))
  {
    if slot.Found? {
      match goal {
        case Name(z) => NameIsFound(engine, slot.node, z, left);
        case Matching(part) => PartIsFound(engine, slot.node, part, left);
        case Same(node) => NodeIsFound(engine, slot.node, node, left);
      }
    }
  }

  /** The walk of functions q and t, with what it leaves in the slots. */
  method WalkAncestors(engine: Engine, AD: array<Slot>, goal: Goal, isXml: bool)
    requires engine.Valid()
    requires forall w | 0 <= w < AD.Length && AD[w].Found? :: AD[w].node in engine.nodes
    modifies engine, AD, engine.nodes`sizcache, engine.nodes`sizset, engine.nodes`nodeIndex
    ensures engine.Valid() && engine.Leftover() == old(engine.Leftover())
    ensures forall w | 0 <= w < AD.Length :: IsAnswer(engine, old(AD[w]), goal, engine.Leftover(), AD[w])
  {
    ghost var before := AD[..];
    engine.Walk(AD, goal, isXml);
    forall w | 0 <= w < AD.Length
      ensures IsAnswer(engine, before[w], goal, engine.Leftover(), AD[w])
    {
      SlotIsAnswered(engine, before[w], goal, engine.Leftover());
    }
  }

  ghost predicate IsReply(engine: Engine, script: seq<Step>, i: nat, left: map<Node, nat>, reply: Reply)
    requires Tree(engine.nodes) && i < |script| && engine.IsStep(script, i)
    reads engine, engine.nodes
  {
    match script[i]
    case Issue(_, _) => reply == Issued
    case Ask(k, e) => reply == Nth(IsChildAt(e, script[k].a, script[k].b, left))
    case Ancestors(slots, goal, _) =>
      && reply.Slots? && |reply.slots| == |slots|
      && forall w | 0 <= w < |slots| :: IsAnswer(engine, slots[w], goal, left, reply.slots[w])
  }

  /** The replies without caches are these. */
  lemma ReferenceIsReply(engine: Engine, script: seq<Step>, i: nat, left: map<Node, nat>)
    requires Tree(engine.nodes) && i < |script| && engine.IsStep(script, i)
    ensures IsReply(engine, script, i, left, engine.Reference(script, i, left))
  {
    match script[i] {
      case Issue(_, _) =>
      case Ask(k, e) => ChildAtIsExact(engine, e, script[k].a, script[k].b, left);
      case Ancestors(slots, goal, _) =>
        forall w | 0 <= w < |slots|
          ensures IsAnswer(engine, slots[w], goal, left, engine.Answers(slots, goal, left)[w])
        {
          SlotIsAnswered(engine, slots[w], goal, left);
        }
    }
  }
}
