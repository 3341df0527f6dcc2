/**
 The two caches of Sizzle: the ancestor search of the descendant combinator and the sibling index of
 `:nth-child`.  Both mark nodes in the one field `sizcache`, with stamps from one counter.
 */
module Sizzle {
  import opened Wrappers
  import opened Dom

  /** What a checked slot holds: an element or node still in play, `true`, or `false`. */
  datatype Slot = No | Yes | Found(node: Node)

  /** A simple selector as `filter` tests it: a name and an optional nth-child argument pair. */
  datatype Part = Part(name: string, nth: Option<(int, int)>)

  /** What an ancestor search looks for: a plain name (function q), or a part or one given node
      (function t). */
  datatype Goal = Name(name: string) | Matching(part: Part) | Same(node: Node)

  /** One use of the engine: a new nth-child selector, a test of e by the selector of step k, or an
      ancestor search for a list of slots. */
  datatype Step = Issue(a: int, b: int) | Ask(k: nat, e: Node) | Ancestors(slots: seq<Slot>, goal: Goal, isXml: bool)

  datatype Reply = Issued | Nth(answer: bool) | Slots(slots: seq<Slot>)

  // ---------- the uncached reference ----------

  /** nth-child without any cache.  Outside a parent there is no position. */
  ghost predicate IsNthChild(e: Node, a: int, b: int)
    reads e`parentNode, Parents(e)`childNodes
  {
    e.parentNode != null && e.nodeType == ELEMENT && InCycle(PositionIn(e.parentNode.childNodes, e), a, b)
  }

  /** What the code makes of it: outside a parent it goes by the index left over from an earlier one. */
  ghost predicate IsNthByIndex(e: Node, a: int, b: int, left: map<Node, nat>)
    reads e`parentNode, Parents(e)`childNodes
  {
    if e.parentNode != null then IsNthChild(e, a, b) else e in left && left[e] != 0 && InCycle(left[e], a, b)
  }

  /** The two agree exactly where no index is left over that is in the cycle. */
  lemma LeftoverDecides(e: Node, a: int, b: int, left: map<Node, nat>)
    ensures (IsNthByIndex(e, a, b, left) <==> IsNthChild(e, a, b))
       <==> e.parentNode != null || e !in left || left[e] == 0 || !InCycle(left[e], a, b)
  {
  }

  ghost predicate Accepts(part: Part, e: Node, left: map<Node, nat>)
    reads e`parentNode, Parents(e)`childNodes
  {
    && (part.nth.Some? ==>
          var (a, b) := part.nth.value;
          if a == 1 && b == 0 then true else IsNthByIndex(e, a, b, left))
    && ((part.name == "*" && e.nodeType == ELEMENT) || e.nodeName == part.name)
  }

  /** The answer at e itself, if the search stops there. */
  ghost function At(goal: Goal, e: Node, left: map<Node, nat>): Option<Slot>
    reads e`parentNode, Parents(e)`childNodes
  {
    match goal
    case Name(z) => if e.nodeName == z then Some(Found(e)) else None
    case Matching(part) => if e.nodeType == ELEMENT && Accepts(part, e, left) then Some(Found(e)) else None
    case Same(node) => if e.nodeType == ELEMENT && e == node then Some(Yes) else None
  }

  class Engine {
    const nodes: set<Node>
    var m: nat                        // the next stamp
    ghost var childStamps: set<nat>   // the stamps handed to nth-child tests
    ghost var since: nat              // stamps from here on are younger than the last edit of the tree

    constructor (nodes: set<Node>)
      requires Tree(nodes) && forall n | n in nodes :: n.sizcache == None && n.nodeIndex == 0
      ensures this.nodes == nodes && Valid()
    {
      this.nodes := nodes;
      m, childStamps, since := 0, {}, 0;
    }

    /** A parent marked by a current nth-child stamp has correctly numbered element children. */
    ghost predicate Valid()
      reads this, nodes
    {
      && Tree(nodes) && since <= m
      && (forall n | n in nodes && n.nodeType != ELEMENT :: n.nodeIndex == 0)
      && (forall s | s in childStamps :: s < m)
      && (forall n | n in nodes && n.sizcache.Some? :: n.sizcache.value < m)
      && (forall n | n in nodes && n.sizcache.Some? && since <= n.sizcache.value && n.sizcache.value in childStamps ::
            Numbered(n))
    }

    ghost predicate Numbered(n: Node)
      reads n, n.childNodes
    {
      forall i | 0 <= i < |n.childNodes| && n.childNodes[i].nodeType == ELEMENT ::
        n.childNodes[i].nodeIndex == Elements(n.childNodes[..i + 1])
    }

    /** The nearest inclusive ancestor that the goal stops at, found without any cache. */
    ghost function Search(e: Node?, goal: Goal, left: map<Node, nat>): Slot
      requires Tree(nodes) && (e != null ==> e in nodes)
      reads nodes`parentNode, nodes`childNodes, nodes`depth
      decreases if e == null then 0 else e.depth + 1
    {
      if e == null then No
      else if At(goal, e, left).Some? then At(goal, e, left).value
      else Search(e.parentNode, goal, left)
    }

    /** x is e or above it. */
    ghost predicate Above(x: Node, e: Node?)
      requires Tree(nodes) && (e != null ==> e in nodes)
      reads nodes`parentNode, nodes`childNodes, nodes`depth
      decreases if e == null then 0 else e.depth + 1
    {
      e != null && (x == e || Above(x, e.parentNode))
    }

    /** The search answers for the nearest node that the goal stops at, and `false` if there is none. */
    lemma {:induction false} SearchIsNearest(e: Node?, goal: Goal, left: map<Node, nat>)
      requires Tree(nodes) && (e != null ==> e in nodes)
      ensures Search(e, goal, left) == No ==> forall x | x in nodes && Above(x, e) :: At(goal, x, left).None?
      ensures Search(e, goal, left) != No ==>
                exists x :: x in nodes && Above(x, e) && At(goal, x, left) == Some(Search(e, goal, left))
                         && forall y | y in nodes && Above(y, e) && y.depth > x.depth :: At(goal, y, left).None?
      decreases if e == null then 0 else e.depth + 1
    {
      if e != null {
        AboveIsHigher(e);
        if At(goal, e, left).None? {
          SearchIsNearest(e.parentNode, goal, left);
        } else {
          assert Above(e, e);
        }
      }
    }

    lemma {:induction false} AboveIsHigher(e: Node)
      requires Tree(nodes) && e in nodes
      ensures forall x | x in nodes && Above(x, e) :: x.depth <= e.depth
      decreases e.depth
    {
      if e.parentNode != null {
        AboveIsHigher(e.parentNode);
      }
    }

    // ---------- nth-child ----------

    /** The preFilter step: a new stamp for one evaluation of a selector. */
    method NewChildStamp() returns (stamp: nat)
      requires Valid()
      modifies this
      ensures Valid() && stamp == old(m) && m == old(m) + 1 && since == old(since)
      ensures childStamps == old(childStamps) + {stamp}
    {
      stamp := m;
      m := m + 1;
      childStamps := childStamps + {stamp};
    }

    /** The filter step under a current stamp. */
    method IsNth(e: Node, stamp: nat, a: int, b: int, ghost left: map<Node, nat>) returns (r: bool)
      requires Valid() && Remembers(left) && e in nodes && stamp in childStamps && since <= stamp
      modifies nodes`sizcache, nodes`nodeIndex
      ensures Valid()
      ensures forall n | n in nodes :: n.sizcache == old(n.sizcache) || n.sizcache == Some(stamp)
      ensures Remembers(left) && (!(a == 1 && b == 0) && e.parentNode != null ==> Numbered(e.parentNode))
      ensures r == ((a == 1 && b == 0) || IsNthByIndex(e, a, b, left))
    {
      if a == 1 && b == 0 {
        return true;
      }
      var parent := e.parentNode;
      if parent != null && (parent.sizcache != Some(stamp) || e.nodeIndex == 0) {
        Renumber(parent, stamp);
      }
      IndexDecides(e, a, b, left);
      r := e.nodeIndex != 0 && CycleTest(e.nodeIndex, a, b);
    }

    lemma IndexDecides(e: Node, a: int, b: int, left: map<Node, nat>)
      requires Valid() && Remembers(left) && e in nodes && (e.parentNode != null ==> Numbered(e.parentNode))
      ensures (e.nodeIndex != 0 && CycleTest(e.nodeIndex, a, b)) <==> IsNthByIndex(e, a, b, left)
    {
      if e.parentNode != null && e.nodeType == ELEMENT {
        IndexIsPosition(e.parentNode, e);
      }
      CycleTestIsExact(e.nodeIndex, a, b);
    }

    lemma IndexIsPosition(parent: Node, e: Node)
      requires Tree(nodes) && parent in nodes && e in nodes && e.parentNode == parent && e.nodeType == ELEMENT
      requires Numbered(parent)
      ensures e.nodeIndex == PositionIn(parent.childNodes, e) > 0
    {
      var i :| 0 <= i < |parent.childNodes| && parent.childNodes[i] == e;
      PositionAt(parent.childNodes, i);
      assert parent.childNodes[..i + 1][..i] == parent.childNodes[..i];
    }

    method Renumber(parent: Node, stamp: nat)
      requires Valid() && parent in nodes && stamp in childStamps && since <= stamp
      modifies nodes`sizcache, nodes`nodeIndex
      ensures Valid() && Numbered(parent) && parent.sizcache == Some(stamp)
      ensures forall n | n in nodes && n != parent :: n.sizcache == old(n.sizcache)
      ensures forall n | n in nodes && n.parentNode != parent :: n.nodeIndex == old(n.nodeIndex)
      ensures Leftover() == old(Leftover())
    {
      Number(parent);
      parent.sizcache := Some(stamp);
      forall n | n in nodes && old(n.sizcache).Some? && since <= old(n.sizcache).value
        && old(n.sizcache).value in childStamps
        ensures Numbered(n)
      {
        if n != parent {
          assert forall i | 0 <= i < |n.childNodes| :: n.childNodes[i] !in parent.childNodes;
        }
      }
    }

    method Number(parent: Node)
      requires Tree(nodes) && parent in nodes
      modifies nodes`nodeIndex
      ensures Numbered(parent)
      ensures forall n | n in nodes && (n !in parent.childNodes || n.nodeType != ELEMENT) ::
              n.nodeIndex == old(n.nodeIndex)
    {
      var x := 0;
      for i := 0 to |parent.childNodes|
        invariant forall n | n in nodes && (n !in parent.childNodes || n.nodeType != ELEMENT) ::
                    n.nodeIndex == old(n.nodeIndex)
        invariant x == Elements(parent.childNodes[..i])
        invariant forall j | 0 <= j < i && parent.childNodes[j].nodeType == ELEMENT ::
                    parent.childNodes[j].nodeIndex == Elements(parent.childNodes[..j + 1])
      {
        var u := parent.childNodes[i];
        assert parent.childNodes[..i + 1][..i] == parent.childNodes[..i];
        if u.nodeType == ELEMENT {
          x := x + 1;
          u.nodeIndex := x;
        }
      }
    }

    /** `filter(part, [e])`: every call takes a new stamp for its nth-child test. */
    method Test(e: Node, part: Part, ghost left: map<Node, nat>) returns (r: bool)
      requires Valid() && Remembers(left) && e in nodes
      modifies this, nodes`sizcache, nodes`nodeIndex
      ensures Valid() && Remembers(left) && m >= old(m) && Kept()
      ensures forall s | s in childStamps && s !in old(childStamps) :: s >= old(m)
      ensures forall n | n in nodes ::
                n.sizcache == old(n.sizcache) || (n.sizcache.Some? && n.sizcache.value >= old(m))
      ensures r == Accepts(part, e, left)
    {
      if part.nth.Some? {
        var stamp := NewChildStamp();
        var nth := IsNth(e, stamp, part.nth.value.0, part.nth.value.1, left);
        if !nth {
          return false;
        }
      }
      r := (part.name == "*" && e.nodeType == ELEMENT) || e.nodeName == part.name;
    }

    /** Stamps stay current. */
    twostate predicate Kept()
      reads this
    {
      since == old(since) && old(childStamps) <= childStamps
    }

    /** The indices of the nodes outside any parent. */
    ghost function Leftover(): map<Node, nat>
      reads nodes`parentNode, nodes`nodeIndex
    {
      map n | n in nodes && n.parentNode == null :: n.nodeIndex
    }

    ghost predicate Remembers(left: map<Node, nat>)
      reads nodes`parentNode, nodes`nodeIndex
    {
      left == Leftover()
    }

    // ---------- ancestor search ----------

    /** During the walk for slot w: a node marked with stamp y points to a finished slot that holds its
        own answer, or lies on the path walked so far, whose nodes share one answer. */
    ghost predicate Marked(slots: seq<Slot>, w: nat, y: nat, goal: Goal, left: map<Node, nat>, answer: Slot, bound: nat)
      requires Tree(nodes) && w <= |slots|
      reads nodes
    {
      forall n | n in nodes && n.sizcache == Some(y) ::
        && n.sizset <= w
        && (n.sizset < w ==> slots[n.sizset] == Search(n, goal, left))
        && (n.sizset == w ==> Search(n, goal, left) == answer && n.depth >= bound)
    }

    /** Nodes marked with stamp y only point to finished slots. */
    ghost predicate Settled(slots: seq<Slot>, w: nat, y: nat, goal: Goal, left: map<Node, nat>)
      requires Tree(nodes) && w <= |slots|
      reads nodes
    {
      forall n | n in nodes && n.sizcache == Some(y) :: n.sizset < w && slots[n.sizset] == Search(n, goal, left)
    }

    /** The stamp of a walk in progress. */
    ghost predicate Walking(y: nat, left: map<Node, nat>)
      reads this, nodes
    {
      Valid() && Remembers(left) && y < m && y !in childStamps
    }

    /** The walk for slot w, upwards from e: it stops at the goal, or at a node an earlier walk marked. */
    method Climb(AD: array<Slot>, w: nat, start: Node?, goal: Goal, y: nat, isXml: bool, ghost slots: seq<Slot>,
                 ghost left: map<Node, nat>)
      returns (x: Slot)
      requires w < AD.Length && AD[..] == slots && (start != null ==> start in nodes)
      requires Walking(y, left) && Settled(slots, w, y, goal, left)
      modifies this, nodes`sizcache, nodes`sizset, nodes`nodeIndex
      ensures Walking(y, left) && Kept()
      ensures x == Search(start, goal, left)
      ensures Settled(slots[w := x], w + 1, y, goal, left)
    {
      var e := start;
      ghost var answer := Search(start, goal, left);
      while e != null
        invariant OnPath(e, slots, w, y, goal, left, answer) && Kept()
        decreases if e == null then 0 else e.depth + 1
      {
        var found := Visit(AD, w, e, goal, y, isXml, slots, left, answer);
        if found.Some? {
          Settles(slots, w, y, goal, left, answer, e.depth);
          return found.value;
        }
        Ascends(e, slots, w, y, goal, left, answer);
        e := e.parentNode;
      }
      Settles(slots, w, y, goal, left, answer, 0);
      x := No;
    }

    /** The walk for slot w has come to e. */
    ghost predicate OnPath(e: Node?, slots: seq<Slot>, w: nat, y: nat, goal: Goal, left: map<Node, nat>, answer: Slot)
      requires w <= |slots|
      reads this, nodes
    {
      && Walking(y, left) && (e != null ==> e in nodes) && Search(e, goal, left) == answer
      && Marked(slots, w, y, goal, left, answer, if e == null then 0 else e.depth + 1)
    }

    lemma Ascends(e: Node, slots: seq<Slot>, w: nat, y: nat, goal: Goal, left: map<Node, nat>, answer: Slot)
      requires w <= |slots| && Walking(y, left) && e in nodes
      requires Search(e.parentNode, goal, left) == answer && Marked(slots, w, y, goal, left, answer, e.depth)
      ensures OnPath(e.parentNode, slots, w, y, goal, left, answer)
      ensures e.parentNode != null ==> e.parentNode.depth < e.depth
    {
    }

    /** One node of the walk: the answer if the walk ends here. */
    method Visit(AD: array<Slot>, w: nat, e: Node, goal: Goal, y: nat, isXml: bool,
                 ghost slots: seq<Slot>, ghost left: map<Node, nat>, ghost answer: Slot)
      returns (found: Option<Slot>)
      requires w < AD.Length && AD[..] == slots && OnPath(e, slots, w, y, goal, left, answer)
      modifies this, nodes`sizcache, nodes`sizset, nodes`nodeIndex
      ensures Walking(y, left) && Kept() && Marked(slots, w, y, goal, left, answer, e.depth)
      ensures found == Some(answer) || (found == None && Search(e.parentNode, goal, left) == answer)
    {
      if e.sizcache == Some(y) {
        return Some(AD[e.sizset]);
      }
      if e.nodeType == ELEMENT && !isXml {
        Mark(e, slots, w, y, goal, left, answer);
      }
      found := Stops(e, goal, slots, w, y, left, answer);
    }

    lemma Settles(slots: seq<Slot>, w: nat, y: nat, goal: Goal, left: map<Node, nat>, answer: Slot, bound: nat)
      requires Tree(nodes) && w < |slots| && Marked(slots, w, y, goal, left, answer, bound)
      ensures Settled(slots[w := answer], w + 1, y, goal, left)
    {
    }

    method Mark(e: Node, ghost slots: seq<Slot>, w: nat, y: nat, goal: Goal, ghost left: map<Node, nat>,
                ghost answer: Slot)
      requires Walking(y, left) && e in nodes && w <= |slots| && Search(e, goal, left) == answer
      requires Marked(slots, w, y, goal, left, answer, e.depth + 1)
      modifies e`sizcache, e`sizset
      ensures Walking(y, left) && Marked(slots, w, y, goal, left, answer, e.depth)
    {
      e.sizcache := Some(y);
      e.sizset := w;
    }

    /** The test of one node, by name (q) or by filter (t).  The filter can take the stamp y away from
        nodes, but gives it to none. */
    method Stops(e: Node, goal: Goal, ghost slots: seq<Slot>, ghost w: nat, ghost y: nat, ghost left: map<Node, nat>,
                 ghost answer: Slot)
      returns (r: Option<Slot>)
      requires Walking(y, left) && e in nodes && w <= |slots| && Marked(slots, w, y, goal, left, answer, e.depth)
      modifies this, nodes`sizcache, nodes`nodeIndex
      ensures Walking(y, left) && Kept() && Marked(slots, w, y, goal, left, answer, e.depth)
      ensures r == At(goal, e, left)
      ensures goal.Name? ==> r == if e.nodeName == goal.name then Some(Found(e)) else None
    {
      match goal {
        case Name(z) => r := if e.nodeName == z then Some(Found(e)) else None;
        case Matching(part) =>
          if e.nodeType == ELEMENT {
            var accepted := Test(e, part, left);
            r := if accepted then Some(Found(e)) else None;
          } else {
            r := None;
          }
        case Same(node) => r := if e.nodeType == ELEMENT && e == node then Some(Yes) else None;
      }
    }

    /** Functions q and t in the direction of the parent: every slot that holds a node ends up with the
        answer of the uncached search from its parent, every other slot with false. */
    method Walk(AD: array<Slot>, goal: Goal, isXml: bool)
      requires Valid()
      requires forall w | 0 <= w < AD.Length && AD[w].Found? :: AD[w].node in nodes
      modifies this, AD, nodes`sizcache, nodes`sizset, nodes`nodeIndex
      ensures Valid() && Kept() && Leftover() == old(Leftover())
      ensures forall w | 0 <= w < AD.Length :: AD[w] == old(Answer(AD[w], goal, Leftover()))
    {
      var y := NewStamp();
      ghost var left := Leftover();
      ghost var before := AD[..];
      for w := 0 to AD.Length
        invariant Walking(y, left) && Kept()
        invariant Settled(AD[..], w, y, goal, left)
        invariant forall i | w <= i < AD.Length :: AD[i] == before[i]
        invariant forall i | 0 <= i < w :: AD[i] == old(Answer(AD[i], goal, Leftover()))
      {
        assert Answer(before[w], goal, left) == old(Answer(AD[w], goal, Leftover()));
        WalkSlot(AD, w, goal, y, isXml, left);
      }
    }

    /** A new stamp for one walk: no node bears it yet. */
    method NewStamp() returns (y: nat)
      requires Valid()
      modifies this`m
      ensures y == old(m) && Walking(y, Leftover())
      ensures forall n | n in nodes :: n.sizcache != Some(y)
    {
      y := m;
      m := m + 1;
    }

    /** What becomes of a slot. */
    ghost function Answer(slot: Slot, goal: Goal, left: map<Node, nat>): Slot
      requires Tree(nodes) && (slot.Found? ==> slot.node in nodes)
      reads nodes`parentNode, nodes`childNodes, nodes`depth
    {
      if slot.Found? then Search(slot.node.parentNode, goal, left) else No
    }

    method WalkSlot(AD: array<Slot>, w: nat, goal: Goal, y: nat, isXml: bool, ghost left: map<Node, nat>)
      requires Walking(y, left) && w < AD.Length && Settled(AD[..], w, y, goal, left)
      requires AD[w].Found? ==> AD[w].node in nodes
      modifies this, AD, nodes`sizcache, nodes`sizset, nodes`nodeIndex
      ensures Walking(y, left) && Kept()
      ensures Settled(AD[..], w + 1, y, goal, left)
      ensures AD[w] == old(Answer(AD[w], goal, left))
      ensures forall i | 0 <= i < AD.Length && i != w :: AD[i] == old(AD[i])
    {
      var x := No;
      if AD[w].Found? {
        x := Climb(AD, w, AD[w].node.parentNode, goal, y, isXml, AD[..], left);
      }
      ghost var slots := AD[..][w := x];
      AD[w] := x;
      assert AD[..] == slots;
    }

    // ---------- any interleaving ----------

    ghost predicate IsStep(script: seq<Step>, i: nat)
      requires i < |script|
    {
      match script[i]
      case Issue(_, _) => true
      case Ask(k, e) => k < i && script[k].Issue? && e in nodes
      case Ancestors(slots, _, _) => forall w | 0 <= w < |slots| && slots[w].Found? :: slots[w].node in nodes
    }

    /** The uncached answer to step i. */
    ghost function Reference(script: seq<Step>, i: nat, left: map<Node, nat>): Reply
      requires Tree(nodes) && i < |script| && IsStep(script, i)
      reads nodes`parentNode, nodes`childNodes, nodes`depth
    {
      match script[i]
      case Issue(_, _) => Issued
      case Ask(k, e) =>
        var (a, b) := (script[k].a, script[k].b);
        Nth((a == 1 && b == 0) || IsNthByIndex(e, a, b, left))
      case Ancestors(slots, goal, _) => Slots(Answers(slots, goal, left))
    }

    ghost function Answers(slots: seq<Slot>, goal: Goal, left: map<Node, nat>): (answers: seq<Slot>)
      requires Tree(nodes) && forall w | 0 <= w < |slots| && slots[w].Found? :: slots[w].node in nodes
      reads nodes`parentNode, nodes`childNodes, nodes`depth
      ensures |answers| == |slots| && forall w | 0 <= w < |slots| :: answers[w] == Answer(slots[w], goal, left)
    {
      if slots == [] then [] else Answers(slots[..|slots| - 1], goal, left) + [Answer(slots[|slots| - 1], goal, left)]
    }

    /** However nth-child tests and ancestor searches are interleaved over one tree, every reply is the
        reply without caches. */
    method Interleave(script: seq<Step>) returns (replies: seq<Reply>)
      requires Valid()
      requires forall i | 0 <= i < |script| :: IsStep(script, i)
      modifies this, nodes`sizcache, nodes`sizset, nodes`nodeIndex
      ensures Valid()
      ensures |replies| == |script|
      ensures forall i | 0 <= i < |script| :: replies[i] == old(Reference(script, i, Leftover()))
    {
      replies := [];
      var stamps: seq<nat> := [];
      for i := 0 to |script|
        invariant Valid() && Kept() && Leftover() == old(Leftover())
        invariant |stamps| == i
        invariant forall k | 0 <= k < i && script[k].Issue? :: stamps[k] in childStamps && since <= stamps[k]
        invariant |replies| == i && forall k | 0 <= k < i :: replies[k] == old(Reference(script, k, Leftover()))
      {
        ghost var reference := Reference(script, i, Leftover());
        assert reference == old(Reference(script, i, Leftover()));
        var stamp, reply := Perform(script, i, stamps);
        stamps, replies := stamps + [stamp], replies + [reply];
      }
    }

    method Perform(script: seq<Step>, i: nat, stamps: seq<nat>) returns (stamp: nat, reply: Reply)
      requires Valid() && i < |script| && |stamps| == i && IsStep(script, i)
      requires forall k | 0 <= k < i && script[k].Issue? :: stamps[k] in childStamps && since <= stamps[k]
      modifies this, nodes`sizcache, nodes`sizset, nodes`nodeIndex
      ensures Valid() && Kept() && Leftover() == old(Leftover())
      ensures script[i].Issue? ==> stamp in childStamps && since <= stamp
      ensures reply == old(Reference(script, i, Leftover()))
    {
      stamp := 0;
      match script[i] {
        case Issue(_, _) =>
          stamp := NewChildStamp();
          reply := Issued;
        case Ask(k, e) =>
          var r := IsNth(e, stamps[k], script[k].a, script[k].b, Leftover());
          reply := Nth(r);
        case Ancestors(slots, goal, isXml) =>
          var answers := FindAncestors(slots, goal, isXml);
          reply := Slots(answers);
      }
    }

    method FindAncestors(slots: seq<Slot>, goal: Goal, isXml: bool) returns (answers: seq<Slot>)
      requires Valid()
      requires forall w | 0 <= w < |slots| && slots[w].Found? :: slots[w].node in nodes
      modifies this, nodes`sizcache, nodes`sizset, nodes`nodeIndex
      ensures Valid() && Kept() && Leftover() == old(Leftover()) && answers == old(Answers(slots, goal, Leftover()))
    {
      ghost var reference := Answers(slots, goal, Leftover());
      var AD := new Slot[|slots|](w requires 0 <= w < |slots| => slots[w]);
      Walk(AD, goal, isXml);
      assert AD[..] == reference;
      answers := AD[..];
    }

    // ---------- edits ----------

    /** The tree is rearranged in any way between two uses of the engine.  Indices and marks stay where
        they are.  Stamps given out from now on are sound: all the answers above only ask for `Valid`. */
    method Edit(parents: map<Node, Node?>, children: map<Node, seq<Node>>, ghost depths: map<Node, nat>)
      requires Valid() && parents.Keys == children.Keys == depths.Keys == nodes
      requires TreeOf(nodes, parents, children, depths)
      modifies this, nodes`parentNode, nodes`childNodes, nodes`depth
      ensures Valid() && m == old(m) && since == m && childStamps == old(childStamps)
      ensures forall n | n in nodes :: n.parentNode == parents[n] && n.childNodes == children[n]
    {
      Rearrange(parents, children, depths);
      since := m;
    }

    method Rearrange(parents: map<Node, Node?>, children: map<Node, seq<Node>>, ghost depths: map<Node, nat>)
      requires parents.Keys == children.Keys == depths.Keys == nodes
      requires TreeOf(nodes, parents, children, depths)
      modifies nodes`parentNode, nodes`childNodes, nodes`depth
      ensures Tree(nodes)
      ensures forall n | n in nodes :: n.parentNode == parents[n] && n.childNodes == children[n]
    {
      SetParents(parents);
      SetChildren(children);
      SetDepths(depths);
      TreeIsLinked(nodes, parents, children, depths);
    }

    method SetParents(parents: map<Node, Node?>)
      requires parents.Keys == nodes
      modifies nodes`parentNode
      ensures forall n | n in nodes :: n.parentNode == parents[n]
    {
      forall n | n in nodes {
        n.parentNode := parents[n];
      }
    }

    method SetChildren(children: map<Node, seq<Node>>)
      requires children.Keys == nodes
      modifies nodes`childNodes
      ensures forall n | n in nodes :: n.childNodes == children[n]
    {
      forall n | n in nodes {
        n.childNodes := children[n];
      }
    }

    ghost method SetDepths(depths: map<Node, nat>)
      requires depths.Keys == nodes
      modifies nodes`depth
      ensures forall n | n in nodes :: n.depth == depths[n]
    {
      forall n | n in nodes {
        n.depth := depths[n];
      }
    }
  }

  method ListOfOne() returns (engine: Engine, parent: Node, e: Node)
    ensures fresh(engine) && fresh(parent) && fresh(e) && engine.nodes == {parent, e} && engine.Valid()
    ensures parent.parentNode == null && parent.childNodes == [e] && e.parentNode == parent && e.nodeType == ELEMENT
  {
    parent := new Node(ELEMENT, "UL");
    e := new Node(ELEMENT, "LI");
    e.parentNode, e.depth, parent.childNodes := parent, 1, [e];
    assert e in parent.childNodes;
    engine := new Engine({parent, e});
  }

  lemma OnlyChildIsOdd(e: Node)
    requires e.parentNode != null && e.parentNode.childNodes == [e] && e.nodeType == ELEMENT
    ensures IsNthChild(e, 2, 1) && Elements([e]) == 1
  {
    assert [e][..0] == [];
    assert Elements([e]) == PositionIn([e], e) == 1;
    OneIsOdd();
  }

  lemma OneIsOdd()
    ensures InCycle(1, 2, 1)
  {
    assert 1 == 2 * 0 + 1;
  }

  method TakeOut(engine: Engine, parent: Node, e: Node)
    requires engine.Valid() && engine.nodes == {parent, e} && parent != e
    modifies engine, engine.nodes`parentNode, engine.nodes`childNodes, engine.nodes`depth
    ensures engine.Valid() && e.parentNode == null
  {
    engine.Edit(map[parent := null, e := null], map[parent := [], e := []], map[parent := 0, e := 0]);
  }

  /** The input on which the cached test is wrong: an only child is found to be an odd child, is taken out
      of its parent, and is an odd child still. */
  method DetachedChildIsNumbered() returns (e: Node, wasOdd: bool, isOdd: bool)
    ensures wasOdd && isOdd && e.parentNode == null && !IsNthChild(e, 2, 1)
  {
    var engine, parent;
    engine, parent, e := ListOfOne();
    var stamp := engine.NewChildStamp();
    OnlyChildIsOdd(e);
    wasOdd := engine.IsNth(e, stamp, 2, 1, engine.Leftover());
    assert parent.childNodes[..1] == [e] && parent.childNodes[0].nodeIndex == 1;
    TakeOut(engine, parent, e);
    stamp := engine.NewChildStamp();
    assert engine.Leftover()[e] == 1;
    OneIsOdd();
    isOdd := engine.IsNth(e, stamp, 2, 1, engine.Leftover());
  }
}
