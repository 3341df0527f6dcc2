/** The document tree with the three cache fields that Sizzle keeps on its nodes. */
module Dom {
  import opened Multiples
  import opened Wrappers

  const ELEMENT := 1

  class Node {
    const nodeType: int
    const nodeName: string
    var parentNode: Node?
    var childNodes: seq<Node>
    ghost var depth: nat

    var sizcache: Option<nat>
    var sizset: nat
    var nodeIndex: nat              // 0 stands for undefined

    constructor (nodeType: int, nodeName: string)
      ensures this.nodeType == nodeType && this.nodeName == nodeName && parentNode == null && childNodes == []
              && depth == 0
      ensures sizcache == None && nodeIndex == 0
    {
      this.nodeType, this.nodeName := nodeType, nodeName;
      parentNode, childNodes, depth := null, [], 0;
      sizcache, sizset, nodeIndex := None, 0, 0;
    }
  }

  ghost function Parents(e: Node): set<Node>
    reads e`parentNode
  {
    if e.parentNode == null then {} else {e.parentNode}
  }

  /** Links in both directions, no node twice, no cycles. */
  ghost predicate Tree(nodes: set<Node>)
    reads nodes`parentNode, nodes`childNodes, nodes`depth
  {
    && (forall n | n in nodes && n.parentNode != null ::
          n.parentNode in nodes && n in n.parentNode.childNodes && n.parentNode.depth < n.depth)
    && (forall n, i | n in nodes && 0 <= i < |n.childNodes| ::
          n.childNodes[i] in nodes && n.childNodes[i].parentNode == n)
    && (forall n, i, j | n in nodes && 0 <= i < j < |n.childNodes| :: n.childNodes[i] != n.childNodes[j])
  }

  /** The same for links yet to be made. */
  ghost predicate TreeOf(nodes: set<Node>, parents: map<Node, Node?>, children: map<Node, seq<Node>>,
                         depths: map<Node, nat>)
    requires parents.Keys == children.Keys == depths.Keys == nodes
  {
    && (forall n | n in nodes && parents[n] != null ::
          parents[n] in nodes && n in children[parents[n]] && depths[parents[n]] < depths[n])
    && (forall n, i | n in nodes && 0 <= i < |children[n]| :: children[n][i] in nodes && parents[children[n][i]] == n)
    && (forall n, i, j | n in nodes && 0 <= i < j < |children[n]| :: children[n][i] != children[n][j])
  }

  lemma TreeIsLinked(nodes: set<Node>, parents: map<Node, Node?>, children: map<Node, seq<Node>>,
                     depths: map<Node, nat>)
    requires parents.Keys == children.Keys == depths.Keys == nodes && TreeOf(nodes, parents, children, depths)
    requires forall n | n in nodes :: n.parentNode == parents[n]
    requires forall n | n in nodes :: n.childNodes == children[n]
    requires forall n | n in nodes :: n.depth == depths[n]
    ensures Tree(nodes)
  {
    forall n, i | n in nodes && 0 <= i < |n.childNodes|
      ensures n.childNodes[i] in nodes && n.childNodes[i].parentNode == n
    {
      assert children[n][i] in nodes;
    }
  }

  /** How many elements a list of nodes holds. */
  function Elements(s: seq<Node>): nat {
    if s == [] then 0 else Elements(s[..|s| - 1]) + if s[|s| - 1].nodeType == ELEMENT then 1 else 0
  }

  /** The 1-based position of e among the elements of s. */
  function PositionIn(s: seq<Node>, e: Node): nat {
    if s == [] then 0
    else if s[|s| - 1] == e then Elements(s)
    else PositionIn(s[..|s| - 1], e)
  }

  lemma {:induction false} PositionAt(s: seq<Node>, i: nat)
    requires i < |s| && forall j, k | 0 <= j < k < |s| :: s[j] != s[k]
    ensures PositionIn(s, s[i]) == Elements(s[..i + 1])
    decreases |s|
  {
    if i == |s| - 1 {
      assert s[..i + 1] == s;
    } else {
      assert s[..|s| - 1][..i + 1] == s[..i + 1];
      PositionAt(s[..|s| - 1], i);
    }
  }

  /** The elements among the first i nodes of a list. */
  ghost function ElementsBefore(s: seq<Node>, i: nat): set<Node>
    requires i <= |s|
  {
    set k | 0 <= k < i && s[k].nodeType == 1 :: s[k]
  }

  lemma {:induction false} ElementsAreCounted(s: seq<Node>, i: nat)
    requires i <= |s| && forall j, k | 0 <= j < k < |s| :: s[j] != s[k]
    ensures Elements(s[..i]) == |ElementsBefore(s, i)|
    decreases i
  {
    if i > 0 {
      ElementsAreCounted(s, i - 1);
      assert s[..i][..i - 1] == s[..i - 1];
      var before, last := ElementsBefore(s, i - 1), s[i - 1];
      assert last !in before;
      assert ElementsBefore(s, i) == if last.nodeType == 1 then before + {last} else before;
    }
  }

  /** The position of an element among its siblings: one more than there are elements before it. */
  lemma PositionIsCount(s: seq<Node>, i: nat)
    requires i < |s| && s[i].nodeType == 1 && forall j, k | 0 <= j < k < |s| :: s[j] != s[k]
    ensures PositionIn(s, s[i]) == 1 + |ElementsBefore(s, i)|
  {
    PositionAt(s, i);
    ElementsAreCounted(s, i);
    assert s[..i + 1][..i] == s[..i];
  }

  // ---------- an+b ----------

  /** Selectors Level 3, section 6.6.5.2: the position is a*n+b for some n >= 0. */
  ghost predicate InCycle(position: nat, a: int, b: int) {
    exists n: nat :: position == a * n + b
  }

  /** JavaScript's `%` takes the sign of the dividend. */
  function JsRemainder(x: int, y: int): int
    requires y != 0
  {
    if x >= 0 then x % y else -((-x) % y)
  }

  /** What the filter computes from the index: `AA % v == 0 && AA / v >= 0`, or `AA == 0`.  The exact
      quotient of a multiple is not negative when the signs agree or the dividend is zero. */
  function CycleTest(index: nat, a: int, b: int): bool {
    var d := index - b;
    if a == 0 then d == 0 else JsRemainder(d, a) == 0 && (d == 0 || (d > 0) == (a > 0))
  }

  lemma CycleTestIsExact(index: nat, a: int, b: int)
    ensures CycleTest(index, a, b) <==> InCycle(index, a, b)
  {
    var d := index - b;
    if a == 0 {
      if d == 0 {
        assert index == a * 0 + b;
      }
    } else {
      if CycleTest(index, a, b) {
        var n := Quotient(d, a);
        assert index == a * n + b;
      }
      if n: nat :| index == a * n + b {
        MultipleIsRecognised(a, n);
      }
    }
  }

  lemma Quotient(d: int, a: int) returns (n: nat)
    requires a != 0 && JsRemainder(d, a) == 0 && (d == 0 || (d > 0) == (a > 0))
    ensures d == a * n
  {
    if d >= 0 {
      n := if d == 0 then 0 else d / a;
    } else {
      n := (-d) / (-a);
      assert (-d) % (-a) == 0 by {
        assert (-d) % a == 0;
        var q := (-d) / a;
        assert -d == a * q == (-a) * (-q);
        MultipleModulo(-a, -q);
      }
    }
  }

  lemma MultipleIsRecognised(a: int, n: int)
    requires a != 0 && n >= 0
    ensures JsRemainder(a * n, a) == 0 && (a * n == 0 || (a * n > 0) == (a > 0))
  {
    MultipleModulo(a, n);
    MultipleModulo(a, -n);
    assert -(a * n) == a * -n;
    if n > 0 {
      if a > 0 { assert a * n > 0; } else { assert a * n < 0; }
    }
  }
}
