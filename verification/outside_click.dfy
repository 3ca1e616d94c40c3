/**
 * The document-wide click handler (`#checkOutsideClick` in timepicker.js):
 * starting at the click target it follows `parentNode` links, notes whether
 * it passes the widget's container, and stops after the `HTML` element or
 * when a node has no parent. The click counts as outside when the container
 * was not passed.
 */
module OutsideClick {
  import opened Optional

  /** A node of the document, by identity. */
  type Node = nat

  /**
   * The part of the document the walk sees: each node's parent (absent for a
   * node without one, such as the document itself), each element's tag name,
   * and each node's depth below the root, which only serves as the measure
   * that makes the walk finite.
   */
  datatype Dom = Dom(parent: map<Node, Node>, tag: map<Node, string>, depth: map<Node, nat>)

  /** A node sits strictly deeper than its parent, so the parent links have no cycle. */
  predicate WellFormed(d: Dom) {
    forall n :: n in d.parent ==> n in d.depth && d.parent[n] in d.depth && d.depth[d.parent[n]] < d.depth[n]
  }

  /** `n.parentNode`, `None` standing for `null`. */
  function ParentOf(d: Dom, n: Node): Option<Node> {
    if n in d.parent then Some(d.parent[n]) else None
  }

  /** `n.tagName == "HTML"`: the node is the root element. */
  predicate IsHtml(d: Dom, n: Node) {
    n in d.tag && d.tag[n] == "HTML"
  }

  /** The measure the walk decreases: one more than the depth of the current node, or 0 at `null`. */
  function Measure(d: Dom, el: Option<Node>): nat {
    match el
    case None => 0
    case Some(n) => (if n in d.depth then d.depth[n] else 0) + 1
  }

  /**
   * The loop of `#checkOutsideClick` from node `el` on, `outside` being the
   * value of `click_outside` on entry: the loop body clears the flag at the
   * container and breaks after an `HTML` element; the loop ends at `null`.
   */
  function Walk(d: Dom, el: Option<Node>, container: Node, outside: bool): bool
    requires WellFormed(d)
    decreases Measure(d, el)
  {
    match el
    case None => outside
    case Some(n) =>
      var outside' := if n == container then false else outside;
      if IsHtml(d, n) then outside'
      else Walk(d, ParentOf(d, n), container, outside')
  }

  /** `#checkOutsideClick(e)` for a click on `target`: true when the click is outside the widget. */
  function ClickOutside(d: Dom, target: Node, container: Node): bool
    requires WellFormed(d)
  {
    Walk(d, Some(target), container, true)
  }

  /** The `k`-th ancestor of `n` (`n` itself for `k == 0`), if the chain is that long. */
  function Ancestor(d: Dom, n: Node, k: nat): Option<Node>
    decreases k
  {
    if k == 0 then Some(n)
    else match ParentOf(d, n)
      case None => None
      case Some(p) => Ancestor(d, p, k - 1)
  }

  /** The `j`-th ancestor of `n` exists and is an `HTML` element. */
  predicate HtmlAt(d: Dom, n: Node, j: nat) {
    match Ancestor(d, n, j)
    case None => false
    case Some(a) => IsHtml(d, a)
  }

  /**
   * The container lies on the ancestor chain of `n`, no further up than the
   * first `HTML` element (which itself still counts).
   */
  ghost predicate InsideChain(d: Dom, n: Node, container: Node) {
    exists k: nat :: Ancestor(d, n, k) == Some(container) && forall j: nat :: j < k ==> !HtmlAt(d, n, j)
  }

  /** Once the flag is cleared it stays cleared. */
  lemma {:induction false} WalkStaysInside(d: Dom, el: Option<Node>, container: Node)
    requires WellFormed(d)
    ensures !Walk(d, el, container, false)
    decreases Measure(d, el)
  {
    match el
    case None =>
    case Some(n) =>
      if !IsHtml(d, n) {
        WalkStaysInside(d, ParentOf(d, n), container);
      }
  }

  /** The container is on the chain of `n` exactly when it is `n` or on the chain of `n`'s parent, short of an `HTML` `n`. */
  lemma InsideChainStep(d: Dom, n: Node, p: Node, container: Node)
    requires ParentOf(d, n) == Some(p)
    requires n != container
    requires !IsHtml(d, n)
    ensures InsideChain(d, n, container) <==> InsideChain(d, p, container)
  {
    if InsideChain(d, n, container) {
      var k: nat :| Ancestor(d, n, k) == Some(container) && forall j: nat :: j < k ==> !HtmlAt(d, n, j);
      assert k > 0;
      forall j: nat | j < k - 1
        ensures !HtmlAt(d, p, j)
      {
        assert Ancestor(d, n, j + 1) == Ancestor(d, p, j);
        assert !HtmlAt(d, n, j + 1);
      }
      assert Ancestor(d, p, k - 1) == Some(container);
    }
    if InsideChain(d, p, container) {
      var k: nat :| Ancestor(d, p, k) == Some(container) && forall j: nat :: j < k ==> !HtmlAt(d, p, j);
      assert Ancestor(d, n, k + 1) == Some(container);
      forall j: nat | j < k + 1
        ensures !HtmlAt(d, n, j)
      {
        if j > 0 {
          assert Ancestor(d, n, j) == Ancestor(d, p, j - 1);
          assert !HtmlAt(d, p, j - 1);
        }
      }
    }
  }

  /**
   * The walk with the flag still set reports "outside" exactly when the
   * container is not on the target's chain up to the first `HTML` element.
   */
  lemma {:induction false} WalkIff(d: Dom, n: Node, container: Node)
    requires WellFormed(d)
    ensures Walk(d, Some(n), container, true) <==> !InsideChain(d, n, container)
    decreases Measure(d, Some(n))
  {
    if n == container {
      assert Ancestor(d, n, 0) == Some(container);
      assert forall j: nat :: j < 0 ==> !HtmlAt(d, n, j);
      if !IsHtml(d, n) {
        WalkStaysInside(d, ParentOf(d, n), container);
      }
    } else if IsHtml(d, n) {
      assert HtmlAt(d, n, 0);
    } else {
      match ParentOf(d, n)
      case None =>
      case Some(p) =>
        WalkIff(d, p, container);
        InsideChainStep(d, n, p, container);
    }
  }

  /** `#checkOutsideClick` calls `close` exactly when the container is not on the target's chain. */
  lemma ClickOutsideIff(d: Dom, target: Node, container: Node)
    requires WellFormed(d)
    ensures ClickOutside(d, target, container) <==> !InsideChain(d, target, container)
  {
    WalkIff(d, target, container);
  }

  /** A click on the container itself is inside. */
  lemma ClickOnContainerIsInside(d: Dom, container: Node)
    requires WellFormed(d)
    ensures !ClickOutside(d, container, container)
  {
    ClickOutsideIff(d, container, container);
    assert Ancestor(d, container, 0) == Some(container);
  }
}
