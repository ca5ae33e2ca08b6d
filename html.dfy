/**
 * The parsed HTML document as golang.org/x/net/html hands it to licenses/service.go, and the
 * meaning of the two tree walks there, stated over the pre-order list of a tree's nodes.
 *
 * A node's `FirstChild`/`NextSibling` chain is the sequence `children`.
 */
module Html {

  /** `html.NodeType`. */
  datatype NodeKind = ErrorNode | TextNode | DocumentNode | ElementNode | CommentNode | DoctypeNode | RawNode

  /** `html.Attribute` (the namespace is never consulted). */
  datatype Attribute = Attribute(key: string, val: string)

  /** `html.Node`: for an element `data` is the tag name, for a text node the text. */
  datatype Node = Node(kind: NodeKind, data: string, attrs: seq<Attribute>, children: seq<Node>)

  /** The nodes of the tree rooted at `n`, depth-first, each node before its children and the
      children in sibling order. */
  function PreOrder(n: Node): (r: seq<Node>)
    ensures |r| >= 1 && r[0] == n
    decreases n, 1
  {
    [n] + PreOrderAll(n.children)
  }

  /** The pre-order lists of a sequence of sibling trees, one after the other. */
  function PreOrderAll(ns: seq<Node>): seq<Node>
    decreases ns, 0
  {
    if ns == [] then [] else PreOrder(ns[0]) + PreOrderAll(ns[1..])
  }

  lemma {:induction false} PreOrderAllAppend(a: seq<Node>, b: seq<Node>)
    ensures PreOrderAll(a + b) == PreOrderAll(a) + PreOrderAll(b)
    decreases |a|
  {
    if a == [] {
      assert a + b == b;
    } else {
      assert (a + b)[0] == a[0];
      assert (a + b)[1..] == a[1..] + b;
      PreOrderAllAppend(a[1..], b);
    }
  }

  /** Walking the first `i + 1` siblings is walking the first `i`, then sibling `i`. */
  lemma PreOrderAllExtend(ns: seq<Node>, i: nat)
    requires i < |ns|
    ensures PreOrderAll(ns[..i + 1]) == PreOrderAll(ns[..i]) + PreOrder(ns[i])
  {
    assert ns[..i + 1] == ns[..i] + [ns[i]];
    PreOrderAllAppend(ns[..i], [ns[i]]);
    assert [ns[i]][1..] == [];
  }

  // ---------------------------------------------------------------------------
  // Text of a subtree (collectText)
  // ---------------------------------------------------------------------------

  /** What one node contributes on its own: its data if it is a text node, nothing otherwise. */
  function OwnText(n: Node): string {
    if n.kind == TextNode then n.data else ""
  }

  /** The own texts of a list of nodes, concatenated with no separator. */
  function TextData(ns: seq<Node>): string
    decreases |ns|
  {
    if ns == [] then "" else OwnText(ns[0]) + TextData(ns[1..])
  }

  /** The text of a subtree: the data of every text node in it, in document order, with no
      separators. */
  function TextOf(n: Node): string {
    TextData(PreOrder(n))
  }

  lemma {:induction false} TextDataAppend(a: seq<Node>, b: seq<Node>)
    ensures TextData(a + b) == TextData(a) + TextData(b)
    decreases |a|
  {
    if a == [] {
      assert a + b == b;
    } else {
      assert (a + b)[0] == a[0];
      assert (a + b)[1..] == a[1..] + b;
      TextDataAppend(a[1..], b);
    }
  }

  /** A subtree's text is the node's own text followed by its children's texts in order. */
  lemma TextOfUnfold(n: Node)
    ensures TextOf(n) == OwnText(n) + TextData(PreOrderAll(n.children))
  {
    TextDataAppend([n], PreOrderAll(n.children));
    assert TextData([n]) == OwnText(n) + TextData([]);
  }

  /** Element nodes and other non-text nodes contribute nothing but their descendants' text. */
  lemma TextOfNonText(n: Node)
    requires n.kind != TextNode
    ensures TextOf(n) == TextData(PreOrderAll(n.children))
  {
    TextOfUnfold(n);
  }

  // ---------------------------------------------------------------------------
  // The target element and the last-wins walk (htmlNodeTraversal)
  // ---------------------------------------------------------------------------

  /** An attribute `class="actions"`. */
  predicate IsActionsClass(a: Attribute) {
    a.key == "class" && a.val == "actions"
  }

  /** A `ul` element carrying `class="actions"` among its attributes. */
  predicate IsActionsList(n: Node) {
    n.kind == ElementNode && n.data == "ul" &&
    exists k :: 0 <= k < |n.attrs| && IsActionsClass(n.attrs[k])
  }

  /** Visits `ns` in order, replacing `acc` by the text of every actions list met. */
  function LastActionsText(ns: seq<Node>, acc: string): string
    decreases |ns|
  {
    if ns == [] then acc
    else LastActionsText(ns[1..], if IsActionsList(ns[0]) then TextOf(ns[0]) else acc)
  }

  /** The text htmlNodeTraversal leaves behind for a document when it starts from "". */
  function CollectedText(doc: Node): string {
    LastActionsText(PreOrder(doc), "")
  }

  lemma {:induction false} LastActionsTextAppend(a: seq<Node>, b: seq<Node>, acc: string)
    ensures LastActionsText(a + b, acc) == LastActionsText(b, LastActionsText(a, acc))
    decreases |a|
  {
    if a == [] {
      assert a + b == b;
    } else {
      assert (a + b)[0] == a[0];
      assert (a + b)[1..] == a[1..] + b;
      LastActionsTextAppend(a[1..], b, if IsActionsList(a[0]) then TextOf(a[0]) else acc);
    }
  }

  /** With no actions list in the walk, the value it started from is kept. */
  lemma {:induction false} LastActionsTextNone(ns: seq<Node>, acc: string)
    requires forall k :: 0 <= k < |ns| ==> !IsActionsList(ns[k])
    ensures LastActionsText(ns, acc) == acc
    decreases |ns|
  {
    if ns != [] {
      LastActionsTextNone(ns[1..], acc);
    }
  }

  /** Otherwise the result is the text of the last actions list in the walk. */
  lemma {:induction false} LastActionsTextLast(ns: seq<Node>, acc: string, k: nat)
    requires k < |ns| && IsActionsList(ns[k])
    requires forall j :: k < j < |ns| ==> !IsActionsList(ns[j])
    ensures LastActionsText(ns, acc) == TextOf(ns[k])
    decreases |ns|
  {
    if k == 0 {
      LastActionsTextNone(ns[1..], TextOf(ns[0]));
    } else {
      LastActionsTextLast(ns[1..], if IsActionsList(ns[0]) then TextOf(ns[0]) else acc, k - 1);
    }
  }

  /** The walk ends with the text of the last actions list in `ns`, or with the value it
      started from when `ns` has none. */
  lemma LastActionsTextIsLastMatch(ns: seq<Node>, acc: string)
    ensures LastActionsText(ns, acc) ==
      if exists k :: 0 <= k < |ns| && IsActionsList(ns[k]) then TextOf(ns[LastMatch(ns)]) else acc
  {
    if exists k :: 0 <= k < |ns| && IsActionsList(ns[k]) {
      LastActionsTextLast(ns, acc, LastMatch(ns));
    } else {
      LastActionsTextNone(ns, acc);
    }
  }

  /** The index of the last actions list in a list that has one. */
  function LastMatch(ns: seq<Node>): (k: nat)
    requires exists k :: 0 <= k < |ns| && IsActionsList(ns[k])
    ensures k < |ns| && IsActionsList(ns[k])
    ensures forall j :: k < j < |ns| ==> !IsActionsList(ns[j])
    decreases |ns|
  {
    if IsActionsList(ns[|ns| - 1]) then |ns| - 1
    else
      var k :| 0 <= k < |ns| && IsActionsList(ns[k]);
      assert k < |ns| - 1 && IsActionsList(ns[..|ns| - 1][k]);
      LastMatch(ns[..|ns| - 1])
  }

  /** Because the walk goes on into a matched element, an actions list nested inside another
      wins over it: the outer element's own text never survives. */
  lemma NestedActionsListWins(n: Node, acc: string)
    requires IsActionsList(n)
    requires exists k :: 0 <= k < |PreOrderAll(n.children)| && IsActionsList(PreOrderAll(n.children)[k])
    ensures LastActionsText(PreOrder(n), acc) == LastActionsText(PreOrderAll(n.children), "")
  {
    var inner := PreOrderAll(n.children);
    var k := LastMatch(inner);
    LastActionsTextLast(inner, "", k);
    LastActionsTextLast(inner, TextOf(n), k);
    assert PreOrder(n)[1..] == inner;
  }
}
