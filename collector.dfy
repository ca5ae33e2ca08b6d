/**
 * The two tree walks of licenses/service.go as the Go code runs them: `collectText` appends
 * to a `bytes.Buffer` in place, `htmlNodeTraversal` overwrites the string its pointer argument
 * designates. Each walks a node's children in sibling order and recurses into each child.
 */
module Collector {
  import opened Html

  /** The `bytes.Buffer` that `collectText` writes into. */
  class TextBuffer {
    var contents: string

    constructor ()
      ensures contents == ""
    {
      contents := "";
    }

    /** `buf.WriteString(s)`. */
    method WriteString(s: string)
      modifies this
      ensures contents == old(contents) + s
    {
      contents := contents + s;
    }
  }

  /** The `*string` out-parameter of `htmlNodeTraversal`. */
  class StringRef {
    var value: string

    constructor (v: string)
      ensures value == v
    {
      value := v;
    }
  }

  /** `collectText(n, buf)`: appends the text of the subtree rooted at `n` to `buf`, keeping
      what the buffer held before as a prefix, and returns the same buffer. */
  method CollectText(n: Node, buf: TextBuffer) returns (same: TextBuffer)
    modifies buf
    ensures same == buf
    ensures buf.contents == old(buf.contents) + TextOf(n)
    decreases n
  {
    if n.kind == TextNode {
      buf.WriteString(n.data);
    }
    ghost var start := old(buf.contents) + OwnText(n);
    assert buf.contents == start;
    var i := 0;
    while i < |n.children|
      invariant 0 <= i <= |n.children|
      invariant buf.contents == start + TextData(PreOrderAll(n.children[..i]))
    {
      ghost var before := TextData(PreOrderAll(n.children[..i]));
      ghost var piece := TextOf(n.children[i]);
      var _ := CollectText(n.children[i], buf);
      PreOrderAllExtend(n.children, i);
      TextDataAppend(PreOrderAll(n.children[..i]), PreOrder(n.children[i]));
      assert TextData(PreOrderAll(n.children[..i + 1])) == before + piece;
      assert buf.contents == (start + before) + piece == start + (before + piece);
      i := i + 1;
    }
    assert n.children[..i] == n.children;
    TextOfUnfold(n);
    assert buf.contents == old(buf.contents) + (OwnText(n) + TextData(PreOrderAll(n.children)));
    same := buf;
  }

  /** `htmlNodeTraversal(n, collected)`: visits every node of the subtree in pre-order and, at
      each `ul` element with `class="actions"`, overwrites `*collected` with that element's
      text. Afterwards `*collected` holds the text of the last such element, or what it held
      before when there is none. */
  method HtmlNodeTraversal(n: Node, collected: StringRef)
    modifies collected
    ensures collected.value == LastActionsText(PreOrder(n), old(collected.value))
    decreases n
  {
    if n.kind == ElementNode && n.data == "ul" {
      var j := 0;
      while j < |n.attrs|
        invariant 0 <= j <= |n.attrs|
        invariant collected.value ==
          if exists k :: 0 <= k < j && IsActionsClass(n.attrs[k]) then TextOf(n) else old(collected.value)
      {
        var a := n.attrs[j];
        if a.key == "class" && a.val == "actions" {
          var text := new TextBuffer();
          var collectionBuffer := CollectText(n, text);
          collected.value := collectionBuffer.contents;
        }
        j := j + 1;
      }
    }
    ghost var afterSelf := collected.value;
    assert afterSelf == LastActionsText([n], old(collected.value));
    var i := 0;
    while i < |n.children|
      invariant 0 <= i <= |n.children|
      invariant collected.value == LastActionsText(PreOrderAll(n.children[..i]), afterSelf)
    {
      HtmlNodeTraversal(n.children[i], collected);
      PreOrderAllExtend(n.children, i);
      LastActionsTextAppend(PreOrderAll(n.children[..i]), PreOrder(n.children[i]), afterSelf);
      i := i + 1;
    }
    assert n.children[..i] == n.children;
    LastActionsTextAppend([n], PreOrderAll(n.children), old(collected.value));
  }
}
