/**
 * An abstract DOM: a tree of elements, with a node named by its path of child
 * positions from the document element. What a browser would compute and this
 * model does not (how many nodes a selector matches, whether a node is
 * rendered visibly, whether it matches the recorder's clickable selector
 * list) is an oracle supplied from outside.
 */
module Dom {
  import opened Wrappers

  /** An element: its `tagName` as the DOM reports it (upper case in HTML),
      its attributes in document order, its class list, its text content and
      its element children. */
  datatype Element = Element(
    tag: string,
    attrs: seq<(string, string)>,
    classes: seq<string>,
    text: string,
    children: seq<Element>)

  /** A node, as the child positions leading to it from the document element. */
  type Path = seq<nat>

  function Parent(p: Path): Path
    requires p != []
  {
    p[..|p| - 1]
  }

  function Last(p: Path): nat
    requires p != []
  {
    p[|p| - 1]
  }

  /** `p` names a node of the tree rooted at `root`. */
  predicate ValidPath(root: Element, p: Path)
    decreases |p|, 0
  {
    p == [] || (ValidPath(root, Parent(p)) && Last(p) < |NodeAt(root, Parent(p)).children|)
  }

  function NodeAt(root: Element, p: Path): Element
    requires ValidPath(root, p)
    decreases |p|, 1
  {
    if p == [] then root else NodeAt(root, Parent(p)).children[Last(p)]
  }

  /** Every ancestor of a node is a node. */
  lemma {:induction false} AncestorValid(root: Element, p: Path, m: nat)
    requires ValidPath(root, p) && m <= |p|
    ensures ValidPath(root, p[..m])
    decreases |p| - m
  {
    if m < |p| {
      AncestorValid(root, p, m + 1);
      assert Parent(p[..m + 1]) == p[..m];
    } else {
      assert p[..m] == p;
    }
  }

  /** `el.getAttribute(name)`: the value of the first attribute with that name. */
  function GetAttr(e: Element, name: string): Option<string> {
    AttrIn(e.attrs, name)
  }

  function AttrIn(attrs: seq<(string, string)>, name: string): (r: Option<string>)
    ensures r.Some? <==> exists i :: 0 <= i < |attrs| && attrs[i].0 == name
    ensures r.Some? ==> exists i :: 0 <= i < |attrs| && attrs[i] == (name, r.value)
  {
    if attrs == [] then None
    else if attrs[0].0 == name then Some(attrs[0].1)
    else AttrIn(attrs[1..], name)
  }

  /** `el.hasAttribute(name)` */
  predicate HasAttr(e: Element, name: string) {
    GetAttr(e, name).Some?
  }

  /** The three things a browser computes that the model takes as given:
      `document.querySelectorAll(sel).length` (zero for a selector it cannot
      parse), the visibility test, and `el.matches` against the clickable
      selector list. */
  datatype Oracle = Oracle(
    count: string -> nat,
    visible: Path -> bool,
    matchesClickable: Path -> bool)

  /** `isUnique(sel)`: exactly one node matches. */
  predicate IsUnique(count: string -> nat, sel: string) {
    count(sel) == 1
  }
}
