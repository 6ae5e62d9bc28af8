/**
 * An abstract DOM. Fragments and the content of an element are trees of
 * element and text nodes held as values, so a deep clone (`cloneNode(true)`)
 * is a plain copy. The elements the updater and the `v-if` directive act on
 * are live objects of class `Node`, whose fields those operations assign.
 */
module Dom {

  datatype Option<T> = None | Some(value: T)

  datatype Attr = Attr(name: string, value: string)

  datatype Tree =
    | Element(tag: string, attrs: seq<Attr>, children: seq<Tree>)
    | Text(data: string)

  /** `innerHTML` of this content is the empty string. */
  predicate MarkupEmpty(ts: seq<Tree>) {
    forall i :: 0 <= i < |ts| ==> ts[i] == Text("")
  }

  // ---------------------------------------------------------------------
  // Attribute lists (`hasAttr`, `getAttr`, `setAttr`, `removeAttr`)

  predicate HasAttr(attrs: seq<Attr>, name: string) {
    exists i :: 0 <= i < |attrs| && attrs[i].name == name
  }

  /** The value of the first attribute called `name`, if any. */
  function GetAttr(attrs: seq<Attr>, name: string): (r: Option<string>)
    ensures r.Some? <==> HasAttr(attrs, name)
    ensures r.Some? ==> Attr(name, r.value) in attrs
  {
    if attrs == [] then None
    else if attrs[0].name == name then Some(attrs[0].value)
    else GetAttr(attrs[1..], name)
  }

  /** Give the attribute `name` the value `value`, replacing it or appending it. */
  function SetAttr(attrs: seq<Attr>, name: string, value: string): (r: seq<Attr>)
    ensures GetAttr(r, name) == Some(value)
    ensures forall other :: other != name ==> GetAttr(r, other) == GetAttr(attrs, other)
  {
    if attrs == [] then [Attr(name, value)]
    else if attrs[0].name == name then [Attr(name, value)] + attrs[1..]
    else [attrs[0]] + SetAttr(attrs[1..], name, value)
  }

  /** Drop every attribute called `name`. */
  function RemoveAttr(attrs: seq<Attr>, name: string): (r: seq<Attr>)
    ensures !HasAttr(r, name)
    ensures forall other :: other != name ==> GetAttr(r, other) == GetAttr(attrs, other)
  {
    if attrs == [] then []
    else if attrs[0].name == name then RemoveAttr(attrs[1..], name)
    else [attrs[0]] + RemoveAttr(attrs[1..], name)
  }

  /** `node.style[property]`: an unset property reads as the empty string. */
  function StyleValue(style: map<string, string>, property: string): string {
    if property in style then style[property] else ""
  }

  // ---------------------------------------------------------------------
  // Live nodes

  class Node {
    /** Whether this node is an element (as opposed to a text node). */
    const isElement: bool
    var attrs: seq<Attr>
    var children: seq<Tree>
    /** The class-token list (`classList`). */
    var classes: set<string>
    /** The inline style declarations (`node.style`). */
    var style: map<string, string>
    /** `node.__visible`: the memoised inline display value; None is `undefined`. */
    var visibleMemo: Option<string>
    /** `node.__render`: the memoised inner markup, held as the content it parses to. */
    var renderMemo: Option<seq<Tree>>
    /** `node.__directive`: the directive kind tagged on the node, empty when untagged. */
    var directive: string
    /** Form-control state: `value`, `checked`, `selected`, and a select's `options`. */
    var value: string
    var checked: bool
    var selected: bool
    var options: seq<Node>

    constructor (isElement: bool, attrs: seq<Attr>, children: seq<Tree>)
      ensures this.isElement == isElement && this.attrs == attrs && this.children == children
      ensures classes == {} && style == map[] && visibleMemo == None && renderMemo == None
      ensures directive == "" && options == []
    {
      this.isElement := isElement;
      this.attrs := attrs;
      this.children := children;
      classes := {};
      style := map[];
      visibleMemo := None;
      renderMemo := None;
      directive := "";
      value := "";
      checked := false;
      selected := false;
      options := [];
    }
  }

  /**
   * The first element among `following` (the nodes after some node under its
   * parent, in document order), or null: the DOM's `nextElementSibling`.
   */
  function FirstElement(following: seq<Node>): (r: Node?)
    ensures r == null <==> forall j :: 0 <= j < |following| ==> !following[j].isElement
    ensures r != null ==> exists k :: 0 <= k < |following| && following[k] == r && IsFirstElementAt(following, k)
  {
    if following == [] then null
    else if following[0].isElement then following[0]
    else
      var r := FirstElement(following[1..]);
      assert r != null ==> exists k :: 0 <= k < |following[1..]| && following[1..][k] == r && IsFirstElementAt(following[1..], k);
      assert r != null ==> exists k :: 0 <= k < |following| && following[k] == r && IsFirstElementAt(following, k) by {
        if r != null {
          var k :| 0 <= k < |following[1..]| && following[1..][k] == r && IsFirstElementAt(following[1..], k);
          assert IsFirstElementAt(following, k + 1);
        }
      }
      r
  }

  /** `following[k]` is an element and every node before it is not. */
  predicate IsFirstElementAt(following: seq<Node>, k: int)
    requires 0 <= k < |following|
  {
    following[k].isElement && forall j :: 0 <= j < k ==> !following[j].isElement
  }

  /** The first element is the one every node before it gives way to. */
  lemma FirstElementAt(following: seq<Node>, k: int)
    requires 0 <= k < |following| && IsFirstElementAt(following, k)
    ensures FirstElement(following) == following[k]
  {
    var r := FirstElement(following);
    var k' :| 0 <= k' < |following| && following[k'] == r && IsFirstElementAt(following, k');
    assert k' == k;
  }

  /** The set holding the next element sibling, if there is one (for frames). */
  function NextElementSet(following: seq<Node>): set<Node> {
    var s := FirstElement(following);
    if s == null then {} else {s}
  }
}
