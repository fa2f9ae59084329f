/** The parsed page as the emitter sees it: a tree of element and text nodes, with the
    descendant searches `find` and `find_all` that the table rule uses. */
module HtmlTree {
  import opened Options

  /** A text node (`NavigableString`) or an element (`Tag`) with its name, its single-valued
      attributes, its class list (a multi-valued attribute, already split into tokens) and its
      children in document order. */
  datatype Node =
    | Text(text: string)
    | Element(tag: string, attrs: map<string, string>, classes: seq<string>, children: seq<Node>)

  /** A node found by a descendant search, with the name of the element it hangs under. */
  datatype Found = Found(node: Node, parent: string)

  /** The number of nodes in a subtree: the termination measure of every walk over the tree. */
  function Size(n: Node): (r: nat)
    ensures r >= 1
    decreases n
  {
    match n
    case Text(_) => 1
    case Element(_, _, _, cs) => 1 + SizeAll(cs)
  }

  function SizeAll(cs: seq<Node>): (r: nat)
    ensures forall i :: 0 <= i < |cs| ==> Size(cs[i]) <= r
    decreases cs
  {
    if cs == [] then 0
    else
      var r := SizeAll(cs[..|cs| - 1]) + Size(cs[|cs| - 1]);
      assert forall i :: 0 <= i < |cs| - 1 ==> cs[i] == cs[..|cs| - 1][i];
      r
  }

  /** `element.get(key, default)`. */
  function Get(attrs: map<string, string>, key: string, default: string): string {
    if key in attrs then attrs[key] else default
  }

  /** `hasattr(n, 'name') and n.name == tag`: an element with that name (text nodes have none). */
  predicate IsElementNamed(n: Node, tag: string) {
    n.Element? && n.tag == tag
  }

  /** `find_all(tags)` over the given children and everything below them, in document order
      (each element before its own descendants), each hit paired with its parent's name. */
  function FindAll(cs: seq<Node>, parent: string, tags: set<string>): (r: seq<Found>)
    ensures forall i :: 0 <= i < |r| ==> r[i].node.Element? && r[i].node.tag in tags
    ensures forall i :: 0 <= i < |r| ==> Size(r[i].node) <= SizeAll(cs)
    decreases SizeAll(cs), 1
  {
    if cs == [] then []
    else
      var front := FindAll(cs[..|cs| - 1], parent, tags);
      var here := FindBelow(cs[|cs| - 1], parent, tags);
      front + here
  }

  /** The hits of `find_all` within one child: the child itself, then its descendants. */
  function FindBelow(c: Node, parent: string, tags: set<string>): (r: seq<Found>)
    ensures forall i :: 0 <= i < |r| ==> r[i].node.Element? && r[i].node.tag in tags
    ensures forall i :: 0 <= i < |r| ==> Size(r[i].node) <= Size(c)
    decreases Size(c), 0
  {
    match c
    case Text(_) => []
    case Element(tag, _, _, ccs) =>
      (if tag in tags then [Found(c, parent)] else []) + FindAll(ccs, tag, tags)
  }

  /** `find(tag)`: the first element with that name below the given children, if any. */
  function Find(cs: seq<Node>, tag: string): (r: Option<Node>)
    ensures r.Some? ==> IsElementNamed(r.value, tag) && Size(r.value) <= SizeAll(cs)
  {
    var all := FindAll(cs, "", {tag});
    if all == [] then None else Some(all[0].node)
  }

  // ---------------------------------------------------------------------------
  // The descendants of a node, as a reference for the searches
  // ---------------------------------------------------------------------------

  /** Every node below the given children, text nodes included, in document order: each child,
      then everything below it. Each is paired with the name of the element it hangs under. */
  function Descendants(cs: seq<Node>, parent: string): seq<Found>
    decreases SizeAll(cs), 1
  {
    if cs == [] then []
    else Descendants(cs[..|cs| - 1], parent) + Subtree(cs[|cs| - 1], parent)
  }

  /** A node followed by everything below it. */
  function Subtree(c: Node, parent: string): seq<Found>
    decreases Size(c), 0
  {
    [Found(c, parent)] + match c
                         case Text(_) => []
                         case Element(tag, _, _, ccs) => Descendants(ccs, tag)
  }

  /** An element whose name is one of `tags`. */
  predicate HasName(f: Found, tags: set<string>) {
    f.node.Element? && f.node.tag in tags
  }

  /** The entries that are elements with one of the names, in order. */
  function Named(fs: seq<Found>, tags: set<string>): seq<Found> {
    if fs == [] then [] else (if HasName(fs[0], tags) then [fs[0]] else []) + Named(fs[1..], tags)
  }

  /** No entry is an element with one of the names. */
  predicate NoneNamed(fs: seq<Found>, tags: set<string>) {
    forall i :: 0 <= i < |fs| ==> !HasName(fs[i], tags)
  }

  /** The first entry that is an element named `tag`, scanning from the front. */
  function FirstNamed(fs: seq<Found>, tag: string): Option<Node> {
    if fs == [] then None
    else if IsElementNamed(fs[0].node, tag) then Some(fs[0].node)
    else FirstNamed(fs[1..], tag)
  }

  lemma {:induction false} NamedAppend(a: seq<Found>, b: seq<Found>, tags: set<string>)
    ensures Named(a + b, tags) == Named(a, tags) + Named(b, tags)
  {
    if a != [] {
      assert (a + b)[0] == a[0] && (a + b)[1..] == a[1..] + b;
      NamedAppend(a[1..], b, tags);
    } else {
      assert a + b == b;
    }
  }

  /** Nothing is selected exactly when no entry has one of the names. */
  lemma {:induction false} NamedEmpty(fs: seq<Found>, tags: set<string>)
    ensures Named(fs, tags) == [] <==> NoneNamed(fs, tags)
  {
    if fs != [] {
      NamedEmpty(fs[1..], tags);
      if NoneNamed(fs[1..], tags) && !HasName(fs[0], tags) {
        forall i | 0 <= i < |fs| ensures !HasName(fs[i], tags) {
          if i > 0 { assert fs[i] == fs[1..][i - 1]; }
        }
      }
      if NoneNamed(fs, tags) {
        forall i | 0 <= i < |fs[1..]| ensures !HasName(fs[1..][i], tags) {
          assert fs[1..][i] == fs[i + 1];
        }
      }
    }
  }

  /** `find_all` returns exactly the descendants that are elements with one of the requested
      names, in document order, each with the name of the element it hangs under. */
  lemma {:induction false} FindAllNamed(cs: seq<Node>, parent: string, tags: set<string>)
    ensures FindAll(cs, parent, tags) == Named(Descendants(cs, parent), tags)
    decreases SizeAll(cs), 1
  {
    if cs != [] {
      var init, last := cs[..|cs| - 1], cs[|cs| - 1];
      FindAllNamed(init, parent, tags);
      FindBelowNamed(last, parent, tags);
      NamedAppend(Descendants(init, parent), Subtree(last, parent), tags);
    }
  }

  lemma {:induction false} FindBelowNamed(c: Node, parent: string, tags: set<string>)
    ensures FindBelow(c, parent, tags) == Named(Subtree(c, parent), tags)
    decreases Size(c), 0
  {
    var below := match c
                 case Text(_) => []
                 case Element(tag, _, _, ccs) => Descendants(ccs, tag);
    assert Subtree(c, parent) == [Found(c, parent)] + below;
    NamedAppend([Found(c, parent)], below, tags);
    assert Named([Found(c, parent)], tags) == if HasName(Found(c, parent), tags) then [Found(c, parent)] else [];
    match c
    case Text(_) =>
    case Element(tag, _, _, ccs) =>
      FindAllNamed(ccs, tag, tags);
  }

  /** The first selected entry is the first entry with the name. */
  lemma {:induction false} FirstOfNamed(fs: seq<Found>, tag: string)
    ensures Named(fs, {tag}) == [] <==> FirstNamed(fs, tag) == None
    ensures Named(fs, {tag}) != [] ==> Named(fs, {tag})[0].node == FirstNamed(fs, tag).value
  {
    if fs != [] {
      FirstOfNamed(fs[1..], tag);
    }
  }

  /** `find` gives the first element with that name in document order, and `None` exactly when
      no element below the children has that name. */
  lemma FindFirst(cs: seq<Node>, tag: string)
    ensures Find(cs, tag) == FirstNamed(Descendants(cs, ""), tag)
    ensures Find(cs, tag) == None <==> NoneNamed(Descendants(cs, ""), {tag})
  {
    var ds := Descendants(cs, "");
    FindAllNamed(cs, "", {tag});
    FirstOfNamed(ds, tag);
    NamedEmpty(ds, {tag});
  }
}
