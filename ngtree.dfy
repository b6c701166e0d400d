/** The result tree every query fills in. A node has a name, a type tag,
    named attributes and an ordered sequence of children; `_ccount`, the
    child counter, appears with the first child and then always equals the
    number of children. A node that is still being filled in is an `NGTree`
    object; once it is attached under a parent or handed back it is a `Node`
    value. */
module NgTree {
  import opened Basics

  /** A finished node: name, type, attributes and children. */
  datatype Node = Node(name: Value, nodeType: string, attrs: map<string, Value>, children: seq<Node>)

  /** The children a loop has added so far followed by those the rest of
      the loop adds, or the error the rest raises: the loop invariant of
      every tree-building loop. */
  function Prepend(done: seq<Node>, rest: Result<seq<Node>>): Result<seq<Node>> {
    if rest.Ok? then Ok(done + rest.value) else rest
  }

  lemma PrependNothing(rest: Result<seq<Node>>)
    ensures Prepend([], rest) == rest
  {
    if rest.Ok? {
      assert [] + rest.value == rest.value;
    }
  }

  lemma PrependChild(done: seq<Node>, child: Node, rest: Result<seq<Node>>)
    ensures Prepend(done, if rest.Ok? then Ok([child] + rest.value) else rest) == Prepend(done + [child], rest)
  {
    if rest.Ok? {
      assert done + ([child] + rest.value) == done + [child] + rest.value;
    }
  }

  /** The keys of a node's dict that decide its truth value: its name and
      type, which every node holds, and its attributes. */
  function DictKeys(n: Node): (keys: set<string>)
    ensures "Name" in keys && "_type" in keys
    ensures forall k :: k in n.attrs ==> k in keys
  {
    {"Name", "_type"} + n.attrs.Keys
  }

  /** `if tree:` on a node: a dict is true when it holds a key. */
  predicate NodeTruthy(n: Node) {
    DictKeys(n) != {}
  }

  /** Every node is truthy: its dict holds at least its name. */
  lemma NodeAlwaysTruthy(n: Node)
    ensures NodeTruthy(n)
  {
    assert "Name" in DictKeys(n);
  }

  /** A node under construction, updated in place. */
  class NGTree {
    var name: Value
    var treeType: string
    var attrs: map<string, Value>
    var children: seq<Node>
    var ccount: Option<nat>

    /** `_ccount` is absent on a node without children and counts them
        otherwise. */
    ghost predicate Valid()
      reads this
    {
      ccount == if children == [] then None else Some(|children|)
    }

    /** get_ngtree(name, tree_type): a node with no attributes and no
        children. */
    constructor (name: Value, treeType: string)
      ensures Valid()
      ensures this.name == name && this.treeType == treeType
      ensures attrs == map[] && children == []
    {
      this.name := name;
      this.treeType := treeType;
      attrs := map[];
      children := [];
      ccount := None;
    }

    /** Continues filling in a node handed over by the caller. */
    constructor FromNode(n: Node)
      ensures Valid()
      ensures Snapshot() == n
    {
      name := n.name;
      treeType := n.nodeType;
      attrs := n.attrs;
      children := n.children;
      ccount := if n.children == [] then None else Some(|n.children|);
    }

    /** tree[key] = value. */
    method Set(key: string, v: Value)
      requires Valid()
      modifies this
      ensures Valid()
      ensures attrs == old(attrs)[key := v]
      ensures name == old(name) && treeType == old(treeType)
      ensures children == old(children) && ccount == old(ccount)
    {
      attrs := attrs[key := v];
    }

    /** tree['Name'] = value. */
    method SetName(v: Value)
      requires Valid()
      modifies this
      ensures Valid()
      ensures name == v
      ensures treeType == old(treeType) && attrs == old(attrs)
      ensures children == old(children) && ccount == old(ccount)
    {
      name := v;
    }

    /** add_child_ngtree(tree, child): append the child and count it. */
    method AddChild(child: Node)
      requires Valid()
      modifies this
      ensures Valid()
      ensures children == old(children) + [child]
      ensures ccount == Some(|children|)
      ensures name == old(name) && treeType == old(treeType) && attrs == old(attrs)
    {
      children := children + [child];
      ccount := Some(|children|);
    }

    /** The node as it is handed to the caller. */
    function Snapshot(): Node
      reads this
    {
      Node(name, treeType, attrs, children)
    }
  }
}
