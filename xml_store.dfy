/**
 * An abstract stand-in for the pugixml document that the serializer drives.
 *
 * A store maps node handles to nodes. Each node has a name, a parent, an
 * ordered list of children, optional text content and an ordered list of
 * (name, value) attributes. The handle `Null` plays the part of pugixml's
 * empty `xml_node`: every query on it yields "nothing" and every update on it
 * is ignored. Text and attribute values are kept typed (`Value`) instead of as
 * decimal text.
 *
 * The pure functions give the meaning of each pugixml primitive; the class
 * `Document` is the shared, mutable document whose methods perform them.
 */
module XmlStore {

  datatype Option<T> = None | Some(value: T)

  /** A node handle; `Null` is the empty node, the "not found" result. */
  type NodeId = nat

  const Null: NodeId := 0

  /**
   * The document node of a store made by `Empty`. Every other node is an
   * element, made by append_child or insert_child_after.
   */
  const Root: NodeId := 1

  /** Text or attribute content, as the serializer wrote it. */
  datatype Value = Str(s: string) | Int(i: int) | Bool(b: bool)

  datatype Attribute = Attribute(name: string, value: Value)

  datatype Node = Node(
    name: string,
    parent: NodeId,
    children: seq<NodeId>,
    text: Option<Value>,
    attributes: seq<Attribute>)

  datatype Store = Store(nodes: map<NodeId, Node>, nextId: NodeId)

  /** A node with the given name and parent and nothing else. */
  function NewNode(name: string, parent: NodeId): Node {
    Node(name, parent, [], None, [])
  }

  // ---------------------------------------------------------------------
  // Well-formedness: parent and child links agree, handles are fresh.

  predicate Distinct(ids: seq<NodeId>) {
    forall i, j :: 0 <= i < j < |ids| ==> ids[i] != ids[j]
  }

  ghost predicate ParentListsChild(s: Store, n: NodeId)
    requires n in s.nodes
  {
    var p := s.nodes[n].parent;
    p == Null || (p in s.nodes && n in s.nodes[p].children)
  }

  ghost predicate ChildrenPointBack(s: Store, n: NodeId)
    requires n in s.nodes
  {
    var cs := s.nodes[n].children;
    && (forall i :: 0 <= i < |cs| ==> cs[i] in s.nodes && s.nodes[cs[i]].parent == n)
    && Distinct(cs)
  }

  ghost predicate WellFormed(s: Store) {
    && Null !in s.nodes
    && (forall n :: n in s.nodes ==> n < s.nextId)
    && (forall n :: n in s.nodes ==> ParentListsChild(s, n))
    && (forall n :: n in s.nodes ==> ChildrenPointBack(s, n))
  }

  /** A fresh document: only the document node, with no name. */
  function Empty(): (s: Store)
    ensures WellFormed(s)
    ensures s.nodes.Keys == {Root} && s.nodes[Root].children == []
  {
    Store(map[Root := NewNode("", Null)], Root + 1)
  }

  // ---------------------------------------------------------------------
  // Queries (xml_node::name, text, attribute, parent, child, next_sibling).

  function NameOf(s: Store, n: NodeId): string {
    if n in s.nodes then s.nodes[n].name else ""
  }

  function TextOf(s: Store, n: NodeId): Option<Value> {
    if n in s.nodes then s.nodes[n].text else None
  }

  function ParentOf(s: Store, n: NodeId): NodeId {
    if n in s.nodes then s.nodes[n].parent else Null
  }

  /**
   * The value of the first attribute called `name`. pugixml stores an empty
   * name as no name, and a lookup never matches an attribute without one,
   * so the empty name finds nothing.
   */
  function FindAttribute(attrs: seq<Attribute>, name: string): (r: Option<Value>)
    ensures r.None? <==> name == "" || forall i :: 0 <= i < |attrs| ==> attrs[i].name != name
    ensures r.Some? ==> exists i: nat :: FirstAttributeAt(attrs, name, i) && attrs[i].value == r.value
  {
    if attrs == [] || name == "" then None
    else if attrs[0].name == name then
      assert FirstAttributeAt(attrs, name, 0);
      Some(attrs[0].value)
    else
      var r := FindAttribute(attrs[1..], name);
      assert r.Some? ==> exists i: nat :: FirstAttributeAt(attrs, name, i) && attrs[i].value == r.value by {
        if r.Some? {
          var i: nat :| FirstAttributeAt(attrs[1..], name, i) && attrs[1..][i].value == r.value;
          assert FirstAttributeAt(attrs, name, i + 1);
        }
      }
      r
  }

  /** Position `i` holds the first attribute of `attrs` called `name`. */
  predicate FirstAttributeAt(attrs: seq<Attribute>, name: string, i: nat) {
    && i < |attrs|
    && attrs[i].name == name
    && forall j :: 0 <= j < i ==> attrs[j].name != name
  }

  function AttributeOf(s: Store, n: NodeId, name: string): Option<Value> {
    if n in s.nodes then FindAttribute(s.nodes[n].attributes, name) else None
  }

  /**
   * `id` is a real node of `s` called `name`. As for attributes, the empty
   * name is no name in pugixml, and child or next_sibling never match it.
   */
  predicate Named(s: Store, id: NodeId, name: string) {
    name != "" && id != Null && id in s.nodes && s.nodes[id].name == name
  }

  /** Position `i` holds the first node of `ids` called `name`. */
  predicate FirstNamedAt(s: Store, ids: seq<NodeId>, name: string, i: nat) {
    && i < |ids|
    && Named(s, ids[i], name)
    && forall j :: 0 <= j < i ==> !Named(s, ids[j], name)
  }

  /** The first node of `ids` called `name`, or `Null`. */
  function FindNamed(s: Store, ids: seq<NodeId>, name: string): (r: NodeId)
    ensures r == Null <==> forall i :: 0 <= i < |ids| ==> !Named(s, ids[i], name)
    ensures r != Null ==> exists i: nat :: FirstNamedAt(s, ids, name, i) && ids[i] == r
  {
    if ids == [] then Null
    else if Named(s, ids[0], name) then
      assert FirstNamedAt(s, ids, name, 0);
      ids[0]
    else
      var r := FindNamed(s, ids[1..], name);
      assert r != Null ==> exists i: nat :: FirstNamedAt(s, ids, name, i) && ids[i] == r by {
        if r != Null {
          var i: nat :| FirstNamedAt(s, ids[1..], name, i) && ids[1..][i] == r;
          assert FirstNamedAt(s, ids, name, i + 1);
        }
      }
      r
  }

  /** The first position of `x` in `ids`. */
  function IndexOf(ids: seq<NodeId>, x: NodeId): (r: Option<nat>)
    ensures r.None? <==> x !in ids
    ensures r.Some? ==> r.value < |ids| && ids[r.value] == x && x !in ids[..r.value]
  {
    if ids == [] then None
    else if ids[0] == x then Some(0)
    else match IndexOf(ids[1..], x)
      case None => None
      case Some(i) =>
        assert ids[..i + 1] == [ids[0]] + ids[1..][..i];
        Some(i + 1)
  }

  /** xml_node::child(name): the first child called `name`. */
  function FirstChild(s: Store, n: NodeId, name: string): NodeId {
    if n in s.nodes then FindNamed(s, s.nodes[n].children, name) else Null
  }

  /** xml_node::next_sibling(name): the first later sibling called `name`. */
  function NextSiblingOf(s: Store, n: NodeId, name: string): NodeId {
    var p := ParentOf(s, n);
    if p == Null || p !in s.nodes then Null
    else match IndexOf(s.nodes[p].children, n)
      case None => Null
      case Some(i) => FindNamed(s, s.nodes[p].children[i + 1..], name)
  }

  /** xml_document::document_element(): the first child of the document node. */
  function DocumentElement(s: Store): NodeId {
    if Root in s.nodes && |s.nodes[Root].children| > 0 then s.nodes[Root].children[0] else Null
  }

  /** The names of the children of `n`, in document order. */
  function ChildNames(s: Store, n: NodeId): (r: seq<string>)
    ensures n in s.nodes ==> |r| == |s.nodes[n].children|
    ensures n in s.nodes ==> forall i :: 0 <= i < |r| ==> r[i] == NameOf(s, s.nodes[n].children[i])
    ensures n !in s.nodes ==> r == []
  {
    if n in s.nodes then
      var cs := s.nodes[n].children;
      seq(|cs|, i requires 0 <= i < |cs| => NameOf(s, cs[i]))
    else []
  }

  // ---------------------------------------------------------------------
  // Updates (set_name, text().set, append_attribute, append_child,
  // insert_child_after). Each leaves the store as it is on the null node.

  /**
   * `n` is an element. pugixml's set_name accepts elements, declarations
   * and processing instructions, and append_attribute elements and
   * declarations; of these this model has only elements, so both do nothing
   * on the document node.
   */
  predicate IsElement(s: Store, n: NodeId) {
    n in s.nodes && n != Root
  }

  function Renamed(s: Store, n: NodeId, name: string): Store {
    if IsElement(s, n) then s.(nodes := s.nodes[n := s.nodes[n].(name := name)]) else s
  }

  function WithText(s: Store, n: NodeId, v: Value): Store {
    if n in s.nodes then s.(nodes := s.nodes[n := s.nodes[n].(text := Some(v))]) else s
  }

  function WithAttributeAppended(s: Store, n: NodeId, name: string, v: Value): Store {
    if IsElement(s, n)
    then s.(nodes := s.nodes[n := s.nodes[n].(attributes := s.nodes[n].attributes + [Attribute(name, v)])])
    else s
  }

  /** append_child: a new node called `name` after the last child of `n`. */
  function WithChildAppended(s: Store, n: NodeId, name: string): (Store, NodeId) {
    if n in s.nodes then
      var c := s.nextId;
      var parent := s.nodes[n].(children := s.nodes[n].children + [c]);
      (Store(s.nodes[n := parent][c := NewNode(name, n)], c + 1), c)
    else
      (s, Null)
  }

  /**
   * insert_child_after, called on `p`: a new node called `name` right after
   * `after`, which has to be a child of `p`.
   */
  function WithChildInsertedAfter(s: Store, p: NodeId, name: string, after: NodeId): (Store, NodeId) {
    if p == Null || p !in s.nodes || after !in s.nodes || s.nodes[after].parent != p then (s, Null)
    else match IndexOf(s.nodes[p].children, after)
      case None => (s, Null)
      case Some(i) =>
        var c := s.nextId;
        var cs := s.nodes[p].children;
        var parent := s.nodes[p].(children := cs[..i + 1] + [c] + cs[i + 1..]);
        (Store(s.nodes[p := parent][c := NewNode(name, p)], c + 1), c)
  }

  // ---------------------------------------------------------------------
  // Every update keeps the store well formed.

  lemma RenamedValid(s: Store, n: NodeId, name: string)
    requires WellFormed(s)
    ensures WellFormed(Renamed(s, n, name))
  {
    var t := Renamed(s, n, name);
    forall m | m in t.nodes ensures ParentListsChild(t, m) && ChildrenPointBack(t, m) {
      assert ParentListsChild(s, m) && ChildrenPointBack(s, m);
    }
  }

  lemma WithTextValid(s: Store, n: NodeId, v: Value)
    requires WellFormed(s)
    ensures WellFormed(WithText(s, n, v))
  {
    var t := WithText(s, n, v);
    forall m | m in t.nodes ensures ParentListsChild(t, m) && ChildrenPointBack(t, m) {
      assert ParentListsChild(s, m) && ChildrenPointBack(s, m);
    }
  }

  lemma WithAttributeAppendedValid(s: Store, n: NodeId, name: string, v: Value)
    requires WellFormed(s)
    ensures WellFormed(WithAttributeAppended(s, n, name, v))
  {
    var t := WithAttributeAppended(s, n, name, v);
    forall m | m in t.nodes ensures ParentListsChild(t, m) && ChildrenPointBack(t, m) {
      assert ParentListsChild(s, m) && ChildrenPointBack(s, m);
    }
  }

  lemma WithChildAppendedValid(s: Store, n: NodeId, name: string)
    requires WellFormed(s)
    ensures WellFormed(WithChildAppended(s, n, name).0)
  {
    if n in s.nodes {
      var (t, c) := WithChildAppended(s, n, name);
      assert c !in s.nodes;
      forall m | m in t.nodes ensures ParentListsChild(t, m) {
        if m != c {
          assert ParentListsChild(s, m);
        }
      }
      forall m | m in t.nodes ensures ChildrenPointBack(t, m) {
        if m != c {
          assert ChildrenPointBack(s, m);
          var cs := t.nodes[m].children;
          forall i | 0 <= i < |cs| ensures cs[i] in t.nodes && t.nodes[cs[i]].parent == m {
            if i < |s.nodes[m].children| {
              assert cs[i] == s.nodes[m].children[i];
            }
          }
        }
      }
    }
  }

  /** The child list after insert_child_after: still distinct, and one member more. */
  lemma SpliceFacts(cs: seq<NodeId>, i: nat, c: NodeId)
    requires i < |cs| && Distinct(cs) && c !in cs
    ensures var ds := cs[..i + 1] + [c] + cs[i + 1..];
      && Distinct(ds)
      && forall x :: x in ds <==> x in cs || x == c
  {
    var ds := cs[..i + 1] + [c] + cs[i + 1..];
    assert cs == cs[..i + 1] + cs[i + 1..];
    forall a, b | 0 <= a < b < |ds| ensures ds[a] != ds[b] {
      if a != i + 1 && b != i + 1 {
        var a' := if a < i + 1 then a else a - 1;
        var b' := if b < i + 1 then b else b - 1;
        assert ds[a] == cs[a'] && ds[b] == cs[b'];
      } else if a == i + 1 {
        assert ds[b] == cs[b - 1];
      } else {
        assert ds[a] == cs[a];
      }
    }
  }

  lemma WithChildInsertedAfterValid(s: Store, p: NodeId, name: string, after: NodeId)
    requires WellFormed(s)
    ensures WellFormed(WithChildInsertedAfter(s, p, name, after).0)
  {
    var (t, c) := WithChildInsertedAfter(s, p, name, after);
    if c != Null {
      assert c == s.nextId && c !in s.nodes;
      var i := IndexOf(s.nodes[p].children, after).value;
      var cs := s.nodes[p].children;
      var ds := cs[..i + 1] + [c] + cs[i + 1..];
      assert t.nodes[p].children == ds;
      assert ChildrenPointBack(s, p);
      SpliceFacts(cs, i, c);
      assert forall x :: x in s.nodes ==> t.nodes[x].parent == s.nodes[x].parent;
      forall m | m in t.nodes ensures ParentListsChild(t, m) {
        if m != c {
          assert ParentListsChild(s, m);
        }
      }
      forall m | m in t.nodes ensures ChildrenPointBack(t, m) {
        if m == p {
          forall k | 0 <= k < |ds| ensures ds[k] in t.nodes && t.nodes[ds[k]].parent == p {
            if ds[k] != c {
              assert ds[k] in cs;
            }
          }
        } else if m != c {
          assert ChildrenPointBack(s, m);
        }
      }
    }
  }

  // ---------------------------------------------------------------------
  // How the updates are seen by the queries.

  /** Looking up a name after one more attribute was appended. */
  lemma {:induction false} FindAttributeAppend(attrs: seq<Attribute>, a: Attribute, name: string)
    ensures FindAttribute(attrs + [a], name) ==
      if FindAttribute(attrs, name).Some? then FindAttribute(attrs, name)
      else if a.name == name && name != "" then Some(a.value)
      else None
  {
    if attrs != [] {
      assert (attrs + [a])[1..] == attrs[1..] + [a];
      FindAttributeAppend(attrs[1..], a, name);
    }
  }

  /** Looking up a name in a list with one more handle at its end. */
  lemma {:induction false} FindNamedAppend(s: Store, ids: seq<NodeId>, x: NodeId, name: string)
    ensures FindNamed(s, ids + [x], name) ==
      if FindNamed(s, ids, name) != Null then FindNamed(s, ids, name)
      else if Named(s, x, name) then x
      else Null
  {
    if ids != [] {
      assert (ids + [x])[1..] == ids[1..] + [x];
      FindNamedAppend(s, ids[1..], x, name);
    }
  }

  /** Looking up names is the same in two stores that agree on the listed nodes. */
  lemma {:induction false} FindNamedFrame(s: Store, t: Store, ids: seq<NodeId>, name: string)
    requires forall i :: 0 <= i < |ids| ==> (Named(s, ids[i], name) <==> Named(t, ids[i], name))
    ensures FindNamed(s, ids, name) == FindNamed(t, ids, name)
  {
    if ids != [] {
      FindNamedFrame(s, t, ids[1..], name);
    }
  }

  /**
   * The writer's child and the reader's child agree: once a child called
   * `name` has been appended to `n`, looking up `name` under `n` finds it,
   * unless an earlier child of that name was already there or the name is
   * empty. The
   * earlier children stay where they were, and nothing else moves.
   */
  lemma AppendChildThenFind(s: Store, n: NodeId, name: string)
    requires WellFormed(s) && n in s.nodes
    ensures var (t, c) := WithChildAppended(s, n, name);
      && c != Null && c !in s.nodes && t.nodes.Keys == s.nodes.Keys + {c}
      && t.nodes[n] == s.nodes[n].(children := s.nodes[n].children + [c])
      && t.nextId == s.nextId + 1
      && NameOf(t, c) == name && ParentOf(t, c) == n
      && t.nodes[c].children == [] && TextOf(t, c) == None && t.nodes[c].attributes == []
      && (forall m :: m in s.nodes && m != n ==> t.nodes[m] == s.nodes[m])
      && FirstChild(t, n, name) ==
           if FirstChild(s, n, name) != Null then FirstChild(s, n, name) else if name == "" then Null else c
  {
    var (t, c) := WithChildAppended(s, n, name);
    var cs := s.nodes[n].children;
    forall i | 0 <= i < |cs| ensures Named(s, cs[i], name) <==> Named(t, cs[i], name) {
      assert ChildrenPointBack(s, n);
    }
    FindNamedFrame(s, t, cs, name);
    FindNamedAppend(t, cs, c, name);
  }

  /** A position of `x` with no earlier occurrence is the one `IndexOf` finds. */
  lemma IndexOfAt(ids: seq<NodeId>, x: NodeId, i: nat)
    requires i < |ids| && ids[i] == x && x !in ids[..i]
    ensures IndexOf(ids, x) == Some(i)
  {
    assert x in ids;
  }

  /**
   * The writer's next_sibling and the reader's next_sibling agree: the node
   * inserted after `after` sits immediately behind it among the children of
   * its parent `p`, so the first later sibling called `name` is the new node
   * (for a non-empty name; the empty name matches nothing).
   */
  lemma InsertAfterThenFind(s: Store, p: NodeId, after: NodeId, name: string)
    requires WellFormed(s) && after in s.nodes && p == ParentOf(s, after) && p != Null
    ensures p in s.nodes && after in s.nodes[p].children
    ensures var i := IndexOf(s.nodes[p].children, after).value;
      var cs := s.nodes[p].children;
      var (t, c) := WithChildInsertedAfter(s, p, name, after);
      && c != Null && c !in s.nodes && t.nodes.Keys == s.nodes.Keys + {c} && t.nextId == s.nextId + 1
      && t.nodes[p] == s.nodes[p].(children := cs[..i + 1] + [c] + cs[i + 1..])
      && (forall m :: m in s.nodes && m != p ==> t.nodes[m] == s.nodes[m])
      && t.nodes[c] == NewNode(name, p)
      && NameOf(t, c) == name && ParentOf(t, c) == p
    ensures var (t, c) := WithChildInsertedAfter(s, p, name, after);
      NextSiblingOf(t, after, name) == if name == "" then Null else c
  {
    assert ParentListsChild(s, after);
    var cs := s.nodes[p].children;
    var i := IndexOf(cs, after).value;
    var (t, c) := WithChildInsertedAfter(s, p, name, after);
    assert c == s.nextId && c != after;
    assert t.nodes[after].parent == p && t.nodes[c] == NewNode(name, p);
    SiblingFound(t, p, after, name, cs, i, c);
  }

  /**
   * Once `c` sits right behind `after` among the children of `p`, the first
   * later sibling of `after` called `name` is `c`.
   */
  lemma SiblingFound(t: Store, p: NodeId, after: NodeId, name: string, cs: seq<NodeId>, i: nat, c: NodeId)
    requires p != Null && p in t.nodes && after in t.nodes && t.nodes[after].parent == p
    requires i < |cs| && cs[i] == after && after !in cs[..i] && c != after
    requires t.nodes[p].children == cs[..i + 1] + [c] + cs[i + 1..]
    requires c != Null && c in t.nodes && t.nodes[c].name == name
    ensures NextSiblingOf(t, after, name) == if name == "" then Null else c
  {
    var ds := cs[..i + 1] + [c] + cs[i + 1..];
    assert ds[..i] == cs[..i];
    IndexOfAt(ds, after, i);
    assert ds[i + 1..] == [c] + cs[i + 1..];
    FindNamedCons(t, c, cs[i + 1..], name);
  }

  /** Looking up a name in a list that starts with `x`. */
  lemma FindNamedCons(s: Store, x: NodeId, rest: seq<NodeId>, name: string)
    ensures FindNamed(s, [x] + rest, name) == if Named(s, x, name) then x else FindNamed(s, rest, name)
  {
    assert ([x] + rest)[1..] == rest;
  }

  /**
   * The mutable document. Node handles point into it; every serializer
   * cursor of one session shares it.
   */
  class Document {
    var nodes: map<NodeId, Node>
    var nextId: NodeId

    function State(): Store
      reads this
    {
      Store(nodes, nextId)
    }

    ghost predicate Valid()
      reads this
    {
      WellFormed(State())
    }

    /** An empty xml_document. */
    constructor ()
      ensures Valid() && State() == Empty()
    {
      nodes := Empty().nodes;
      nextId := Empty().nextId;
    }

    /** xml_node::set_name. */
    method SetName(n: NodeId, name: string)
      requires Valid()
      modifies this
      ensures Valid() && State() == Renamed(old(State()), n, name)
    {
      RenamedValid(State(), n, name);
      var t := Renamed(State(), n, name);
      nodes, nextId := t.nodes, t.nextId;
    }

    /** xml_node::text().set */
    method SetText(n: NodeId, v: Value)
      requires Valid()
      modifies this
      ensures Valid() && State() == WithText(old(State()), n, v)
    {
      WithTextValid(State(), n, v);
      var t := WithText(State(), n, v);
      nodes, nextId := t.nodes, t.nextId;
    }

    /** xml_node::append_attribute followed by the value assignment. */
    method AppendAttribute(n: NodeId, name: string, v: Value)
      requires Valid()
      modifies this
      ensures Valid() && State() == WithAttributeAppended(old(State()), n, name, v)
    {
      WithAttributeAppendedValid(State(), n, name, v);
      var t := WithAttributeAppended(State(), n, name, v);
      nodes, nextId := t.nodes, t.nextId;
    }

    /** xml_node::append_child. */
    method AppendChild(n: NodeId, name: string) returns (c: NodeId)
      requires Valid()
      modifies this
      ensures Valid() && (State(), c) == WithChildAppended(old(State()), n, name)
    {
      WithChildAppendedValid(State(), n, name);
      var r := WithChildAppended(State(), n, name);
      nodes, nextId, c := r.0.nodes, r.0.nextId, r.1;
    }

    /** xml_node::insert_child_after, called on `p`. */
    method InsertChildAfter(p: NodeId, name: string, after: NodeId) returns (c: NodeId)
      requires Valid()
      modifies this
      ensures Valid() && (State(), c) == WithChildInsertedAfter(old(State()), p, name, after)
    {
      WithChildInsertedAfterValid(State(), p, name, after);
      var r := WithChildInsertedAfter(State(), p, name, after);
      nodes, nextId, c := r.0.nodes, r.0.nextId, r.1;
    }
  }
}
