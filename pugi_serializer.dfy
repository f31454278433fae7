/**
 * The serialization facade: a cursor (`serilaizer_base`) that carries a node
 * of the shared document and the session's one strategy object, and forwards
 * every call, with its node, to that strategy. `writer` and `reader` are the
 * two ways to start a session; they fix the direction once.
 */
module PugiSerializer {
  import opened XmlStore
  import opened Scalars
  import opened Impl

  /**
   * The text overloads of the cursor that forward to the strategy:
   * std::string, int and unsigned. The others have empty bodies.
   */
  predicate TextForwarded(slot: Scalar) {
    slot.Chars? || (slot.Integer? && (slot.width == Int32 || slot.width == UInt32))
  }

  class Serializer {
    const doc: Document
    const node: NodeId
    const implementor: Implementor

    /** serilaizer_base(in_node, in_implementor). */
    constructor (doc: Document, node: NodeId, implementor: Implementor)
      ensures this.doc == doc && this.node == node && this.implementor == implementor
    {
      this.doc := doc;
      this.node := node;
      this.implementor := implementor;
    }

    /** writer(doc, doc_element_name): a new root element, written to. */
    constructor Writer(doc: Document, rootName: string)
      requires doc.Valid()
      modifies doc
      ensures doc.Valid() && this.doc == doc && fresh(implementor) && Writing()
      ensures (doc.State(), node) == WithChildAppended(old(doc.State()), Root, rootName)
    {
      var root := doc.AppendChild(Root, rootName);
      this.doc := doc;
      this.node := root;
      this.implementor := new Implementor.Writer();
    }

    /** writer(in_node). */
    constructor WriterAt(doc: Document, n: NodeId)
      ensures this.doc == doc && node == n && fresh(implementor) && Writing()
    {
      this.doc := doc;
      this.node := n;
      this.implementor := new Implementor.Writer();
    }

    /** reader(doc): the document element, read from. */
    constructor Reader(doc: Document)
      ensures this.doc == doc && node == DocumentElement(doc.State()) && fresh(implementor) && Reading()
    {
      this.doc := doc;
      this.node := DocumentElement(doc.State());
      this.implementor := new Implementor.Reader();
    }

    /** reader(in_node). */
    constructor ReaderAt(doc: Document, n: NodeId)
      ensures this.doc == doc && node == n && fresh(implementor) && Reading()
    {
      this.doc := doc;
      this.node := n;
      this.implementor := new Implementor.Reader();
    }

    predicate Reading() {
      implementor.Reading()
    }

    predicate Writing()
      ensures Writing() != Reading()
    {
      implementor.Writing()
    }

    method NodeName(name: string) returns (r: string)
      requires doc.Valid()
      modifies doc
      ensures doc.Valid()
      ensures Reading() ==> unchanged(doc) && r == NameOf(old(doc.State()), node)
      ensures Writing() ==> doc.State() == Renamed(old(doc.State()), node, name) && r == name
    {
      r := implementor.NodeName(doc, node, name);
    }

    /** A cursor at the child the strategy chose, bound to the same strategy. */
    method Child(name: string) returns (c: Serializer)
      requires doc.Valid()
      modifies doc
      ensures doc.Valid() && fresh(c)
      ensures c.doc == doc && c.implementor == implementor && c.Reading() == Reading()
      ensures Reading() ==> unchanged(doc) && c.node == FirstChild(old(doc.State()), node, name)
      ensures Writing() ==> (doc.State(), c.node) == WithChildAppended(old(doc.State()), node, name)
    {
      var a := implementor.Child(doc, node, name);
      c := new Serializer(doc, a, implementor);
    }

    /** A cursor at the sibling the strategy chose, bound to the same strategy. */
    method NextSibling(name: string) returns (c: Serializer)
      requires doc.Valid()
      modifies doc
      ensures doc.Valid() && fresh(c)
      ensures c.doc == doc && c.implementor == implementor && c.Reading() == Reading()
      ensures Reading() ==> unchanged(doc) && c.node == NextSiblingOf(old(doc.State()), node, name)
      ensures Writing() ==> (doc.State(), c.node) == WriteNextSibling(old(doc.State()), node, name)
    {
      var a := implementor.NextSibling(doc, node, name);
      c := new Serializer(doc, a, implementor);
    }

    /** The text overloads without a default; all but three do nothing. */
    method Text(slot: Scalar) returns (r: Scalar)
      requires doc.Valid()
      modifies doc
      ensures doc.Valid()
      ensures !TextForwarded(slot) ==> unchanged(doc) && r == slot
      ensures TextForwarded(slot) && Reading() ==> unchanged(doc) && r == ReadText(old(doc.State()), node, slot)
      ensures TextForwarded(slot) && Writing() ==> doc.State() == WriteText(old(doc.State()), node, slot) && r == slot
    {
      if TextForwarded(slot) {
        r := implementor.Text(doc, node, slot);
      } else {
        r := slot;
      }
    }

    /**
     * The text overloads with a default; only the std::string one forwards,
     * and its reading form is not part of this model.
     */
    method TextDefault(slot: Scalar, def: Scalar) returns (r: Scalar)
      requires doc.Valid() && SameType(slot, def)
      requires slot.Chars? ==> Writing()
      modifies doc
      ensures doc.Valid()
      ensures !slot.Chars? ==> unchanged(doc) && r == slot
      ensures slot.Chars? ==> doc.State() == WriteTextDefault(old(doc.State()), node, slot, def) && r == slot
    {
      if slot.Chars? {
        r := implementor.TextDefault(doc, node, slot, def);
      } else {
        r := slot;
      }
    }

    /** attribute(name, std::string&). */
    method Attribute(name: string, text: string) returns (r: string)
      requires doc.Valid()
      modifies doc
      ensures doc.Valid()
      ensures Reading() ==> unchanged(doc) && Chars(r) == ReadAttribute(old(doc.State()), node, name, Chars(text))
      ensures Writing() ==> doc.State() == WriteAttribute(old(doc.State()), node, name, Chars(text)) && r == text
    {
      var x := implementor.Attribute(doc, node, name, Chars(text));
      r := x.s;
    }

    /** attribute(name, std::string&, default). */
    method AttributeDefault(name: string, text: string, def: string) returns (r: string)
      requires doc.Valid()
      modifies doc
      ensures doc.Valid()
      ensures Reading() ==> unchanged(doc) && Chars(r) == ReadAttributeDefault(old(doc.State()), node, name, Chars(text), Chars(def))
      ensures Writing() ==> doc.State() == WriteAttributeDefault(old(doc.State()), node, name, Chars(text), Chars(def)) && r == text
    {
      var x := implementor.AttributeDefault(doc, node, name, Chars(text), Chars(def));
      r := x.s;
    }

    /** attribute(name, std::string&), to the corrected reader. */
    method AttributeCorrected(name: string, text: string) returns (r: string)
      requires doc.Valid()
      modifies doc
      ensures doc.Valid()
      ensures Reading() ==> unchanged(doc) && Chars(r) == ReadAttributeCorrected(old(doc.State()), node, name, Chars(text))
      ensures Writing() ==> doc.State() == WriteAttribute(old(doc.State()), node, name, Chars(text)) && r == text
    {
      var x := implementor.AttributeCorrected(doc, node, name, Chars(text));
      r := x.s;
    }

    /** attribute(name, std::string&, default), to the corrected reader. */
    method AttributeDefaultCorrected(name: string, text: string, def: string) returns (r: string)
      requires doc.Valid()
      modifies doc
      ensures doc.Valid()
      ensures Reading() ==> unchanged(doc) && Chars(r) == ReadAttributeDefaultCorrected(old(doc.State()), node, name, Chars(text), Chars(def))
      ensures Writing() ==> doc.State() == WriteAttributeDefault(old(doc.State()), node, name, Chars(text), Chars(def)) && r == text
    {
      var x := implementor.AttributeDefaultCorrected(doc, node, name, Chars(text), Chars(def));
      r := x.s;
    }

    /** Every text overload forwarding, to the corrected reader. */
    method TextCorrected(slot: Scalar) returns (r: Scalar)
      requires doc.Valid()
      modifies doc
      ensures doc.Valid()
      ensures Reading() ==> unchanged(doc) && r == ReadTextCorrected(old(doc.State()), node, slot)
      ensures Writing() ==> doc.State() == WriteText(old(doc.State()), node, slot) && r == slot
    {
      r := implementor.TextCorrected(doc, node, slot);
    }

    /** Every defaulted text overload forwarding, to the corrected reader. */
    method TextDefaultCorrected(slot: Scalar, def: Scalar) returns (r: Scalar)
      requires doc.Valid() && SameType(slot, def)
      modifies doc
      ensures doc.Valid()
      ensures Reading() ==> unchanged(doc) && r == ReadTextDefaultCorrected(old(doc.State()), node, slot, def)
      ensures Writing() ==> doc.State() == WriteTextDefault(old(doc.State()), node, slot, def) && r == slot
    {
      r := implementor.TextDefaultCorrected(doc, node, slot, def);
    }
  }

  // ---------------------------------------------------------------------
  // Sessions driven through the facade.

  /**
   * Sibling insertion through writer cursors: under root "p", child "a",
   * then next_sibling("b") and next_sibling("c") from "a".
   */
  method SiblingSession() returns (names: seq<string>)
    ensures names == ["a", "c", "b"]
  {
    var doc := new Document();
    var p := new Serializer.Writer(doc, "p");
    AppendChildThenFind(Empty(), Root, "p");
    ghost var s0 := doc.State();
    var a := p.Child("a");
    AppendChildThenFind(s0, p.node, "a");
    ghost var s1 := doc.State();
    var b := a.NextSibling("b");
    ghost var s2 := doc.State();
    var c := a.NextSibling("c");
    SiblingInsertionOrder(s1, a.node, s2, b.node, doc.State(), c.node);
    names := ChildNames(doc.State(), p.node);
  }

  /**
   * The store a two-field session leaves: root "doc" appended to the empty
   * document, then its children "count" (given the text `v`, if any) and
   * "zero" (given no text).
   */
  lemma TwoFieldStore(s0: Store, root: NodeId, s1: Store, c: NodeId, v: Option<Value>, s2: Store, s3: Store, z: NodeId)
    requires (s0, root) == WithChildAppended(Empty(), Root, "doc")
    requires (s1, c) == WithChildAppended(s0, root, "count")
    requires s2 == if v.Some? then WithText(s1, c, v.value) else s1
    requires (s3, z) == WithChildAppended(s2, root, "zero")
    ensures root == DocumentElement(s3) && root in s3.nodes && NameOf(s3, root) == "doc"
    ensures s3.nodes[root].children == [c, z] && TextOf(s3, root) == None
    ensures ChildNames(s3, root) == ["count", "zero"]
    ensures TextOf(s3, c) == v && TextOf(s3, z) == None
  {
    assert root == 2 && s0.nodes[Root].children == [root] && s0.nodes[root] == NewNode("doc", Root);
    assert c == 3 && s1.nodes[root].children == [c] && s1.nodes[c] == NewNode("count", root);
    assert s2.nodes[root] == s1.nodes[root] && s2.nodes[Root] == s1.nodes[Root] && s2.nextId == 4;
    assert z == 4 && s3.nodes[root].children == [c, z];
    assert s3.nodes[c] == s2.nodes[c] && s3.nodes[z] == NewNode("zero", root);
  }

  /**
   * The intended session: root "doc", child "count" holding 5 with default
   * 0, and child "zero" holding 0 with default 0. The value equal to its
   * default writes no text, but `child` has already appended the element.
   */
  method CountSession() returns (s: Store, root: NodeId)
    ensures root == DocumentElement(s) && root in s.nodes && NameOf(s, root) == "doc"
    ensures ChildNames(s, root) == ["count", "zero"] && TextOf(s, root) == None
    ensures TextOf(s, s.nodes[root].children[0]) == Some(Int(5))
    ensures TextOf(s, s.nodes[root].children[1]) == None
  {
    var doc := new Document();
    var w := new Serializer.Writer(doc, "doc");
    ghost var s0 := doc.State();
    var c := w.Child("count");
    ghost var s1 := doc.State();
    var _ := c.TextDefaultCorrected(Integer(Int32, 5), Integer(Int32, 0));
    ghost var s2 := doc.State();
    var z := w.Child("zero");
    ghost var s3 := doc.State();
    var _ := z.TextDefaultCorrected(Integer(Int32, 0), Integer(Int32, 0));
    TwoFieldStore(s0, w.node, s1, c.node, Some(Int(5)), s2, s3, z.node);
    s, root := doc.State(), w.node;
  }

  /** The same session through the cursor as written: "count" gets no text either. */
  method CountSessionAsWritten() returns (s: Store, root: NodeId)
    ensures root == DocumentElement(s) && root in s.nodes && NameOf(s, root) == "doc"
    ensures ChildNames(s, root) == ["count", "zero"] && TextOf(s, root) == None
    ensures TextOf(s, s.nodes[root].children[0]) == None
    ensures TextOf(s, s.nodes[root].children[1]) == None
  {
    var doc := new Document();
    var w := new Serializer.Writer(doc, "doc");
    ghost var s0 := doc.State();
    var c := w.Child("count");
    ghost var s1 := doc.State();
    var _ := c.TextDefault(Integer(Int32, 5), Integer(Int32, 0));
    ghost var s2 := doc.State();
    var z := w.Child("zero");
    ghost var s3 := doc.State();
    var _ := z.TextDefault(Integer(Int32, 0), Integer(Int32, 0));
    TwoFieldStore(s0, w.node, s1, c.node, None, s2, s3, z.node);
    s, root := doc.State(), w.node;
  }

  /**
   * A field written through a writer session with a default and read back
   * through a reader session with the same default, both through the
   * corrected text overloads: the reader gets the value written.
   */
  method TextSession(x: Scalar, def: Scalar, slot: Scalar) returns (r: Scalar)
    requires WellTyped(x) && SameType(x, def) && SameType(x, slot)
    ensures r == x
  {
    var doc := new Document();
    var w := new Serializer.Writer(doc, "root");
    var f := w.Child("field");
    ghost var before := doc.State();
    var _ := f.TextDefaultCorrected(x, def);
    var rd := new Serializer.Reader(doc);
    var g := rd.Child("field");
    assert g.node == f.node;
    TextDefaultRoundTripCorrected(before, f.node, x, def, slot);
    r := g.TextDefaultCorrected(slot, def);
  }

  /**
   * A field written as text through a writer session and read back through
   * a reader session, both through the cursor as written. For the std::string,
   * int and unsigned overloads the value comes back exactly when it survives
   * as_int; the other overloads do nothing, so the reader's variable keeps
   * whatever it held.
   */
  method TextSessionAsWritten(x: Scalar, slot: Scalar) returns (r: Scalar)
    requires WellTyped(x) && SameType(x, slot)
    ensures TextForwarded(x) ==> (r == x <==> SurvivesAsInt(x))
    ensures !TextForwarded(x) ==> r == slot
  {
    var doc := new Document();
    var w := new Serializer.Writer(doc, "root");
    var f := w.Child("field");
    ghost var before := doc.State();
    var _ := f.Text(x);
    var rd := new Serializer.Reader(doc);
    var g := rd.Child("field");
    assert g.node == f.node;
    if TextForwarded(x) {
      TextRoundTrip(before, f.node, x, slot);
    }
    r := g.Text(slot);
  }

  /**
   * A string attribute written with a default and read back with the same
   * default, through the cursor as written: the reader gets the value
   * written, whether or not it equals the default, except the empty string
   * against a non-empty default, where the reader's variable keeps its value.
   */
  method AttributeSession(text: string, def: string, slot: string) returns (r: string)
    ensures r == if text == "" && def != "" then slot else text
  {
    var doc := new Document();
    var w := new Serializer.Writer(doc, "root");
    AppendChildThenFind(Empty(), Root, "root");
    ghost var before := doc.State();
    var _ := w.AttributeDefault("name", text, def);
    var rd := new Serializer.Reader(doc);
    assert rd.node == w.node;
    AttributeDefaultRoundTrip(before, w.node, "name", Chars(text), Chars(def), Chars(slot));
    r := rd.AttributeDefault("name", slot, def);
  }

  /** The same session through the corrected reader: the value written always comes back. */
  method AttributeSessionCorrected(text: string, def: string, slot: string) returns (r: string)
    ensures r == text
  {
    var doc := new Document();
    var w := new Serializer.Writer(doc, "root");
    AppendChildThenFind(Empty(), Root, "root");
    ghost var before := doc.State();
    var _ := w.AttributeDefaultCorrected("name", text, def);
    var rd := new Serializer.Reader(doc);
    assert rd.node == w.node;
    AttributeDefaultRoundTripCorrected(before, w.node, "name", Chars(text), Chars(def), Chars(slot));
    r := rd.AttributeDefaultCorrected("name", slot, def);
  }

  // ---------------------------------------------------------------------
  // serilaizer_base::operator=, on values.

  /**
   * A strategy object as copy assignment sees it: `writes` is its class
   * (writer_impl or reader_impl), which picks the code that runs, and
   * `reading` is its flag, which reading() and writing() report.
   */
  datatype StrategyState = StrategyState(writes: bool, reading: bool)

  /** A cursor: its node and the strategy object it refers to. */
  datatype CursorState = CursorState(node: NodeId, strategy: StrategyState)

  /** The flag agrees with the class, as both constructors leave it. */
  predicate Consistent(st: StrategyState) {
    st.reading == !st.writes
  }

  /**
   * operator= as written: the node is copied, and the assignment through
   * the reference member runs impl_base's copy assignment, which copies the
   * flag of the other strategy into this cursor's strategy and keeps its class.
   */
  function AssignAsWritten(dst: CursorState, src: CursorState): (r: CursorState)
    ensures r.node == src.node && r.strategy.writes == dst.strategy.writes
    ensures r.strategy.reading == src.strategy.reading
  {
    CursorState(src.node, dst.strategy.(reading := src.strategy.reading))
  }

  /**
   * Assigning a cursor keeps the strategy consistent exactly when both
   * cursors have strategies of the same class, as within one session.
   */
  lemma AssignAsWrittenConsistent(dst: CursorState, src: CursorState)
    requires Consistent(dst.strategy) && Consistent(src.strategy)
    ensures Consistent(AssignAsWritten(dst, src).strategy) <==> dst.strategy.writes == src.strategy.writes
  {
  }

  /**
   * A writer cursor assigned from a reader cursor reports reading() while
   * its calls still run the writer's code.
   */
  lemma WriterAssignedFromReader(n: NodeId, m: NodeId)
    ensures var r := AssignAsWritten(CursorState(n, StrategyState(true, false)), CursorState(m, StrategyState(false, true)));
      r.strategy.writes && r.strategy.reading && !Consistent(r.strategy)
  {
  }

  /** operator= as evidently intended: the cursor takes the other's node and strategy. */
  function AssignCorrected(dst: CursorState, src: CursorState): (r: CursorState)
    ensures Consistent(src.strategy) ==> Consistent(r.strategy)
    ensures r.node == src.node && r.strategy.reading == src.strategy.reading
    ensures r.strategy.writes == src.strategy.writes
  {
    src
  }
}
