/**
 * The two direction strategies of the serializer (C++ namespace `impl`):
 * `writer_impl` builds the element tree, `reader_impl` copies values out of
 * an existing tree into the caller's variables.
 *
 * The reader's operations are pure functions from (store, node, old slot) to
 * the new slot. The writer's are updates of the store. `Implementor` is the
 * strategy object, `impl_base` with its direction flag, whose methods pick
 * the writer's or the reader's behaviour by that flag.
 */
module Impl {
  import opened XmlStore
  import opened Scalars

  // ---------------------------------------------------------------------
  // reader_impl

  /** text().as_int(): 0 when the node has no text. */
  function TextAsInt(s: Store, n: NodeId): (r: int)
    ensures InRange(Int32, r)
    ensures TextOf(s, n).None? ==> r == 0
  {
    match TextOf(s, n)
    case Some(v) => AsInteger(Int32, v)
    case None => 0
  }

  /**
   * reader_impl::text without a default. A string slot gets the text (empty
   * when there is none); every other slot gets text().as_int(), converted to
   * the slot's C++ type, whatever that type is.
   */
  function ReadText(s: Store, n: NodeId, slot: Scalar): (r: Scalar)
    ensures SameType(r, slot) && WellTyped(r)
    ensures TextOf(s, n).None? ==> r == Zero(slot)
  {
    match slot
    case Chars(_) => Chars(match TextOf(s, n) case Some(v) => AsString(v) case None => "")
    case Integer(w, _) => Integer(w, FromInt(w, TextAsInt(s, n)))
    case Boolean(_) => Boolean(TextAsInt(s, n) != 0)
  }

  /**
   * reader_impl::text with a default, for the numeric and bool slots: the
   * text is read only when the slot does not already hold the default.
   */
  function ReadTextDefault(s: Store, n: NodeId, slot: Scalar, def: Scalar): (r: Scalar)
    requires SameType(slot, def) && !slot.Chars?
    ensures SameType(r, slot)
    ensures slot == def ==> r == slot
    ensures slot != def ==> r == ReadText(s, n, slot)
    ensures WellTyped(slot) ==> WellTyped(r)
  {
    if def != slot then ReadText(s, n, slot) else slot
  }

  /**
   * An attribute value pugixml holds as no value at all: assigning the
   * empty string stores a null value, and as_string(fallback), as_int(fallback)
   * and the other attribute conversions return their fallback for it.
   */
  predicate Unset(v: Value) {
    v == Str("")
  }

  /**
   * reader_impl::attribute without a default: the attribute's value read
   * with the slot's type, with the slot's old value as the fallback. An
   * absent attribute, and one holding the empty string, leave the slot as it was.
   */
  function ReadAttribute(s: Store, n: NodeId, name: string, slot: Scalar): (r: Scalar)
    ensures SameType(r, slot)
    ensures WellTyped(slot) ==> WellTyped(r)
    ensures AttributeOf(s, n, name).None? ==> r == slot
    ensures AttributeOf(s, n, name) == Some(Str("")) ==> r == slot
    ensures forall v :: AttributeOf(s, n, name) == Some(v) && !Unset(v) ==> r == Decode(slot, v)
  {
    match AttributeOf(s, n, name)
    case None => slot
    case Some(v) => if Unset(v) then slot else Decode(slot, v)
  }

  /**
   * reader_impl::attribute with a default: the default when the attribute
   * is absent. A present attribute is read with the slot's type; when it
   * holds the empty string the fallback is what the overload passes, the old
   * value for std::string (as_string(_text)) and the default for the others.
   */
  function ReadAttributeDefault(s: Store, n: NodeId, name: string, slot: Scalar, def: Scalar): (r: Scalar)
    requires SameType(slot, def)
    ensures SameType(r, slot)
    ensures WellTyped(slot) && WellTyped(def) ==> WellTyped(r)
    ensures AttributeOf(s, n, name).None? ==> r == def
    ensures AttributeOf(s, n, name) == Some(Str("")) ==> r == if slot.Chars? then slot else def
    ensures forall v :: AttributeOf(s, n, name) == Some(v) && !Unset(v) ==> r == Decode(slot, v)
  {
    match AttributeOf(s, n, name)
    case None => def
    case Some(v) => if Unset(v) then (if slot.Chars? then slot else def) else Decode(slot, v)
  }

  // The readers as evidently intended (see the findings in README.md).

  /** Text read with the slot's own conversion, as the attribute readers do. */
  function ReadTextCorrected(s: Store, n: NodeId, slot: Scalar): (r: Scalar)
    ensures SameType(r, slot) && WellTyped(r)
    ensures TextOf(s, n).None? ==> r == Zero(slot)
    ensures forall v :: TextOf(s, n) == Some(v) ==> r == Decode(slot, v)
  {
    match TextOf(s, n)
    case None => Zero(slot)
    case Some(v) => Decode(slot, v)
  }

  /** Text read with the slot's own conversion, or the default when there is no text. */
  function ReadTextDefaultCorrected(s: Store, n: NodeId, slot: Scalar, def: Scalar): (r: Scalar)
    requires SameType(slot, def)
    ensures SameType(r, slot)
    ensures WellTyped(def) ==> WellTyped(r)
    ensures TextOf(s, n).None? ==> r == def
    ensures forall v :: TextOf(s, n) == Some(v) ==> r == Decode(slot, v)
  {
    match TextOf(s, n)
    case None => def
    case Some(v) => Decode(slot, v)
  }

  /** An attribute read as evidently intended: a present value, even the empty string, is read back. */
  function ReadAttributeCorrected(s: Store, n: NodeId, name: string, slot: Scalar): (r: Scalar)
    ensures SameType(r, slot)
    ensures WellTyped(slot) ==> WellTyped(r)
    ensures AttributeOf(s, n, name).None? ==> r == slot
    ensures forall v :: AttributeOf(s, n, name) == Some(v) ==> r == Decode(slot, v)
    ensures AttributeOf(s, n, name) == Some(Str("")) && slot.Chars? ==> r == Chars("")
  {
    match AttributeOf(s, n, name)
    case None => slot
    case Some(v) => Decode(slot, v)
  }

  /** The defaulted attribute read as evidently intended: the default when the attribute is absent. */
  function ReadAttributeDefaultCorrected(s: Store, n: NodeId, name: string, slot: Scalar, def: Scalar): (r: Scalar)
    requires SameType(slot, def)
    ensures SameType(r, slot)
    ensures WellTyped(def) ==> WellTyped(r)
    ensures AttributeOf(s, n, name).None? ==> r == def
    ensures forall v :: AttributeOf(s, n, name) == Some(v) ==> r == Decode(slot, v)
    ensures AttributeOf(s, n, name) == Some(Str("")) && slot.Chars? ==> r == Chars("")
  {
    match AttributeOf(s, n, name)
    case None => def
    case Some(v) => Decode(slot, v)
  }

  // ---------------------------------------------------------------------
  // writer_impl

  /** writer_impl::text: text().set(slot). */
  function WriteText(s: Store, n: NodeId, x: Scalar): (t: Store)
    ensures n in s.nodes ==> t.nodes == s.nodes[n := s.nodes[n].(text := Some(Encode(x)))] && t.nextId == s.nextId
    ensures n !in s.nodes ==> t == s
    ensures t.nodes.Keys == s.nodes.Keys
    ensures n in s.nodes ==> TextOf(t, n) == Some(Encode(x))
    ensures forall m :: m in s.nodes && m != n ==> t.nodes[m] == s.nodes[m]
  {
    WithText(s, n, Encode(x))
  }

  /** writer_impl::text with a default: nothing is written when the value equals the default. */
  function WriteTextDefault(s: Store, n: NodeId, x: Scalar, def: Scalar): (t: Store)
    ensures x == def || n !in s.nodes ==> t == s
    ensures x != def && n in s.nodes ==>
      t.nodes == s.nodes[n := s.nodes[n].(text := Some(Encode(x)))] && t.nextId == s.nextId
    ensures x != def && n in s.nodes ==> TextOf(t, n) == Some(Encode(x))
    ensures t.nodes.Keys == s.nodes.Keys
    ensures forall m :: m in s.nodes && m != n ==> t.nodes[m] == s.nodes[m]
  {
    if x != def then WriteText(s, n, x) else s
  }

  /**
   * writer_impl::attribute: append_attribute(name) set to the slot's value.
   * On an element the reader then finds that value, unless the name was
   * already there or is empty.
   */
  function WriteAttribute(s: Store, n: NodeId, name: string, x: Scalar): (t: Store)
    ensures !IsElement(s, n) ==> t == s
    ensures IsElement(s, n) ==>
      t.nodes.Keys == s.nodes.Keys && t.nodes[n].attributes == s.nodes[n].attributes + [Attribute(name, Encode(x))]
    ensures IsElement(s, n) && name != "" && AttributeOf(s, n, name).None? ==> AttributeOf(t, n, name) == Some(Encode(x))
    ensures AttributeOf(s, n, name).Some? ==> AttributeOf(t, n, name) == AttributeOf(s, n, name)
  {
    if IsElement(s, n) then
      FindAttributeAppend(s.nodes[n].attributes, Attribute(name, Encode(x)), name);
      WithAttributeAppended(s, n, name, Encode(x))
    else s
  }

  /** writer_impl::attribute with a default: no attribute when the value equals the default. */
  function WriteAttributeDefault(s: Store, n: NodeId, name: string, x: Scalar, def: Scalar): (t: Store)
    ensures x == def || !IsElement(s, n) ==> t == s
    ensures x != def && IsElement(s, n) && name != "" && AttributeOf(s, n, name).None? ==>
      AttributeOf(t, n, name) == Some(Encode(x))
  {
    if x != def then WriteAttribute(s, n, name, x) else s
  }

  /** writer_impl::next_sibling: insert after the node, under the node's parent. */
  function WriteNextSibling(s: Store, n: NodeId, name: string): (r: (Store, NodeId))
    ensures ParentOf(s, n) == Null ==> r == (s, Null)
    ensures WellFormed(s) && n in s.nodes && ParentOf(s, n) != Null ==> r.1 != Null
    ensures WellFormed(s) && r.1 == Null ==> r.0 == s
    ensures r.1 != Null ==>
      && r.1 == s.nextId && r.0.nodes.Keys == s.nodes.Keys + {r.1} && r.0.nextId == s.nextId + 1
      && NameOf(r.0, r.1) == name && ParentOf(r.0, r.1) == ParentOf(s, n)
    ensures WellFormed(s) && r.1 != Null ==>
      && r.1 !in s.nodes && ParentOf(s, n) in s.nodes
      && r.0.nodes[ParentOf(s, n)] == s.nodes[ParentOf(s, n)].(children := r.0.nodes[ParentOf(s, n)].children)
      && (forall m :: m in s.nodes && m != ParentOf(s, n) ==> r.0.nodes[m] == s.nodes[m])
  {
    var r := WithChildInsertedAfter(s, ParentOf(s, n), name, n);
    assert WellFormed(s) && n in s.nodes && ParentOf(s, n) != Null ==> r.1 != Null by {
      if WellFormed(s) && n in s.nodes && ParentOf(s, n) != Null {
        InsertAfterThenFind(s, ParentOf(s, n), n, name);
      }
    }
    r
  }

  // ---------------------------------------------------------------------
  // Properties of the pair.

  /**
   * The writer's node_name sets the name the reader's node_name copies out;
   * on the document node, which set_name refuses, nothing changes.
   */
  lemma NodeNameRoundTrip(s: Store, n: NodeId, name: string)
    requires n in s.nodes
    ensures n != Root ==> NameOf(Renamed(s, n, name), n) == name
    ensures n == Root ==> Renamed(s, n, name) == s
    ensures Renamed(s, n, name).nodes.Keys == s.nodes.Keys
  {
  }

  /**
   * The writer's next_sibling followed by the reader's next_sibling with the
   * same name, from the same node, arrives at the inserted node.
   */
  lemma NextSiblingRoundTrip(s: Store, n: NodeId, name: string)
    requires WellFormed(s) && n in s.nodes && ParentOf(s, n) != Null
    ensures var (t, c) := WriteNextSibling(s, n, name);
      && c != Null && ParentOf(t, c) == ParentOf(s, n)
      && NextSiblingOf(t, n, name) == if name == "" then Null else c
  {
    InsertAfterThenFind(s, ParentOf(s, n), n, name);
  }

  /**
   * Siblings inserted from the same node come out in reverse order of the
   * calls: under a parent whose only child is `a`, the writer's
   * next_sibling("b") from `a` gives [a, b], and next_sibling("c") from `a`
   * then gives [a, c, b].
   */
  lemma SiblingInsertionOrder(s: Store, a: NodeId, s2: Store, b: NodeId, s3: Store, c: NodeId)
    requires WellFormed(s) && a in s.nodes
    requires ParentOf(s, a) != Null && ParentOf(s, a) in s.nodes
    requires s.nodes[ParentOf(s, a)].children == [a]
    requires (s2, b) == WriteNextSibling(s, a, "b") && (s3, c) == WriteNextSibling(s2, a, "c")
    ensures s2.nodes[ParentOf(s, a)].children == [a, b]
    ensures s3.nodes[ParentOf(s, a)].children == [a, c, b]
    ensures ChildNames(s3, ParentOf(s, a)) == [NameOf(s, a), "c", "b"]
  {
    var p := ParentOf(s, a);
    assert IndexOf([a], a) == Some(0);
    assert [a][..1] + [b] + [a][1..] == [a, b];
    assert b == s.nextId && s2.nodes == s.nodes[p := s.nodes[p].(children := [a, b])][b := NewNode("b", p)];
    assert a != b by { assert a < s.nextId; }
    assert IndexOf([a, b], a) == Some(0);
    assert [a, b][..1] + [c] + [a, b][1..] == [a, c, b];
    assert c == s2.nextId && s3.nodes == s2.nodes[p := s2.nodes[p].(children := [a, c, b])][c := NewNode("c", p)];
    assert b != c && a != c;
  }

  /**
   * Writing nothing when the value equals the default: the defaulted text
   * write leaves the store as it was when the value is the default, and
   * behaves as the plain write otherwise, so that the text is on the node.
   */
  lemma TextDefaultOmission(s: Store, n: NodeId, x: Scalar, def: Scalar)
    ensures x == def ==> WriteTextDefault(s, n, x, def) == s
    ensures x != def ==> WriteTextDefault(s, n, x, def) == WriteText(s, n, x)
    ensures x != def && n in s.nodes ==> TextOf(WriteTextDefault(s, n, x, def), n) == Some(Encode(x))
  {
  }

  /**
   * The defaulted attribute write leaves the store as it was when the value
   * equals the default, and otherwise is the plain write: exactly one
   * attribute appended to an element, nothing at all on the document node.
   */
  lemma AttributeDefaultOmission(s: Store, n: NodeId, name: string, x: Scalar, def: Scalar)
    ensures var t := WriteAttributeDefault(s, n, name, x, def);
      && (x == def ==> t == s)
      && (x != def ==> t == WriteAttribute(s, n, name, x))
      && (x != def && IsElement(s, n) ==>
            t.nodes == s.nodes[n := s.nodes[n].(attributes := s.nodes[n].attributes + [Attribute(name, Encode(x))])])
      && (!IsElement(s, n) ==> t == s)
  {
  }

  /**
   * Write then read without defaults, on a node that has no attribute of
   * that name, as the code is written: the reader gets back the written value,
   * for every slot type, except on the document node (nothing was written)
   * and for the empty string (stored as no value), where the reader's
   * variable keeps the value it had.
   */
  lemma AttributeRoundTrip(s: Store, n: NodeId, name: string, x: Scalar, slot: Scalar)
    requires n in s.nodes && AttributeOf(s, n, name).None?
    requires WellTyped(x) && SameType(x, slot)
    ensures ReadAttribute(WriteAttribute(s, n, name, x), n, name, slot)
         == if n == Root || name == "" || x == Chars("") then slot else x
  {
    if n != Root {
      FindAttributeAppend(s.nodes[n].attributes, Attribute(name, Encode(x)), name);
      DecodeEncode(x, slot);
    }
  }

  /**
   * Write then read with the same default, on a node that has no attribute
   * of that name, as the code is written. The reader gets back the written
   * value whether or not it equals the default (when it does, nothing was
   * written and the reader falls back on the default), with two exceptions:
   * on the document node nothing was written, so the default comes back; an
   * empty string that differs from the default is stored as no value, so the
   * reader's variable keeps the value it had.
   */
  lemma AttributeDefaultRoundTrip(s: Store, n: NodeId, name: string, x: Scalar, def: Scalar, slot: Scalar)
    requires n in s.nodes && AttributeOf(s, n, name).None?
    requires WellTyped(x) && SameType(x, def) && SameType(x, slot)
    ensures ReadAttributeDefault(WriteAttributeDefault(s, n, name, x, def), n, name, slot, def)
         == if x != def && (n == Root || name == "") then def
            else if x != def && x == Chars("") then slot
            else x
  {
    if x != def && n != Root {
      FindAttributeAppend(s.nodes[n].attributes, Attribute(name, Encode(x)), name);
      DecodeEncode(x, slot);
    }
  }

  /**
   * The empty string written to an element as an attribute with a
   * non-empty default is not read back: the reader's variable keeps "y".
   */
  lemma AttributeEmptyKeepsSlot(s: Store, n: NodeId, name: string)
    requires IsElement(s, n) && AttributeOf(s, n, name).None?
    ensures var t := WriteAttributeDefault(s, n, name, Chars(""), Chars("x"));
      && (name != "" ==> AttributeOf(t, n, name) == Some(Str("")))
      && ReadAttributeDefault(t, n, name, Chars("y"), Chars("x")) == if name == "" then Chars("x") else Chars("y")
  {
    FindAttributeAppend(s.nodes[n].attributes, Attribute(name, Str("")), name);
  }

  /** With the corrected reader every written value reads back, except on the document node. */
  lemma AttributeRoundTripCorrected(s: Store, n: NodeId, name: string, x: Scalar, slot: Scalar)
    requires n in s.nodes && AttributeOf(s, n, name).None?
    requires WellTyped(x) && SameType(x, slot)
    ensures ReadAttributeCorrected(WriteAttribute(s, n, name, x), n, name, slot)
         == if n == Root || name == "" then slot else x
  {
    if n != Root {
      FindAttributeAppend(s.nodes[n].attributes, Attribute(name, Encode(x)), name);
      DecodeEncode(x, slot);
    }
  }

  /**
   * With the corrected reader, writing with a default and reading with the
   * same default gives back the value, the empty string included; on the
   * document node the default comes back.
   */
  lemma AttributeDefaultRoundTripCorrected(s: Store, n: NodeId, name: string, x: Scalar, def: Scalar, slot: Scalar)
    requires n in s.nodes && AttributeOf(s, n, name).None?
    requires WellTyped(x) && SameType(x, def) && SameType(x, slot)
    ensures ReadAttributeDefaultCorrected(WriteAttributeDefault(s, n, name, x, def), n, name, slot, def)
         == if x != def && (n == Root || name == "") then def else x
  {
    if x != def && n != Root {
      FindAttributeAppend(s.nodes[n].attributes, Attribute(name, Encode(x)), name);
      DecodeEncode(x, slot);
    }
  }

  /**
   * append_attribute does not replace: a second write of an attribute that
   * is already present is invisible to the reader, which finds the first.
   */
  lemma AttributeRewriteKeepsFirst(s: Store, n: NodeId, name: string, x: Scalar, slot: Scalar)
    requires n in s.nodes && AttributeOf(s, n, name).Some?
    ensures ReadAttribute(WriteAttribute(s, n, name, x), n, name, slot) == ReadAttribute(s, n, name, slot)
  {
    FindAttributeAppend(s.nodes[n].attributes, Attribute(name, Encode(x)), name);
  }

  /** The values that survive being written as text and read back through as_int. */
  predicate SurvivesAsInt(x: Scalar) {
    match x
    case Chars(_) => true
    case Boolean(b) => !b
    case Integer(w, v) => InRange(Int32, v)
  }

  /**
   * Text round trip as the code is written: a value written as text reads
   * back unchanged exactly when it survives as_int. A string always does; the
   * bool true does not (its text "true" reads as 0); an integer does exactly
   * when it lies in the range of a 32-bit int.
   */
  lemma TextRoundTrip(s: Store, n: NodeId, x: Scalar, slot: Scalar)
    requires n in s.nodes && WellTyped(x) && SameType(x, slot)
    ensures ReadText(WriteText(s, n, x), n, slot) == x <==> SurvivesAsInt(x)
  {
    var t := WriteText(s, n, x);
    assert TextOf(t, n) == Some(Encode(x));
    match x
    case Chars(_) =>
    case Boolean(b) =>
    case Integer(w, v) =>
      var c := Clamp(Int32, v);
      assert TextAsInt(t, n) == c;
      if InRange(Int32, v) {
        assert FromInt(w, c) == v;
      } else if v > Max(Int32) {
        assert c == Max(Int32);
        assert FromInt(w, c) == c;
      } else {
        assert w == Int64;
        assert FromInt(w, c) == Min(Int32);
      }
  }

  /** The bool true written as text reads back as false. */
  lemma TextTrueReadsFalse(s: Store, n: NodeId)
    requires n in s.nodes
    ensures ReadText(WriteText(s, n, Boolean(true)), n, Boolean(false)) == Boolean(false)
  {
  }

  /** The unsigned 3000000000 written as text reads back as 2147483647. */
  lemma TextLargeUnsignedClamps(s: Store, n: NodeId)
    requires n in s.nodes
    ensures ReadText(WriteText(s, n, Integer(UInt32, 3_000_000_000)), n, Integer(UInt32, 0))
         == Integer(UInt32, 2_147_483_647)
  {
  }

  /** With the slot's own conversion, every value written as text reads back unchanged. */
  lemma TextRoundTripCorrected(s: Store, n: NodeId, x: Scalar, slot: Scalar)
    requires n in s.nodes && WellTyped(x) && SameType(x, slot)
    ensures ReadTextCorrected(WriteText(s, n, x), n, slot) == x
  {
    DecodeEncode(x, slot);
  }

  /**
   * The defaulted text reader as written: when the caller's variable
   * already holds the default, stored text is never looked at, so a value
   * written with that default is lost on the way back.
   */
  /**
   * The defaulted text round trip as the code is written, with the reader's
   * variable not holding the default: a value other than the default is
   * written, and it reads back exactly when it survives as_int.
   */
  lemma TextDefaultRoundTrip(s: Store, n: NodeId, x: Scalar, def: Scalar, slot: Scalar)
    requires n in s.nodes && WellTyped(x) && !x.Chars?
    requires SameType(x, def) && SameType(x, slot) && x != def && slot != def
    ensures ReadTextDefault(WriteTextDefault(s, n, x, def), n, slot, def) == x <==> SurvivesAsInt(x)
  {
    TextRoundTrip(s, n, x, slot);
  }

  lemma TextDefaultIgnoresText(s: Store, n: NodeId, x: Scalar, def: Scalar)
    requires n in s.nodes && !x.Chars? && SameType(x, def) && x != def
    ensures TextOf(WriteTextDefault(s, n, x, def), n) == Some(Encode(x))
    ensures ReadTextDefault(WriteTextDefault(s, n, x, def), n, def, def) == def && def != x
  {
  }

  /**
   * The intended defaulted text round trip: on a node without text, writing
   * with a default and reading with the same default gives back the value,
   * whether or not it equals the default.
   */
  lemma TextDefaultRoundTripCorrected(s: Store, n: NodeId, x: Scalar, def: Scalar, slot: Scalar)
    requires n in s.nodes && TextOf(s, n).None?
    requires WellTyped(x) && SameType(x, def) && SameType(x, slot)
    ensures ReadTextDefaultCorrected(WriteTextDefault(s, n, x, def), n, slot, def) == x
  {
    if x != def {
      DecodeEncode(x, slot);
    }
  }

  // ---------------------------------------------------------------------
  // impl_base, writer_impl and reader_impl as one strategy object.

  /**
   * The strategy object. The flag is set once, by the constructor of the
   * direction chosen; `reading` is true for the reader and false for the writer.
   */
  class Implementor {
    const reading: bool

    /** writer_impl(): clears the flag. */
    constructor Writer()
      ensures !reading
    {
      reading := false;
    }

    /** reader_impl(): keeps the flag's initial value, true. */
    constructor Reader()
      ensures reading
    {
      reading := true;
    }

    predicate Reading() {
      reading
    }

    predicate Writing()
      ensures Writing() != Reading()
    {
      !reading
    }

    method NodeName(doc: Document, n: NodeId, name: string) returns (r: string)
      requires doc.Valid()
      modifies doc
      ensures doc.Valid()
      ensures reading ==> unchanged(doc) && r == NameOf(old(doc.State()), n)
      ensures !reading ==> doc.State() == Renamed(old(doc.State()), n, name) && r == name
    {
      if reading {
        r := NameOf(doc.State(), n);
      } else {
        doc.SetName(n, name);
        r := name;
      }
    }

    method Child(doc: Document, n: NodeId, name: string) returns (c: NodeId)
      requires doc.Valid()
      modifies doc
      ensures doc.Valid()
      ensures reading ==> unchanged(doc) && c == FirstChild(old(doc.State()), n, name)
      ensures !reading ==> (doc.State(), c) == WithChildAppended(old(doc.State()), n, name)
    {
      if reading {
        c := FirstChild(doc.State(), n, name);
      } else {
        c := doc.AppendChild(n, name);
      }
    }

    method NextSibling(doc: Document, n: NodeId, name: string) returns (c: NodeId)
      requires doc.Valid()
      modifies doc
      ensures doc.Valid()
      ensures reading ==> unchanged(doc) && c == NextSiblingOf(old(doc.State()), n, name)
      ensures !reading ==> (doc.State(), c) == WriteNextSibling(old(doc.State()), n, name)
    {
      if reading {
        c := NextSiblingOf(doc.State(), n, name);
      } else {
        c := doc.InsertChildAfter(ParentOf(doc.State(), n), name, n);
      }
    }

    method Text(doc: Document, n: NodeId, slot: Scalar) returns (r: Scalar)
      requires doc.Valid()
      modifies doc
      ensures doc.Valid()
      ensures reading ==> unchanged(doc) && r == ReadText(old(doc.State()), n, slot)
      ensures !reading ==> doc.State() == WriteText(old(doc.State()), n, slot) && r == slot
    {
      if reading {
        r := ReadText(doc.State(), n, slot);
      } else {
        doc.SetText(n, Encode(slot));
        r := slot;
      }
    }

    /** The defaulted text transfer; the reader's string form is not part of this model. */
    method TextDefault(doc: Document, n: NodeId, slot: Scalar, def: Scalar) returns (r: Scalar)
      requires doc.Valid() && SameType(slot, def)
      requires reading ==> !slot.Chars?
      modifies doc
      ensures doc.Valid()
      ensures reading ==> unchanged(doc) && r == ReadTextDefault(old(doc.State()), n, slot, def)
      ensures !reading ==> doc.State() == WriteTextDefault(old(doc.State()), n, slot, def) && r == slot
    {
      if reading {
        r := ReadTextDefault(doc.State(), n, slot, def);
      } else {
        if slot != def {
          doc.SetText(n, Encode(slot));
        }
        r := slot;
      }
    }

    method Attribute(doc: Document, n: NodeId, name: string, slot: Scalar) returns (r: Scalar)
      requires doc.Valid()
      modifies doc
      ensures doc.Valid()
      ensures reading ==> unchanged(doc) && r == ReadAttribute(old(doc.State()), n, name, slot)
      ensures !reading ==> doc.State() == WriteAttribute(old(doc.State()), n, name, slot) && r == slot
    {
      if reading {
        r := ReadAttribute(doc.State(), n, name, slot);
      } else {
        doc.AppendAttribute(n, name, Encode(slot));
        r := slot;
      }
    }

    method AttributeDefault(doc: Document, n: NodeId, name: string, slot: Scalar, def: Scalar) returns (r: Scalar)
      requires doc.Valid() && SameType(slot, def)
      modifies doc
      ensures doc.Valid()
      ensures reading ==> unchanged(doc) && r == ReadAttributeDefault(old(doc.State()), n, name, slot, def)
      ensures !reading ==> doc.State() == WriteAttributeDefault(old(doc.State()), n, name, slot, def) && r == slot
    {
      if reading {
        r := ReadAttributeDefault(doc.State(), n, name, slot, def);
      } else {
        if slot != def {
          doc.AppendAttribute(n, name, Encode(slot));
        }
        r := slot;
      }
    }

    /** `Attribute` with the corrected reader. */
    method AttributeCorrected(doc: Document, n: NodeId, name: string, slot: Scalar) returns (r: Scalar)
      requires doc.Valid()
      modifies doc
      ensures doc.Valid()
      ensures reading ==> unchanged(doc) && r == ReadAttributeCorrected(old(doc.State()), n, name, slot)
      ensures !reading ==> doc.State() == WriteAttribute(old(doc.State()), n, name, slot) && r == slot
    {
      if reading {
        r := ReadAttributeCorrected(doc.State(), n, name, slot);
      } else {
        doc.AppendAttribute(n, name, Encode(slot));
        r := slot;
      }
    }

    /** `AttributeDefault` with the corrected reader. */
    method AttributeDefaultCorrected(doc: Document, n: NodeId, name: string, slot: Scalar, def: Scalar) returns (r: Scalar)
      requires doc.Valid() && SameType(slot, def)
      modifies doc
      ensures doc.Valid()
      ensures reading ==> unchanged(doc) && r == ReadAttributeDefaultCorrected(old(doc.State()), n, name, slot, def)
      ensures !reading ==> doc.State() == WriteAttributeDefault(old(doc.State()), n, name, slot, def) && r == slot
    {
      if reading {
        r := ReadAttributeDefaultCorrected(doc.State(), n, name, slot, def);
      } else {
        if slot != def {
          doc.AppendAttribute(n, name, Encode(slot));
        }
        r := slot;
      }
    }

    /** `Text` with the corrected reader. */
    method TextCorrected(doc: Document, n: NodeId, slot: Scalar) returns (r: Scalar)
      requires doc.Valid()
      modifies doc
      ensures doc.Valid()
      ensures reading ==> unchanged(doc) && r == ReadTextCorrected(old(doc.State()), n, slot)
      ensures !reading ==> doc.State() == WriteText(old(doc.State()), n, slot) && r == slot
    {
      if reading {
        r := ReadTextCorrected(doc.State(), n, slot);
      } else {
        doc.SetText(n, Encode(slot));
        r := slot;
      }
    }

    /** `TextDefault` with the corrected reader, for every slot type. */
    method TextDefaultCorrected(doc: Document, n: NodeId, slot: Scalar, def: Scalar) returns (r: Scalar)
      requires doc.Valid() && SameType(slot, def)
      modifies doc
      ensures doc.Valid()
      ensures reading ==> unchanged(doc) && r == ReadTextDefaultCorrected(old(doc.State()), n, slot, def)
      ensures !reading ==> doc.State() == WriteTextDefault(old(doc.State()), n, slot, def) && r == slot
    {
      if reading {
        r := ReadTextDefaultCorrected(doc.State(), n, slot, def);
      } else {
        if slot != def {
          doc.SetText(n, Encode(slot));
        }
        r := slot;
      }
    }
  }
}
